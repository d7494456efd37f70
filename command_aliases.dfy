// Resolution of a typed command, in any of the bot's languages, to its
// canonical name, and the inverse choice of the alias to show for a language.

module CommandAliases {
  import opened Wrappers
  import opened Strings

  /** The aliases of one command in one language. */
  datatype LangAliases = LangAliases(lang: string, aliases: seq<string>)

  /** One entry of the alias table: the canonical name and its aliases per language, in table order. */
  datatype Command = Command(canonical: string, byLang: seq<LangAliases>)

  /**
   * The command word of a message: trimmed, without a leading `/`, cut at
   * the first `@` (the bot name) and then at the first space (the
   * arguments), and lower-cased.
   */
  function CommandWord(text: string): string
  {
    var t := JsTrim(text);
    var a := if StartsWith(t, "/") then t[1..] else t;
    var b := match IndexOf(a, "@") case Some(k) => a[..k] case None => a;
    var c := match IndexOf(b, " ") case Some(k) => b[..k] case None => b;
    Lower(c)
  }

  /** Some language's list of a command holds `cmd`. */
  function Listed(byLang: seq<LangAliases>, cmd: string): (r: bool)
    ensures r <==> exists i :: 0 <= i < |byLang| && cmd in byLang[i].aliases
  {
    if |byLang| == 0 then false
    else
      assert forall i :: 1 <= i < |byLang| ==> byLang[i] == byLang[1..][i - 1];
      cmd in byLang[0].aliases || Listed(byLang[1..], cmd)
  }

  /** The canonical name of the first command, in table order, listing `cmd`. */
  function FirstCanonical(table: seq<Command>, cmd: string): Option<string>
  {
    if |table| == 0 then None
    else if Listed(table[0].byLang, cmd) then Some(table[0].canonical)
    else FirstCanonical(table[1..], cmd)
  }

  /**
   * A command is found exactly when some entry lists it, and then it is the
   * canonical name of the first entry that does.
   */
  lemma {:induction false} FirstCanonicalSpec(table: seq<Command>, cmd: string)
    ensures FirstCanonical(table, cmd).Some? <==> exists k :: 0 <= k < |table| && Listed(table[k].byLang, cmd)
    ensures FirstCanonical(table, cmd).Some? ==> exists k :: (0 <= k < |table| && Listed(table[k].byLang, cmd) &&
      table[k].canonical == FirstCanonical(table, cmd).value && forall j :: 0 <= j < k ==> !Listed(table[j].byLang, cmd))
  {
    if |table| > 0 && Listed(table[0].byLang, cmd) {
      assert 0 <= 0 < |table| && Listed(table[0].byLang, cmd) && table[0].canonical == FirstCanonical(table, cmd).value;
    } else if |table| > 0 {
      var tail := table[1..];
      FirstCanonicalSpec(tail, cmd);
      assert FirstCanonical(table, cmd) == FirstCanonical(tail, cmd);
      assert forall k :: 1 <= k < |table| ==> table[k] == tail[k - 1];
      if FirstCanonical(tail, cmd).Some? {
        var k :| 0 <= k < |tail| && Listed(tail[k].byLang, cmd) &&
          tail[k].canonical == FirstCanonical(tail, cmd).value &&
          forall j :: 0 <= j < k ==> !Listed(tail[j].byLang, cmd);
        assert table[k + 1] == tail[k];
        assert forall j :: 0 <= j < k + 1 ==> !Listed(table[j].byLang, cmd);
      } else {
        forall k | 0 <= k < |table| ensures !Listed(table[k].byLang, cmd) {
          if k > 0 { assert table[k] == tail[k - 1]; }
        }
      }
    }
  }

  /** `normalizeCommand`: an empty message is no command; otherwise the first command listing its word. */
  function Resolve(table: seq<Command>, text: string): Option<string>
  {
    if text == "" then None else FirstCanonical(table, CommandWord(text))
  }

  /** The source's step-by-step cleaning and nested search with early return. */
  method NormalizeCommand(table: seq<Command>, text: string) returns (r: Option<string>)
    ensures r == Resolve(table, text)
  {
    if text == "" {
      return None;
    }
    var cmd := JsTrim(text);
    if StartsWith(cmd, "/") {
      cmd := cmd[1..];
    }
    var at := IndexOf(cmd, "@");
    if at.Some? {
      cmd := cmd[..at.value];
    }
    var space := IndexOf(cmd, " ");
    if space.Some? {
      cmd := cmd[..space.value];
    }
    cmd := Lower(cmd);
    assert cmd == CommandWord(text);
    for i := 0 to |table|
      invariant FirstCanonical(table, cmd) == FirstCanonical(table[i..], cmd)
    {
      assert table[i..][1..] == table[i + 1..];
      var langs := table[i].byLang;
      for j := 0 to |langs|
        invariant Listed(langs, cmd) == Listed(langs[j..], cmd)
      {
        assert langs[j..][1..] == langs[j + 1..];
        if cmd in langs[j].aliases {
          return Some(table[i].canonical);
        }
      }
      assert langs[|langs|..] == [];
    }
    assert table[|table|..] == [];
    return None;
  }

  // ---------------------------------------------------------- the command word

  /** A word of this shape survives the cleaning, apart from case. */
  predicate PlainWord(w: string)
  {
    |w| > 0 && forall i :: 0 <= i < |w| ==> !IsJsSpace(w[i]) && w[i] != '@'
  }

  /** What may follow the command word: a bot name after `@`, or arguments after a space. */
  predicate Suffix(rest: string)
  {
    rest == "" || ((rest[0] == '@' || rest[0] == ' ') && !IsJsSpace(rest[|rest| - 1]))
  }

  /** The first occurrence of a character that `w` does not hold, right after `w`. */
  lemma {:induction false} FirstAfter(w: string, c: char, rest: string)
    requires c !in w && |rest| > 0 && rest[0] == c
    ensures IndexOf(w + rest, [c]) == Some(|w|)
    ensures (w + rest)[..|w|] == w
  {
    var s := w + rest;
    assert s[|w|..|w| + 1] == [c];
    forall q | 0 <= q < |w|
      ensures !OccursAt(s, [c], q)
    {
      assert s[q..q + 1][0] == w[q];
    }
    IndexOfAt(s, [c], |w|);
  }

  /** Cutting at the first `@`, when the word has none and a space follows it, keeps the word and the space. */
  lemma {:induction false} AtCut(w: string, rest: string)
    requires '@' !in w && |rest| > 0 && rest[0] == ' '
    ensures match IndexOf(w + rest, "@")
      case Some(k) => |w| < k && (w + rest)[..k] == w + rest[..k - |w|]
      case None => true
  {
    var s := w + rest;
    match IndexOf(s, "@")
    case Some(k) =>
      assert s[k..k + 1] == "@";
      assert s[k] == '@';
      assert s[..k] == w + rest[..k - |w|];
    case None =>
  }

  /**
   * The leading `/`, a bot-name suffix and arguments are removed, and the
   * word is lower-cased.
   */
  lemma {:induction false} CommandWordStrips(w: string, rest: string)
    requires PlainWord(w) && Suffix(rest)
    ensures CommandWord("/" + w + rest) == Lower(w)
  {
    var s := "/" + w + rest;
    assert s[0] == '/' && s[|s| - 1] == (if rest == "" then w[|w| - 1] else rest[|rest| - 1]);
    TrimNoop(s, IsJsSpace);
    assert s[1..] == w + rest;
    assert StartsWith(s, "/");
    var a := w + rest;
    assert '@' !in w && ' ' !in w;
    if rest == "" {
      assert a == w;
      NoCharNoOccurrence(w, '@');
      NoCharNoOccurrence(w, ' ');
    } else if rest[0] == '@' {
      FirstAfter(w, '@', rest);
      NoCharNoOccurrence(w, ' ');
    } else {
      AtCut(w, rest);
      match IndexOf(a, "@")
      case Some(k) =>
        FirstAfter(w, ' ', rest[..k - |w|]);
      case None =>
        FirstAfter(w, ' ', rest);
    }
  }

  // ---------------------------------------------------------- getPrimaryAlias

  /** The table entry of a canonical name. */
  function FindCommand(table: seq<Command>, canonical: string): (r: Option<Command>)
    ensures r.Some? ==> r.value in table && r.value.canonical == canonical
    ensures r.None? ==> forall k :: 0 <= k < |table| ==> table[k].canonical != canonical
  {
    if |table| == 0 then None
    else if table[0].canonical == canonical then Some(table[0])
    else FindCommand(table[1..], canonical)
  }

  /** The alias list of a language. */
  function AliasesFor(byLang: seq<LangAliases>, lang: string): (r: Option<seq<string>>)
    ensures r.Some? ==> exists i :: 0 <= i < |byLang| && byLang[i].lang == lang && byLang[i].aliases == r.value
    ensures r.None? ==> forall i :: 0 <= i < |byLang| ==> byLang[i].lang != lang
  {
    if |byLang| == 0 then None
    else if byLang[0].lang == lang then Some(byLang[0].aliases)
    else
      var r := AliasesFor(byLang[1..], lang);
      assert forall i :: 1 <= i < |byLang| ==> byLang[i] == byLang[1..][i - 1];
      r
  }

  /** The first alias of a language's nonempty list. */
  function FirstAlias(byLang: seq<LangAliases>, lang: string): Option<string>
  {
    match AliasesFor(byLang, lang)
    case Some(l) => if |l| > 0 then Some(l[0]) else None
    case None => None
  }

  /**
   * `getPrimaryAlias`: the language's first alias, else the English one, else
   * the canonical name. What is shown is the canonical name or one of the
   * command's own aliases, and an unknown name is shown as it is.
   */
  function GetPrimaryAlias(table: seq<Command>, canonical: string, lang: string): (r: string)
    ensures FindCommand(table, canonical).None? ==> r == canonical
    ensures r == canonical || Listed(FindCommand(table, canonical).value.byLang, r)
  {
    match FindCommand(table, canonical)
    case None => canonical
    case Some(c) =>
      match FirstAlias(c.byLang, lang)
      case Some(a) => FirstAliasListed(c.byLang, lang); a
      case None =>
        match FirstAlias(c.byLang, "en")
        case Some(a) => FirstAliasListed(c.byLang, "en"); a
        case None => canonical
  }

  /** A first alias is one the command lists. */
  lemma {:induction false} FirstAliasListed(byLang: seq<LangAliases>, lang: string)
    requires FirstAlias(byLang, lang).Some?
    ensures Listed(byLang, FirstAlias(byLang, lang).value)
  {
    var l := AliasesFor(byLang, lang).value;
    var i :| 0 <= i < |byLang| && byLang[i].lang == lang && byLang[i].aliases == l;
    assert l[0] in byLang[i].aliases;
  }

  /**
   * A table as resolution expects it: distinct canonical names, aliases
   * already lower-case and free of spaces and `@`, and no alias listed
   * under two commands.
   */
  ghost predicate WellFormed(table: seq<Command>)
  {
    (forall j, k :: 0 <= j < k < |table| ==> table[j].canonical != table[k].canonical) &&
    (forall k, i, a :: 0 <= k < |table| && 0 <= i < |table[k].byLang| && a in table[k].byLang[i].aliases ==>
       PlainWord(a) && Lower(a) == a) &&
    (forall j, k, a :: 0 <= j < k < |table| && Listed(table[k].byLang, a) ==> !Listed(table[j].byLang, a))
  }

  /** In a well-formed table every listed alias, typed as a slash command, resolves to its command. */
  lemma {:induction false} ListedResolves(table: seq<Command>, k: nat, a: string)
    requires WellFormed(table) && k < |table|
    requires Listed(table[k].byLang, a)
    ensures Resolve(table, "/" + a) == Some(table[k].canonical)
  {
    var i :| 0 <= i < |table[k].byLang| && a in table[k].byLang[i].aliases;
    assert PlainWord(a) && Lower(a) == a;
    CommandWordStrips(a, "");
    assert "/" + a + "" == "/" + a;
    FirstCanonicalSpec(table, a);
    var m :| 0 <= m < |table| && Listed(table[m].byLang, a) && table[m].canonical == FirstCanonical(table, a).value &&
      forall j :: 0 <= j < m ==> !Listed(table[j].byLang, a);
    assert m == k;
  }

  /** The alias shown for a command is one of its own, when it has one in the language or in English. */
  lemma {:induction false} PrimaryListed(table: seq<Command>, k: nat, lang: string)
    requires WellFormed(table) && k < |table|
    requires FirstAlias(table[k].byLang, lang).Some? || FirstAlias(table[k].byLang, "en").Some?
    ensures Listed(table[k].byLang, GetPrimaryAlias(table, table[k].canonical, lang))
  {
    var c := table[k];
    var f := FindCommand(table, c.canonical);
    assert f == Some(c) by {
      var m :| 0 <= m < |table| && table[m] == f.value;
      assert m == k;
    }
    var l := if FirstAlias(c.byLang, lang).Some? then lang else "en";
    FirstAliasListed(c.byLang, l);
  }

  /**
   * The alias shown for a command resolves back to that command, in every
   * language that has one (directly or through English).
   */
  lemma {:induction false} PrimaryRoundTrip(table: seq<Command>, k: nat, lang: string)
    requires WellFormed(table) && k < |table|
    requires FirstAlias(table[k].byLang, lang).Some? || FirstAlias(table[k].byLang, "en").Some?
    ensures Resolve(table, "/" + GetPrimaryAlias(table, table[k].canonical, lang)) == Some(table[k].canonical)
  {
    PrimaryListed(table, k, lang);
    ListedResolves(table, k, GetPrimaryAlias(table, table[k].canonical, lang));
  }

  // ---------------------------------------------------------- the shipped table

  /** The first entries of the shipped table, and the one the tests exercise. */
  const Excerpt: seq<Command> := [
    Command("start", [LangAliases("en", ["start", "rozpocznij"]), LangAliases("de", ["anfang"])]),
    Command("help", [LangAliases("en", ["help"]), LangAliases("de", ["hilfe"])]),
    Command("dodaj", [LangAliases("en", ["add"]), LangAliases("pl", ["dodaj"]),
                      LangAliases("de", ["hinzufügen"]), LangAliases("fr", ["ajouter"])])
  ]

  /** A slash command of a plain lower-case word resolves by that word. */
  lemma {:induction false} ResolveWord(table: seq<Command>, w: string)
    requires PlainWord(w) && forall i :: 0 <= i < |w| ==> LowerChar(w[i]) == w[i]
    ensures Resolve(table, "/" + w) == FirstCanonical(table, w)
  {
    CommandWordStrips(w, "");
    assert "/" + w + "" == "/" + w;
    LowerFixed(w);
  }

  // The alias cases of the i18n regression test for `dodaj`, one language
  // each; `w` is the typed word.

  /** The Polish alias. */
  lemma {:induction false} DodajPolishCase(w: string)
    requires w == "dodaj"
    ensures Resolve(Excerpt, "/" + w) == Some("dodaj")
  {
    ResolveWord(Excerpt, w);
    assert FirstCanonical(Excerpt, "dodaj") == Some("dodaj");
  }

  /** The English alias. */
  lemma {:induction false} DodajEnglishCase(w: string)
    requires w == "add"
    ensures Resolve(Excerpt, "/" + w) == Some("dodaj")
  {
    ResolveWord(Excerpt, w);
    assert FirstCanonical(Excerpt, "add") == Some("dodaj");
  }

  /** The German alias. */
  lemma {:induction false} DodajGermanCase(w: string)
    requires w == "hinzufügen"
    ensures Resolve(Excerpt, "/" + w) == Some("dodaj")
  {
    ResolveWord(Excerpt, w);
    assert FirstCanonical(Excerpt, "hinzufügen") == Some("dodaj");
  }

  /** The French alias. */
  lemma {:induction false} DodajFrenchCase(w: string)
    requires w == "ajouter"
    ensures Resolve(Excerpt, "/" + w) == Some("dodaj")
  {
    ResolveWord(Excerpt, w);
    assert FirstCanonical(Excerpt, "ajouter") == Some("dodaj");
  }
}
