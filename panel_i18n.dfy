// The web panel's translation helpers: which language a stored or requested
// code stands for, the `{name}` substitution, and the lookup of a key in the
// per-language tables with its fallbacks.

module PanelI18n {
  import opened Wrappers
  import opened Strings
  import opened Templates

  /** The codes of `LANGS`, in the order the panel lists them. */
  const Codes: seq<string> := ["pl", "en", "de", "fr", "es", "it", "pt", "ro", "nl", "cs", "sk"]

  /** The language every lookup falls back to. */
  const English: string := "en"

  /**
   * `normLang`: the trimmed, lower-cased code when the panel supports it,
   * Portuguese for Brazilian Portuguese, English for anything else. A
   * missing or `null` argument is the empty text.
   */
  function NormLang(v: string): (r: string)
    ensures r in Codes
    ensures Lower(JsTrim(v)) in Codes ==> r == Lower(JsTrim(v))
    ensures r != English ==> r == Lower(JsTrim(v)) || (r == "pt" && Lower(JsTrim(v)) == "pt-br")
  {
    var x := Lower(JsTrim(v));
    if x == "pt-br" then "pt"
    else if x in Codes then x
    else English
  }

  /** Every supported code is made of lower-case ASCII letters. */
  lemma {:induction false} CodesLowerAscii(c: string)
    requires c in Codes
    ensures |c| == 2 && forall i :: 0 <= i < |c| ==> 'a' <= c[i] <= 'z'
  {
  }

  /**
   * A supported code stands for itself, in any padding of whitespace: the
   * panel hands back the code it stored.
   */
  lemma {:induction false} SupportedKept(pre: string, c: string, post: string)
    requires c in Codes
    requires forall i :: 0 <= i < |pre| ==> IsJsSpace(pre[i])
    requires forall i :: 0 <= i < |post| ==> IsJsSpace(post[i])
    ensures NormLang(pre + c + post) == c
  {
    CodesLowerAscii(c);
    TrimPadded(pre, c, post, IsJsSpace);
    LowerFixed(c);
  }

  /** A normalised code is its own normal form. */
  lemma {:induction false} NormLangIdempotent(v: string)
    ensures NormLang(NormLang(v)) == NormLang(v)
  {
    var r := NormLang(v);
    SupportedKept("", r, "");
    assert "" + r + "" == r;
  }

  /** Only Portuguese and Brazilian Portuguese give Portuguese. */
  lemma {:induction false} PortugueseIff(v: string)
    ensures NormLang(v) == "pt" <==> (Lower(JsTrim(v)) == "pt" || Lower(JsTrim(v)) == "pt-br")
  {
  }

  /** `Vars`: the values to fill in, or `None` when the caller passes none. */
  type Vars = Option<map<string, string>>

  /** `fmt(s, vars)`: the text as it is without values, every `{k}` filled in otherwise. */
  function Fmt(s: string, vars: Vars): (r: string)
    ensures vars.None? ==> r == s
  {
    match vars
    case None => s
    case Some(m) => Interpolate(s, m)
  }

  /** With an empty table every placeholder stays as it is, as with no table at all. */
  lemma {:induction false} FmtEmptyVars(s: string)
    ensures Fmt(s, Some(map[])) == Fmt(s, None)
  {
    NoVars(s);
  }

  /**
   * A placeholder with a value is replaced by it and one without a value is
   * kept as `{k}`; the rest of the text is substituted after it.
   */
  lemma {:induction false} FmtPlaceholder(k: string, b: string, m: map<string, string>)
    requires |k| > 0 && forall c :: c in k ==> IsJsWord(c)
    ensures k in m ==> Fmt("{" + k + "}" + b, Some(m)) == m[k] + Fmt(b, Some(m))
    ensures k !in m ==> Fmt("{" + k + "}" + b, Some(m)) == "{" + k + "}" + Fmt(b, Some(m))
  {
    Front(k, b, m);
  }

  /** The key that is looked up for `key`: two keys are read under another name. */
  function Alias(key: string): (r: string)
    ensures r != key <==> (key == "active" || key == "plan")
    ensures r != key ==> r == key + "_lower"
  {
    if key == "active" then "active_lower"
    else if key == "plan" then "plan_lower"
    else key
  }

  /**
   * `getStr`: the aliased key's text for the language, else for English,
   * else the aliased key itself, with the values filled in.
   */
  function GetStr(dict: Dict, lang: string, key: string, vars: Vars): (r: string)
    ensures Entry(dict, lang, Alias(key)).Some? ==> r == Fmt(Entry(dict, lang, Alias(key)).value, vars)
  {
    var a := Alias(key);
    var s :=
      match Entry(dict, lang, a)
      case Some(t) => t
      case None =>
        match Entry(dict, English, a)
        case Some(t) => t
        case None => a;
    Fmt(s, vars)
  }

  /** A key the language lacks reads as it does in English. */
  lemma {:induction false} EnglishFallback(dict: Dict, lang: string, key: string, vars: Vars)
    requires Entry(dict, lang, Alias(key)).None?
    ensures GetStr(dict, lang, key, vars) == GetStr(dict, English, key, vars)
  {
  }

  /**
   * A key missing from both the language and English reads as its alias
   * (not as the key that was asked for) when it holds no placeholder.
   */
  lemma {:induction false} MissingReadsAlias(dict: Dict, lang: string, key: string, vars: Vars)
    requires Entry(dict, lang, Alias(key)).None? && Entry(dict, English, Alias(key)).None?
    requires '{' !in key
    ensures GetStr(dict, lang, key, vars) == Alias(key)
  {
    var a := Alias(key);
    assert '{' !in a by {
      if a != key {
        assert a == key + "_lower";
        assert '{' !in "_lower";
      }
    }
  }

  /** `active` and `plan` read exactly as their lower-case aliases do. */
  lemma {:induction false} AliasesAgree(dict: Dict, lang: string, vars: Vars)
    ensures GetStr(dict, lang, "active", vars) == GetStr(dict, lang, "active_lower", vars)
    ensures GetStr(dict, lang, "plan", vars) == GetStr(dict, lang, "plan_lower", vars)
  {
    assert Alias("active_lower") == "active_lower";
    assert Alias("plan_lower") == "plan_lower";
  }
}
