// The bot's unified translation table: dotted-path lookup, the lookup with
// English fallback, and the choice of a user's language.

module UnifiedI18n {
  import opened Wrappers
  import opened Strings
  import opened Json
  import opened Templates

  // ---------------------------------------------------------- getByPath

  /**
   * The value at the end of `parts`, or `null` as soon as the current value
   * is not an object or array or lacks the next segment.
   */
  function Lookup(v: Value, parts: seq<string>): Value
    decreases |parts|
  {
    if |parts| == 0 then v
    else if !(Truthy(v) && IsObjectLike(v)) then Null
    else
      match Member(v, parts[0])
      case None => Null
      case Some(w) => Lookup(w, parts[1..])
  }

  /** `getByPath(obj, path)`: walks the `.`-separated segments of `path` one at a time. */
  method GetByPath(obj: Value, path: string) returns (r: Value)
    ensures r == Lookup(obj, Split(path, "."))
  {
    var parts := Split(path, ".");
    var cur := obj;
    for i := 0 to |parts|
      invariant Lookup(obj, parts) == Lookup(cur, parts[i..])
    {
      assert parts[i..][1..] == parts[i + 1..];
      if !Truthy(cur) || !IsObjectLike(cur) {
        return Null;
      }
      match Member(cur, parts[i]) {
        case None =>
          return Null;
        case Some(w) =>
          cur := w;
      }
    }
    assert parts[|parts|..] == [];
    return cur;
  }

  /** Walking a path in two parts is walking the first part, then the second from where it ended. */
  lemma {:induction false} LookupConcat(v: Value, p: seq<string>, q: seq<string>)
    ensures Lookup(v, p + q) == Lookup(Lookup(v, p), q)
    decreases |p|
  {
    if |p| == 0 {
      assert p + q == q;
    } else {
      assert (p + q)[0] == p[0];
      assert (p + q)[1..] == p[1..] + q;
      if Truthy(v) && IsObjectLike(v) {
        match Member(v, p[0])
        case None => NullLookup(q);
        case Some(w) => LookupConcat(w, p[1..], q);
      } else {
        NullLookup(q);
      }
    }
  }

  /** Nothing is found below `null`. */
  lemma {:induction false} NullLookup(q: seq<string>)
    ensures Lookup(Null, q) == Null
  {
  }

  /** The lookup gives `null` as soon as one segment is missing, whatever follows it. */
  lemma {:induction false} MissingSegment(v: Value, parts: seq<string>, k: nat)
    requires k < |parts|
    requires Member(Lookup(v, parts[..k]), parts[k]).None?
    ensures Lookup(v, parts) == Null
  {
    assert parts == parts[..k] + parts[k..];
    LookupConcat(v, parts[..k], parts[k..]);
    assert parts[k..][0] == parts[k];
  }

  // ---------------------------------------------------------- t

  const English: string := "en"

  /** `dict ? getByPath(dict, key) : null` for `dict = TRANSLATIONS[lang]`. */
  function DictLookup(table: seq<Field>, lang: string, key: string): Value
  {
    match FieldValue(table, lang)
    case None => Null
    case Some(dict) => if Truthy(dict) then Lookup(dict, Split(key, ".")) else Null
  }

  /**
   * The text for `key` in `lang`: the requested language's entry, else the
   * English one, else the key itself. `vars` holds the defined, non-null
   * values, already turned into text.
   */
  function T(table: seq<Field>, lang: string, key: string, vars: map<string, string>): (r: string)
    ensures DictLookup(table, lang, key) == Null && DictLookup(table, English, key) == Null ==> r == key
    ensures vars == map[] && DictLookup(table, lang, key) != Null ==> r == ToText(DictLookup(table, lang, key))
  {
    var val := DictLookup(table, lang, key);
    if val != Null then
      if vars == map[] then NoVars(ToText(val)); Interpolate(ToText(val), vars)
      else Interpolate(ToText(val), vars)
    else
      var en := DictLookup(table, English, key);
      if en == Null then key else Interpolate(ToText(en), vars)
  }

  /** Looking up in a language's dictionary is walking the path that starts with the language. */
  lemma {:induction false} DictLookupPath(table: seq<Field>, lang: string, key: string)
    ensures DictLookup(table, lang, key) == Lookup(Obj(table), [lang] + Split(key, "."))
  {
    var parts := Split(key, ".");
    assert ([lang] + parts)[0] == lang;
    assert ([lang] + parts)[1..] == parts;
  }

  /**
   * `t` falls back from the requested language to English, and to the key
   * itself when the dotted path is found in neither.
   */
  lemma {:induction false} TFallback(table: seq<Field>, lang: string, key: string, vars: map<string, string>)
    ensures Lookup(Obj(table), [lang] + Split(key, ".")) != Null ==>
      T(table, lang, key, vars) == Interpolate(ToText(Lookup(Obj(table), [lang] + Split(key, "."))), vars)
    ensures (Lookup(Obj(table), [lang] + Split(key, ".")) == Null &&
             Lookup(Obj(table), [English] + Split(key, ".")) != Null) ==>
      T(table, lang, key, vars) == Interpolate(ToText(Lookup(Obj(table), [English] + Split(key, "."))), vars)
    ensures (Lookup(Obj(table), [lang] + Split(key, ".")) == Null &&
             Lookup(Obj(table), [English] + Split(key, ".")) == Null) ==>
      T(table, lang, key, vars) == key
  {
    DictLookupPath(table, lang, key);
    DictLookupPath(table, English, key);
  }

  /**
   * An entry found as text without placeholders is returned as it is,
   * whatever the values.
   */
  lemma {:induction false} TPlainEntry(table: seq<Field>, lang: string, key: string, vars: map<string, string>, s: string)
    requires Lookup(Obj(table), [lang] + Split(key, ".")) == Str(s)
    requires '{' !in s
    ensures T(table, lang, key, vars) == s
  {
    TFallback(table, lang, key, vars);
  }

  // ---------------------------------------------------------- languages

  const Supported: seq<string> := ["pl", "de", "fr", "it", "es", "pt", "cs", "sk", "ro", "nl"]

  /**
   * `normalizeLangCode`: lower-cased, cut at the first `-`, and English for
   * an empty or unsupported code.
   */
  function NormalizeLangCode(code: string): (r: string)
    ensures r == English || r in Supported
  {
    if code == "" then English
    else
      var lc := Split(Lower(code), "-")[0];
      if lc in Supported then lc else English
  }

  /** A region suffix is ignored: `pl-PL` and `pl` normalise alike. */
  lemma {:induction false} RegionIgnored(code: string, region: string)
    requires code != "" && '-' !in code
    ensures NormalizeLangCode(code + "-" + region) == NormalizeLangCode(code)
  {
    LowerConcat(code + "-", region);
    LowerConcat(code, "-");
    assert Lower("-") == "-";
    LowerKeepsAbsent(code, '-');
    SplitFirstAt(Lower(code), '-', Lower(region));
    SplitNone(Lower(code), '-');
  }

  /** Upper and lower case normalise alike. */
  lemma {:induction false} CaseIgnored(code: string)
    ensures NormalizeLangCode(Lower(code)) == NormalizeLangCode(code)
  {
    LowerIdempotent(code);
  }

  /** A code of lower-case letters is kept when supported and is English otherwise. */
  lemma {:induction false} NormalizePlain(code: string)
    requires code != "" && forall i :: 0 <= i < |code| ==> 'a' <= code[i] <= 'z'
    ensures NormalizeLangCode(code) == if code in Supported then code else English
  {
    LowerFixed(code);
    SplitNone(code, '-');
  }

  /** A normalised code is its own normal form. */
  lemma {:induction false} NormalizeIdempotent(code: string)
    ensures NormalizeLangCode(NormalizeLangCode(code)) == NormalizeLangCode(code)
  {
    var r := NormalizeLangCode(code);
    assert forall i :: 0 <= i < |r| ==> 'a' <= r[i] <= 'z';
    NormalizePlain(r);
  }

  /**
   * The language fields of a stored user; the empty text stands for a
   * missing, `null` or empty field.
   */
  datatype User = User(language: string, lang: string, languageCode: string)

  /** `getUserLang`: the explicit choice (`language`, then `lang`), else the client's hint, else English. */
  function GetUserLang(user: Option<User>): (r: string)
    ensures r == English || r in Supported
  {
    match user
    case None => English
    case Some(u) =>
      var explicit := if u.language != "" then u.language else u.lang;
      if explicit != "" then NormalizeLangCode(explicit)
      else if u.languageCode != "" then NormalizeLangCode(u.languageCode)
      else English
  }

  /** An explicit choice wins: the client's hint is then ignored, and `language` beats `lang`. */
  lemma {:induction false} ExplicitWins(u: User, lang: string, hint: string)
    ensures u.language != "" ==>
      GetUserLang(Some(u)) == GetUserLang(Some(User(u.language, lang, hint))) == NormalizeLangCode(u.language)
    ensures u.language == "" && u.lang != "" ==>
      GetUserLang(Some(u)) == GetUserLang(Some(User("", u.lang, hint))) == NormalizeLangCode(u.lang)
  {
  }

  /** Without an explicit choice the hint decides, an absent hint meaning English. */
  lemma {:induction false} HintDecides(u: User)
    requires u.language == "" && u.lang == ""
    ensures GetUserLang(Some(u)) == NormalizeLangCode(u.languageCode)
  {
  }

  /** Every supported code is two letters long. */
  lemma {:induction false} SupportedPairs()
    ensures forall c :: c in Supported ==> |c| == 2
  {
  }

  /** The language persistence regression cases where an explicit choice is stored. */
  lemma {:induction false} PersistenceExplicitCases()
    ensures GetUserLang(Some(User("fr", "", "en"))) == "fr"
    ensures GetUserLang(Some(User("de", "", "pl"))) == "de"
    ensures GetUserLang(Some(User("", "it", "en"))) == "it"
    ensures GetUserLang(Some(User("de", "pl", "en"))) == "de"
  {
    NormalizePlain("fr");
    NormalizePlain("de");
    NormalizePlain("it");
  }

  /** The regression case of an unsupported stored choice. */
  lemma {:induction false} PersistenceInvalidCase()
    ensures GetUserLang(Some(User("xyz", "", ""))) == "en"
  {
    assert "xyz"[0] == 'x' && "xyz"[1] == 'y' && "xyz"[2] == 'z';
    NormalizePlain("xyz");
    SupportedPairs();
  }

  /** The language persistence regression cases without an explicit choice. */
  lemma {:induction false} PersistenceHintCases()
    ensures GetUserLang(Some(User("", "", "es"))) == "es"
    ensures GetUserLang(Some(User("", "", ""))) == "en"
  {
    assert "es"[0] == 'e' && "es"[1] == 's';
    NormalizePlain("es");
  }
}
