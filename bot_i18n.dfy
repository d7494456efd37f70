// The bot's translation helpers: the languages it offers, which language a
// Telegram client's code stands for, the keyboard the user picks a language
// from, and `t`, the lookup of a key in the extra table and the dictionaries.

module BotI18n {
  import opened Wrappers
  import opened Strings
  import opened Templates

  /** The language every lookup falls back to (`DEFAULT_LANG`). */
  const English: string := "en"

  /** One entry of `LANGS`: its code, its name in itself and its flag. */
  datatype Language = Language(code: string, name: string, flag: string)

  /** `LANGS`, in the order the keyboard shows them. */
  const Langs: seq<Language> := [
    Language("pl", "Polski", "\U{1F1F5}\U{1F1F1}"),
    Language("en", "English", "\U{1F1EC}\U{1F1E7}"),
    Language("de", "Deutsch", "\U{1F1E9}\U{1F1EA}"),
    Language("fr", "Français", "\U{1F1EB}\U{1F1F7}"),
    Language("es", "Español", "\U{1F1EA}\U{1F1F8}"),
    Language("it", "Italiano", "\U{1F1EE}\U{1F1F9}"),
    Language("pt", "Português", "\U{1F1F5}\U{1F1F9}"),
    Language("ro", "Română", "\U{1F1F7}\U{1F1F4}"),
    Language("nl", "Nederlands", "\U{1F1F3}\U{1F1F1}"),
    Language("cs", "Čeština", "\U{1F1E8}\U{1F1FF}"),
    Language("sk", "Slovenčina", "\U{1F1F8}\U{1F1F0}")
  ]

  /** The codes of `Langs`, in the same order. */
  const Codes: seq<string> := ["pl", "en", "de", "fr", "es", "it", "pt", "ro", "nl", "cs", "sk"]

  lemma {:induction false} CodesOfLangs()
    ensures |Codes| == |Langs| && forall i :: 0 <= i < |Langs| ==> Langs[i].code == Codes[i]
  {
  }

  /** `isSupportedLang`: some entry of `LANGS` has the code. */
  predicate IsSupportedLang(code: string)
  {
    code in Codes
  }

  /** Every supported code is two lower-case ASCII letters. */
  lemma {:induction false} CodesLowerAscii(c: string)
    requires c in Codes
    ensures IsLetterPair(c)
  {
  }

  // ---------------------------------------------------------- normalizeLang

  /** The code as `normalizeLang` reads it: lower-cased, its first `_` made a `-`, trimmed. */
  function RawCode(code: string): string
  {
    JsTrim(ReplaceFirst(Lower(code), "_", "-"))
  }

  /**
   * The base whose `xx-` region prefix the code starts with, for the bases
   * listed. Every base is two letters, so at most one matches and the order
   * of the `startsWith` tests does not matter.
   */
  function RegionBase(raw: string, bases: seq<string>): (r: Option<string>)
    ensures r.Some? ==> r.value in bases && StartsWith(raw, r.value + "-")
  {
    if |raw| >= 3 && raw[2] == '-' && raw[..2] in bases then
      assert raw[..3] == raw[..2] + "-";
      Some(raw[..2])
    else None
  }

  /** The normalisation, for a given list of bases that take a region suffix. */
  function NormalizeWith(code: string, bases: seq<string>): (r: string)
    requires forall b :: b in bases ==> b in Codes
    ensures r in Codes
    ensures RawCode(code) in Codes ==> r == RawCode(code)
  {
    var raw := RawCode(code);
    if raw == "" then English
    else match RegionBase(raw, bases)
      case Some(b) => b
      case None =>
        if raw == "pl" then "pl"
        else if IsSupportedLang(raw) then raw
        else English
  }

  /** The bases `normalizeLang` tests for a region suffix: every language but Polish. */
  const RegionalBases: seq<string> := ["pt", "en", "de", "fr", "es", "it", "ro", "nl", "cs", "sk"]

  /** `normalizeLang` as written. */
  function NormalizeLangAsWritten(code: string): (r: string)
    ensures r in Codes
    ensures RawCode(code) in Codes ==> r == RawCode(code)
  {
    NormalizeWith(code, RegionalBases)
  }

  /** As written, a Polish client with a region (`pl-PL`) is answered in English. */
  lemma {:induction false} PolishRegionLost()
    ensures NormalizeLangAsWritten("pl-PL") == English
  {
    var low := Lower("pl-PL");
    assert low[0] == 'p' && low[1] == 'l' && low[2] == '-' && low[3] == 'p' && low[4] == 'l';
    assert low == "pl-pl";
    ReplaceFirstAbsent(low, '_', "-");
    TrimNoop(low, IsJsSpace);
    var raw := RawCode("pl-PL");
    assert raw == "pl-pl";
    assert raw[..2] !in RegionalBases;
    assert |raw| != 2;
  }

  /** `normalizeLang` as evidently intended: a region suffix is dropped for every language, Polish included. */
  function NormalizeLang(code: string): (r: string)
    ensures r in Codes
    ensures RawCode(code) in Codes ==> r == RawCode(code)
  {
    NormalizeWith(code, Codes)
  }

  /** Two lower-case ASCII letters, as every supported code is. */
  predicate IsLetterPair(c: string)
  {
    |c| == 2 && 'a' <= c[0] <= 'z' && 'a' <= c[1] <= 'z'
  }

  /** A code of two lower-case letters reads as itself. */
  lemma {:induction false} RawOfPair(c: string)
    requires IsLetterPair(c)
    ensures RawCode(c) == c
  {
    LowerFixed(c);
    ReplaceFirstAbsent(c, '_', "-");
    TrimNoop(c, IsJsSpace);
  }

  /** Lower-casing a letter pair, a separator and a region lower-cases the region only. */
  lemma {:induction false} LowerRegion(c: string, sep: string, region: string)
    requires IsLetterPair(c) && (sep == "-" || sep == "_")
    ensures Lower(c + sep + region) == c + sep + Lower(region)
  {
    LowerFixed(c);
    LowerFixed(sep);
    LowerConcat(c + sep, region);
    LowerConcat(c, sep);
  }

  /** The first `_` is replaced by `-`: after a letter pair and either separator the text is the pair, `-` and the rest. */
  lemma {:induction false} ReplaceSeparator(c: string, sep: string, rest: string)
    requires IsLetterPair(c) && (sep == "-" || sep == "_")
    ensures ReplaceFirst(c + sep + rest, "_", "-") == c + "-" + ReplaceFirst(rest, "_", "-") ||
      ReplaceFirst(c + sep + rest, "_", "-") == c + "-" + rest
  {
    if sep == "_" {
      forall q | 0 <= q < |c|
        ensures !OccursAt(c + sep + rest, "_", q)
      {
        assert (c + sep + rest)[q..q + 1][0] == c[q];
      }
      ReplaceFirstAt(c, "_", rest, "-");
    } else {
      assert '_' !in c + "-";
      ReplaceFirstBehind(c + "-", rest, '_', "-");
    }
  }

  /** Trimming a text that starts with a letter pair and `-` keeps that start. */
  lemma {:induction false} TrimKeepsStart(c: string, tail: string)
    requires IsLetterPair(c)
    ensures StartsWith(JsTrim(c + "-" + tail), c + "-")
  {
    var p := c + "-";
    assert !IsJsSpace(p[0]) && !IsJsSpace(p[|p| - 1]);
    assert TrimStart(p + tail, IsJsSpace) == p + tail;
    TrimEndBehind(p, tail, IsJsSpace);
  }

  /**
   * The raw code of a letter pair followed by `-` or `_` and a region
   * starts with the pair and a `-`.
   */
  lemma {:induction false} RegionRaw(c: string, sep: string, region: string)
    requires IsLetterPair(c) && (sep == "-" || sep == "_")
    ensures StartsWith(RawCode(c + sep + region), c + "-")
  {
    var lr := Lower(region);
    LowerRegion(c, sep, region);
    ReplaceSeparator(c, sep, lr);
    var replaced := ReplaceFirst(c + sep + lr, "_", "-");
    var tail := replaced[3..];
    assert replaced == c + "-" + tail;
    TrimKeepsStart(c, tail);
  }

  /** A raw code that starts with one of the bases and `-` has that base. */
  lemma {:induction false} RegionBaseAt(raw: string, bases: seq<string>, c: string)
    requires |c| == 2 && c in bases && StartsWith(raw, c + "-")
    ensures RegionBase(raw, bases) == Some(c)
  {
    assert raw[..3] == c + "-";
    assert raw[..2] == raw[..3][..2] == c;
    assert raw[2] == raw[..3][2] == '-';
  }

  /** A raw code that starts with one of the bases and `-` normalises to that base. */
  lemma {:induction false} RegionWins(code: string, bases: seq<string>, c: string)
    requires forall b :: b in bases ==> b in Codes
    requires |c| == 2 && c in bases && StartsWith(RawCode(code), c + "-")
    ensures NormalizeWith(code, bases) == c
  {
    RegionBaseAt(RawCode(code), bases, c);
  }

  /** A supported code with a region suffix stands for the code: `pl-PL`, `de_AT` and `pt-br` give `pl`, `de` and `pt`. */
  lemma {:induction false} RegionDropped(c: string, sep: string, region: string)
    requires c in Codes && (sep == "-" || sep == "_")
    ensures NormalizeLang(c + sep + region) == c
  {
    CodesLowerAscii(c);
    RegionRaw(c, sep, region);
    RegionWins(c + sep + region, Codes, c);
  }

  /** As written, the same holds for every language but Polish. */
  lemma {:induction false} RegionDroppedAsWritten(c: string, sep: string, region: string)
    requires c in RegionalBases && (sep == "-" || sep == "_")
    ensures NormalizeLangAsWritten(c + sep + region) == c
  {
    CodesLowerAscii(c);
    RegionRaw(c, sep, region);
    RegionWins(c + sep + region, RegionalBases, c);
  }

  /** The two agree on every code but the Polish ones with a region. */
  lemma {:induction false} AsWrittenAgrees(code: string)
    requires !StartsWith(RawCode(code), "pl-")
    ensures NormalizeLangAsWritten(code) == NormalizeLang(code)
  {
    var raw := RawCode(code);
    assert |raw| >= 3 ==> raw[..3] == raw[..2] + [raw[2]];
  }

  /** An empty or blank code, and a short code no language has, are English. */
  lemma {:induction false} UnsupportedEnglish(code: string)
    requires RawCode(code) == "" || (|RawCode(code)| < 3 && !IsSupportedLang(RawCode(code)))
    ensures NormalizeLang(code) == English
  {
  }

  /** A normalised code is its own normal form. */
  lemma {:induction false} NormalizeIdempotent(code: string)
    ensures NormalizeLang(NormalizeLang(code)) == NormalizeLang(code)
  {
    var r := NormalizeLang(code);
    CodesLowerAscii(r);
    RawOfPair(r);
  }

  // ---------------------------------------------------------- keyboard

  /** An inline keyboard button: its label and the data sent back when it is pressed. */
  datatype Button = Button(text: string, callbackData: string)

  /** The button for one language: its name and flag, and `lang:` with its code. */
  function LangButton(l: Language): (b: Button)
    ensures b.text == l.name + " " + l.flag && b.callbackData == "lang:" + l.code
  {
    Button(l.name + " " + l.flag, "lang:" + l.code)
  }

  /** One button per language, in the order of `LANGS`. */
  function LangButtons(ls: seq<Language>): (r: seq<Button>)
    ensures |r| == |ls| && forall i :: 0 <= i < |ls| ==> r[i] == LangButton(ls[i])
  {
    seq(|ls|, i requires 0 <= i < |ls| => LangButton(ls[i]))
  }

  function Min(a: int, b: int): int { if a <= b then a else b }

  /** The buttons cut into rows of two, the last row holding one when their number is odd. */
  function Pairs<T>(b: seq<T>): seq<seq<T>>
    decreases |b|
  {
    if |b| == 0 then [] else [b[..Min(2, |b|)]] + Pairs(b[Min(2, |b|)..])
  }

  /** The rows laid end to end. */
  function Flatten<T>(rows: seq<seq<T>>): seq<T>
    decreases |rows|
  {
    if |rows| == 0 then [] else rows[0] + Flatten(rows[1..])
  }

  /** `buildLanguageKeyboard`: the rows of the language keyboard. */
  method BuildLanguageKeyboard() returns (rows: seq<seq<Button>>)
    ensures rows == Pairs(LangButtons(Langs))
  {
    var buttons := LangButtons(Langs);
    var n := |buttons|;
    rows := [];
    var i := 0;
    while i < n
      invariant 0 <= i <= n + 1 && i % 2 == 0
      invariant rows + Pairs(buttons[Min(i, n)..]) == Pairs(buttons)
      decreases n - i
    {
      var e := Min(i + 2, n);
      var rest := buttons[i..];
      assert rest[..Min(2, |rest|)] == buttons[i..e];
      assert rest[Min(2, |rest|)..] == buttons[e..];
      assert Pairs(rest) == [buttons[i..e]] + Pairs(buttons[e..]);
      rows := rows + [buttons[i..e]];
      i := i + 2;
      assert Min(i, n) == e;
    }
    assert buttons[Min(i, n)..] == [];
  }

  /** Each row `k` holds the buttons `2k` and `2k + 1`, the last row what remains. */
  lemma {:induction false} PairsAt<T>(b: seq<T>, k: nat)
    requires k < |Pairs(b)|
    ensures 2 * k < |b| && Pairs(b)[k] == b[2 * k..Min(2 * k + 2, |b|)]
    decreases k
  {
    var m := Min(2, |b|);
    if k > 0 {
      PairsAt(b[m..], k - 1);
      assert b[m..][2 * (k - 1)..Min(2 * (k - 1) + 2, |b[m..]|)] == b[2 * k..Min(2 * k + 2, |b|)];
    }
  }

  /** There are half as many rows as buttons, rounded up. */
  lemma {:induction false} PairsCount<T>(b: seq<T>)
    ensures |Pairs(b)| == (|b| + 1) / 2
    decreases |b|
  {
    if |b| > 0 {
      PairsCount(b[Min(2, |b|)..]);
    }
  }

  /** Laid end to end, the rows give back the buttons: none lost, none added, none moved. */
  lemma {:induction false} PairsFlatten<T>(b: seq<T>)
    ensures Flatten(Pairs(b)) == b
    decreases |b|
  {
    if |b| > 0 {
      var m := Min(2, |b|);
      PairsFlatten(b[m..]);
      assert ([b[..m]] + Pairs(b[m..]))[1..] == Pairs(b[m..]);
      assert b[..m] + b[m..] == b;
    }
  }

  /**
   * The language keyboard has six rows: five pairs and Slovak on its own,
   * and its buttons, read row by row, name every language of `LANGS` once
   * and in order, each calling back with its own code.
   */
  lemma {:induction false} KeyboardShape()
    ensures |Pairs(LangButtons(Langs))| == 6
    ensures Pairs(LangButtons(Langs))[5] == [LangButton(Language("sk", "Slovenčina", "\U{1F1F8}\U{1F1F0}"))]
    ensures Flatten(Pairs(LangButtons(Langs))) == LangButtons(Langs)
    ensures forall i :: 0 <= i < |Langs| ==> LangButtons(Langs)[i].callbackData == "lang:" + Codes[i]
  {
    var b := LangButtons(Langs);
    PairsCount(b);
    PairsAt(b, 5);
    assert b[10..11] == [b[10]];
    PairsFlatten(b);
    CodesOfLangs();
  }

  // ---------------------------------------------------------- t

  /**
   * The language the extra table is read for: the trimmed, lower-cased code
   * cut at its first `-`, English when that is empty. It is not normalised.
   */
  function ExtraLang(lang: string): (r: string)
    ensures r != ""
  {
    var raw := Lower(JsTrim(lang));
    var base := if '-' in raw then Split(raw, "-")[0] else raw;
    if base == "" then English else base
  }

  /** The extra table for the language, else the English one, if the extra tables have either. */
  function ExtraTable(extra: Dict, lang: string): Option<map<string, string>>
  {
    var l := ExtraLang(lang);
    if l in extra then Some(extra[l])
    else if English in extra then Some(extra[English])
    else None
  }

  /**
   * The dictionary text: the normalised language's, else English's, else the
   * key. `t` normalises with `normalizeLang` as written, so a Polish regional
   * code reads the English dictionary.
   */
  function DictText(dicts: Dict, lang: string, key: string): string
  {
    var l := NormalizeLangAsWritten(lang);
    var dl := if l in dicts then l else English;
    match Entry(dicts, dl, key)
    case Some(s) => s
    case None =>
      match Entry(dicts, English, key)
      case Some(s) => s
      case None => key
  }

  /**
   * `t(lang, key, vars)`: the extra table's text when it holds the key, the
   * dictionary text otherwise, with the values filled in. `vars` holds the
   * defined values only; `{}`, the default, is the empty map.
   */
  function T(extra: Dict, dicts: Dict, lang: string, key: string, vars: map<string, string>): (r: string)
    ensures vars == map[] && ExtraTable(extra, lang).Some? && key in ExtraTable(extra, lang).value ==>
              r == ExtraTable(extra, lang).value[key]
    ensures vars == map[] && (ExtraTable(extra, lang).None? || key !in ExtraTable(extra, lang).value) ==>
              r == DictText(dicts, lang, key)
  {
    var ex := ExtraTable(extra, lang);
    var s := if ex.Some? && key in ex.value then ex.value[key] else DictText(dicts, lang, key);
    if vars == map[] then NoVars(s); Interpolate(s, vars)
    else Interpolate(s, vars)
  }

  /** A key the extra table holds is read from it: the dictionaries are not consulted. */
  lemma {:induction false} ExtraFirst(extra: Dict, dicts: Dict, other: Dict, lang: string, key: string, vars: map<string, string>)
    requires ExtraTable(extra, lang).Some? && key in ExtraTable(extra, lang).value
    ensures T(extra, dicts, lang, key, vars) == T(extra, other, lang, key, vars) == Interpolate(ExtraTable(extra, lang).value[key], vars)
  {
  }

  /**
   * With no extra text for the key, a language whose dictionary lacks the
   * key (or that has no dictionary) reads as English does.
   */
  lemma {:induction false} DictEnglishFallback(dicts: Dict, lang: string, key: string, vars: map<string, string>)
    requires Entry(dicts, NormalizeLangAsWritten(lang), key).None?
    ensures T(map[], dicts, lang, key, vars) == T(map[], dicts, English, key, vars)
  {
    DictTextFallback(dicts, lang, key);
  }

  lemma {:induction false} DictTextFallback(dicts: Dict, lang: string, key: string)
    requires Entry(dicts, NormalizeLangAsWritten(lang), key).None?
    ensures DictText(dicts, lang, key) == DictText(dicts, English, key)
  {
    RawOfPair(English);
    assert NormalizeLangAsWritten(English) == English;
  }

  /**
   * The finding reaches `t`: with `pl-PL`, a text the Polish dictionary holds
   * is not read, and the English one is returned instead.
   */
  lemma {:induction false} PolishRegionReadsEnglish(dicts: Dict, key: string, vars: map<string, string>)
    requires English in dicts && key in dicts[English]
    ensures T(map[], dicts, "pl-PL", key, vars) == Interpolate(dicts[English][key], vars)
  {
    PolishRegionLost();
  }

  /** A key in no table reads as itself when it holds no placeholder. */
  lemma {:induction false} MissingKey(extra: Dict, dicts: Dict, lang: string, key: string, vars: map<string, string>)
    requires ExtraTable(extra, lang).None? || key !in ExtraTable(extra, lang).value
    requires forall l :: l in dicts ==> key !in dicts[l]
    requires '{' !in key
    ensures T(extra, dicts, lang, key, vars) == key
  {
  }
}
