/**
 * The token-preserving translator of api/scripts/i18n_translate.py:
 * `translate_text` rewrites the words of a value term by term while
 * protecting `{placeholders}` and bare `/commands`, and
 * `generate_translation` applies it to every `key: "value"` line of a block.
 */
module Translator {
  import opened Wrappers
  import opened Strings

  /** A language's replacement table: `(english term, translated term)` pairs in dictionary order. */
  type Table = seq<(string, string)>

  /** Every term is nonempty (each one is a word pattern `\bterm\b`). */
  predicate ValidTable(t: Table)
  {
    forall k :: 0 <= k < |t| ==> |t[k].0| > 0
  }

  predicate ValidTables(ts: map<string, Table>)
  {
    forall l :: l in ts ==> ValidTable(ts[l])
  }

  // ------------------------------------------------------------------ commands

  /** `re.match(r'^/[a-z_]+$', t)`. */
  predicate IsCommand(t: string)
  {
    |t| >= 2 && t[0] == '/' && forall i :: 1 <= i < |t| ==> ('a' <= t[i] <= 'z' || t[i] == '_')
  }

  // ------------------------------------------------------------------ placeholders

  /**
   * Where `\{[^}]+\}` matches at `i`: a `{`, at least one character, and the
   * first `}` after it. The result is the index just past that `}`.
   */
  function PlaceholderEnd(s: string, i: nat): (r: Option<nat>)
    ensures r.Some? ==> i + 3 <= r.value <= |s|
  {
    if i < |s| && s[i] == '{' then
      match IndexOfFrom(s, "}", i + 1)
      case Some(j) => if j > i + 1 then Some(j + 1) else None
      case None => None
    else None
  }

  /**
   * The scan `re.findall(r'\{[^}]+\}', s)` performs from index `i`, returning the
   * text between matches (`gaps`, the first one starting at `g`) and the matches
   * themselves (`placeholders`), so that gaps and placeholders alternate.
   */
  function Segments(s: string, i: nat, g: nat): (r: (seq<string>, seq<string>))
    requires g <= i <= |s|
    ensures |r.0| == |r.1| + 1
    decreases |s| - i
  {
    if i == |s| then ([s[g..]], [])
    else match PlaceholderEnd(s, i)
      case Some(e) =>
        var rest := Segments(s, e, e);
        ([s[g..i]] + rest.0, [s[i..e]] + rest.1)
      case None => Segments(s, i + 1, g)
  }

  /** `re.findall(r'\{[^}]+\}', s)`. */
  function Placeholders(s: string): seq<string> { Segments(s, 0, 0).1 }

  /** The text between the placeholders of `s`. */
  function Gaps(s: string): seq<string> { Segments(s, 0, 0).0 }

  /** `g[0] + f[0] + g[1] + ... + f[n-1] + g[n]`. */
  function Interleave(g: seq<string>, f: seq<string>): string
    requires |g| == |f| + 1
  {
    if |f| == 0 then g[0] else g[0] + f[0] + Interleave(g[1..], f[1..])
  }

  /** A placeholder as findall returns it: `{`, one or more non-`}` characters, `}`. */
  predicate Braced(p: string)
  {
    |p| >= 3 && p[0] == '{' && p[|p| - 1] == '}' && p[1] != '}'
    && forall k :: 0 < k < |p| - 1 ==> p[k] != '}'
  }

  /** Every `{` is immediately followed by a `}` (so no placeholder can start here). */
  ghost predicate BraceSafe(x: string)
  {
    forall q :: 0 <= q < |x| && x[q] == '{' ==> q + 1 < |x| && x[q + 1] == '}'
  }

  /** The sentinel `__PH{i}__` that stands for the i-th placeholder while terms are replaced. */
  function Sentinel(i: nat): (r: string)
    ensures |r| >= 7 && r[..4] == "__PH" && r[|r| - 2..] == "__"
  {
    "__PH" + NatToString(i) + "__"
  }

  function Sentinels(n: nat): (r: seq<string>)
    ensures |r| == n && forall i :: 0 <= i < n ==> r[i] == Sentinel(i)
  {
    seq(n, i requires 0 <= i => Sentinel(i))
  }

  const Marker: string := "__PH"

  /** The text holds no `__PH`, so no sentinel can be confused with its own text. */
  ghost predicate NoMarker(x: string)
  {
    forall q :: !OccursAt(x, Marker, q)
  }

  // ------------------------------------------------------------------ word substitution

  /** Python's `\w` on `str`: letters, digits and `_` (letters beyond ASCII: Latin-1 and Latin Extended-A/B). */
  predicate IsPyWord(c: char)
  {
    IsAsciiLetter(c) || IsAsciiDigit(c) || c == '_' || ('\U{C0}' <= c <= '\U{24F}' && c != '\U{D7}' && c != '\U{F7}')
  }

  predicate WordAt(s: string, p: int)
  {
    0 <= p < |s| && IsPyWord(s[p])
  }

  /** `\b` at position `p`. */
  predicate Boundary(s: string, p: int)
  {
    WordAt(s, p - 1) != WordAt(s, p)
  }

  /** Case-insensitive equality (`re.IGNORECASE`). */
  predicate FoldEq(a: string, b: string)
  {
    |a| == |b| && forall k :: 0 <= k < |a| ==> LowerChar(a[k]) == LowerChar(b[k])
  }

  /** `\bterm\b` matches at `i`. */
  predicate MatchAt(s: string, i: nat, term: string)
  {
    i + |term| <= |s| && FoldEq(s[i..i + |term|], term) && Boundary(s, i) && Boundary(s, i + |term|)
  }

  /** The output of `re.sub(r'\b' + re.escape(term) + r'\b', rep, s, flags=re.IGNORECASE)` for `s[i..]`. */
  function SubFrom(s: string, term: string, rep: string, i: nat): string
    requires |term| > 0
    decreases |s| - i
  {
    if i >= |s| then ""
    else if MatchAt(s, i, term) then rep + SubFrom(s, term, rep, i + |term|)
    else [s[i]] + SubFrom(s, term, rep, i + 1)
  }

  function Sub(s: string, term: string, rep: string): string
    requires |term| > 0
  {
    SubFrom(s, term, rep, 0)
  }

  /** The working text after the first `n` table entries have been applied, in table order. */
  function SubTable(s: string, t: Table, n: nat): string
    requires ValidTable(t) && n <= |t|
  {
    if n == 0 then s else Sub(SubTable(s, t, n - 1), t[n - 1].0, t[n - 1].1)
  }

  // ------------------------------------------------------------------ translate_text

  /** `temp_text` after the first `n` placeholders were swapped for sentinels. */
  function Masked(text: string, phs: seq<string>, n: nat): string
    requires n <= |phs|
  {
    if n == 0 then text else ReplaceFirst(Masked(text, phs, n - 1), phs[n - 1], Sentinel(n - 1))
  }

  /** `result` after the first `n` sentinels were swapped back for their placeholders. */
  function Restored(r: string, phs: seq<string>, n: nat): string
    requires n <= |phs|
  {
    if n == 0 then r else ReplaceFirst(Restored(r, phs, n - 1), Sentinel(n - 1), phs[n - 1])
  }

  /**
   * What `translate_text(text, lang)` returns, with `tables` standing for
   * TRANSLATIONS: a `/command` comes back as it is, and so does a text without
   * placeholders in a language without a table.
   */
  function TranslateValue(text: string, tables: map<string, Table>, lang: string): (r: string)
    requires ValidTables(tables)
    ensures IsCommand(PyStrip(text)) ==> r == text
    ensures Placeholders(text) == [] && lang !in tables ==> r == text
  {
    if IsCommand(PyStrip(text)) then text
    else
      var phs := Placeholders(text);
      var temp := Masked(text, phs, |phs|);
      var result := if lang in tables then SubTable(temp, tables[lang], |tables[lang]|) else temp;
      Restored(result, phs, |phs|)
  }

  /** The masking loop: each placeholder in turn is swapped (first occurrence only) for its sentinel. */
  method MaskPlaceholders(text: string, phs: seq<string>) returns (temp: string)
    ensures temp == Masked(text, phs, |phs|)
  {
    temp := text;
    var i := 0;
    while i < |phs|
      invariant 0 <= i <= |phs|
      invariant temp == Masked(text, phs, i)
    {
      temp := ReplaceFirst(temp, phs[i], Sentinel(i));
      i := i + 1;
    }
  }

  /** The substitution loop: every table entry in order, each over the whole text. */
  method ApplyTable(temp: string, dict: Table) returns (result: string)
    requires ValidTable(dict)
    ensures result == SubTable(temp, dict, |dict|)
  {
    result := temp;
    var k := 0;
    while k < |dict|
      invariant 0 <= k <= |dict|
      invariant result == SubTable(temp, dict, k)
    {
      result := Sub(result, dict[k].0, dict[k].1);
      k := k + 1;
    }
  }

  /** The restoring loop: each sentinel in turn is swapped (first occurrence only) back for its placeholder. */
  method RestorePlaceholders(result: string, phs: seq<string>) returns (r: string)
    ensures r == Restored(result, phs, |phs|)
  {
    r := result;
    var j := 0;
    while j < |phs|
      invariant 0 <= j <= |phs|
      invariant r == Restored(result, phs, j)
    {
      r := ReplaceFirst(r, Sentinel(j), phs[j]);
      assert r == Restored(result, phs, j + 1);
      j := j + 1;
    }
  }

  /** `translate_text`, step by step as the source does it. */
  method TranslateText(text: string, tables: map<string, Table>, lang: string) returns (r: string)
    requires ValidTables(tables)
    ensures r == TranslateValue(text, tables, lang)
    ensures IsCommand(PyStrip(text)) ==> r == text
  {
    if IsCommand(PyStrip(text)) {
      return text;
    }
    var phs := Placeholders(text);
    var temp := MaskPlaceholders(text, phs);
    var result := temp;
    if lang in tables {
      result := ApplyTable(temp, tables[lang]);
    }
    r := RestorePlaceholders(result, phs);
  }

  // ------------------------------------------------------------------ generate_translation

  /** The groups of `(\s*)([a-z_]+):\s*["`](.+?)["`](,?)(\s*)` on a line. */
  datatype Entry = Entry(indent: string, key: string, sep: string, open: char, value: string,
                         close: char, comma: string, trailing: string)

  predicate IsKeyChar(c: char) { 'a' <= c <= 'z' || c == '_' }

  predicate IsQuote(c: char) { c == '"' || c == '`' }

  /** Text that `\s*` matches in full. */
  predicate Spaces(s: string) { forall i :: 0 <= i < |s| ==> IsPySpace(s[i]) }

  /**
   * Text that the lazy `.+?` captures before the closing quote: at least one
   * character, no line break, and no quote after the first character (the
   * first one may be a quote, since `.` matches it).
   */
  predicate LazyValue(v: string)
  {
    |v| > 0 && '\n' !in v && forall i :: 1 <= i < |v| ==> !IsQuote(v[i])
  }

  /** The end of the run of whitespace (`\s*`, greedy) that starts at `i`. */
  function SpaceEnd(s: string, i: nat): (r: nat)
    requires i <= |s|
    ensures i <= r <= |s|
    ensures r < |s| ==> !IsPySpace(s[r])
    decreases |s| - i
  {
    if i < |s| && IsPySpace(s[i]) then SpaceEnd(s, i + 1) else i
  }

  /** The end of the run of key characters (`[a-z_]+`, greedy) that starts at `i`. */
  function KeyEnd(s: string, i: nat): (r: nat)
    requires i <= |s|
    ensures i <= r <= |s|
    ensures r < |s| ==> !IsKeyChar(s[r])
    decreases |s| - i
  {
    if i < |s| && IsKeyChar(s[i]) then KeyEnd(s, i + 1) else i
  }

  /** The first quote at or after `p`, unless a line break (which `.` does not match) comes first. */
  function ClosingQuote(s: string, p: nat): (r: Option<nat>)
    requires p <= |s|
    ensures r.Some? ==> p <= r.value < |s| && IsQuote(s[r.value])
    decreases |s| - p
  {
    if p == |s| then None
    else if IsQuote(s[p]) then Some(p)
    else if s[p] == '\n' then None
    else ClosingQuote(s, p + 1)
  }

  /**
   * Where a match of the entry pattern puts its groups: the indent ends at
   * `w`, the key at `k` (where the colon is), the quotes are at `v0` and `e`,
   * the optional comma ends at `c` and the trailing spaces at `t`.
   */
  datatype Spans = Spans(w: nat, k: nat, v0: nat, e: nat, c: nat, t: nat)

  /** The characters of `line` are what the pattern demands inside the spans `p`. */
  predicate ValidSpans(line: string, p: Spans)
  {
    p.w < p.k < p.v0 && p.v0 + 1 < p.e && p.e + 1 <= p.c <= p.t <= |line| && line[p.k] == ':'
    && (forall q :: 0 <= q < p.w ==> IsPySpace(line[q]))
    && (forall q :: p.w <= q < p.k ==> IsKeyChar(line[q]))
    && (forall q :: p.k + 1 <= q < p.v0 ==> IsPySpace(line[q]))
    && IsQuote(line[p.v0]) && line[p.v0 + 1] != '\n'
    && (forall q :: p.v0 + 2 <= q < p.e ==> !IsQuote(line[q]) && line[q] != '\n')
    && IsQuote(line[p.e])
    && p.c == (if p.e + 1 < |line| && line[p.e + 1] == ',' then p.e + 2 else p.e + 1)
    && (forall q :: p.c <= q < p.t ==> IsPySpace(line[q]))
  }

  /** Everything `SpaceEnd` skips is whitespace. */
  lemma {:induction false} SpaceEndRun(s: string, i: nat)
    requires i <= |s|
    ensures forall k :: i <= k < SpaceEnd(s, i) ==> IsPySpace(s[k])
    decreases |s| - i
  {
    if i < |s| && IsPySpace(s[i]) {
      SpaceEndRun(s, i + 1);
    }
  }

  /** Everything `KeyEnd` skips is a key character. */
  lemma {:induction false} KeyEndRun(s: string, i: nat)
    requires i <= |s|
    ensures forall k :: i <= k < KeyEnd(s, i) ==> IsKeyChar(s[k])
    decreases |s| - i
  {
    if i < |s| && IsKeyChar(s[i]) {
      KeyEndRun(s, i + 1);
    }
  }

  /** The quote `ClosingQuote` finds is the first one, and no line break comes before it. */
  lemma {:induction false} ClosingQuoteFirst(s: string, p: nat)
    requires p <= |s|
    ensures ClosingQuote(s, p).Some? ==> forall k :: p <= k < ClosingQuote(s, p).value ==> !IsQuote(s[k]) && s[k] != '\n'
    decreases |s| - p
  {
    if p < |s| && !IsQuote(s[p]) && s[p] != '\n' {
      ClosingQuoteFirst(s, p + 1);
    }
  }

  /** The spans `p` are where the greedy and lazy scans put them, and the literals between them match. */
  predicate Scanned(line: string, p: Spans)
  {
    p.w < p.k < |line| && line[p.k] == ':' && p.v0 + 1 < |line| && IsQuote(line[p.v0]) && line[p.v0 + 1] != '\n'
    && SpaceEnd(line, 0) == p.w && KeyEnd(line, p.w) == p.k && SpaceEnd(line, p.k + 1) == p.v0
    && ClosingQuote(line, p.v0 + 2) == Some(p.e)
    && p.c == (if p.e + 1 < |line| && line[p.e + 1] == ',' then p.e + 2 else p.e + 1)
    && p.c <= |line| && SpaceEnd(line, p.c) == p.t
  }

  /** `re.match` of the entry pattern at the start of `line`, as spans (`MatchSpansValid` says what they hold). */
  function MatchSpans(line: string): (r: Option<Spans>)
    ensures r.Some? ==> Scanned(line, r.value)
  {
    var w := SpaceEnd(line, 0);
    var k := KeyEnd(line, w);
    if k == w || k >= |line| || line[k] != ':' then None
    else
      var v0 := SpaceEnd(line, k + 1);
      if v0 >= |line| || !IsQuote(line[v0]) || v0 + 1 >= |line| || line[v0 + 1] == '\n' then None
      else match ClosingQuote(line, v0 + 2)
        case None => None
        case Some(e) =>
          var c := if e + 1 < |line| && line[e + 1] == ',' then e + 2 else e + 1;
          Some(Spans(w, k, v0, e, c, SpaceEnd(line, c)))
  }

  /** The spans of a match delimit what the pattern asks for, and the trailing spaces are taken greedily. */
  lemma {:induction false} MatchSpansValid(line: string)
    ensures MatchSpans(line).Some? ==> ValidSpans(line, MatchSpans(line).value)
    ensures MatchSpans(line).Some? ==> MatchSpans(line).value.t == |line| || !IsPySpace(line[MatchSpans(line).value.t])
  {
    if MatchSpans(line).Some? {
      ScannedSpansValid(line, MatchSpans(line).value);
    }
  }

  /** Spans made of the scanners' results are valid. */
  lemma {:induction false} ScannedSpansValid(line: string, p: Spans)
    requires Scanned(line, p)
    ensures ValidSpans(line, p)
    ensures p.t == |line| || !IsPySpace(line[p.t])
  {
    SpaceEndRun(line, 0);
    KeyEndRun(line, p.w);
    SpaceEndRun(line, p.k + 1);
    ClosingQuoteFirst(line, p.v0 + 2);
    SpaceEndRun(line, p.c);
  }

  /** The groups of a match with spans `p`. */
  function Groups(line: string, p: Spans): (r: Entry)
    requires ValidSpans(line, p)
    ensures |r.key| > 0 && |r.value| > 0
    ensures forall q :: 0 <= q < |r.key| ==> IsKeyChar(r.key[q])
    ensures r.comma in {"", ","}
    ensures IsQuote(r.open) && IsQuote(r.close)
    ensures Spaces(r.indent) && Spaces(r.sep) && Spaces(r.trailing)
    ensures LazyValue(r.value)
    ensures StartsWith(line, r.indent + r.key + ":" + r.sep + [r.open] + r.value + [r.close] + r.comma + r.trailing)
  {
    EntryAt(line, p.w, p.k, p.v0, p.e, if p.c == p.e + 2 then "," else "", p.t)
  }

  /** The groups of a match whose key spans `w..k`, value `v0 + 1..e`, comma and trailing spaces up to `t`. */
  function EntryAt(line: string, w: nat, k: nat, v0: nat, e: nat, comma: string, t: nat): (r: Entry)
    requires w < k < v0 && v0 + 1 < e && e + 1 + |comma| <= t <= |line| && line[k] == ':'
    requires forall q :: w <= q < k ==> IsKeyChar(line[q])
    requires IsQuote(line[v0]) && IsQuote(line[e])
    requires comma == (if e + 1 < |line| && line[e + 1] == ',' then "," else "")
    requires forall q :: 0 <= q < w ==> IsPySpace(line[q])
    requires forall q :: k + 1 <= q < v0 ==> IsPySpace(line[q])
    requires forall q :: e + 1 + |comma| <= q < t ==> IsPySpace(line[q])
    requires line[v0 + 1] != '\n' && forall q :: v0 + 2 <= q < e ==> !IsQuote(line[q]) && line[q] != '\n'
    ensures |r.key| > 0 && |r.value| > 0
    ensures forall q :: 0 <= q < |r.key| ==> IsKeyChar(r.key[q])
    ensures r.comma in {"", ","}
    ensures IsQuote(r.open) && IsQuote(r.close)
    ensures Spaces(r.indent) && Spaces(r.sep) && Spaces(r.trailing)
    ensures LazyValue(r.value)
    ensures StartsWith(line, r.indent + r.key + ":" + r.sep + [r.open] + r.value + [r.close] + r.comma + r.trailing)
  {
    EntryPrefix(line, w, k, v0, e, comma, t);
    EntryPieces(line, w, k, v0, e, comma, t);
    Entry(line[..w], line[w..k], line[k + 1..v0], line[v0], line[v0 + 1..e],
          line[e], comma, line[e + 1 + |comma|..t])
  }

  /** The slices that `EntryAt` takes have the shapes of their groups. */
  lemma {:induction false} EntryPieces(line: string, w: nat, k: nat, v0: nat, e: nat, comma: string, t: nat)
    requires w < k < v0 && v0 + 1 < e && e + 1 + |comma| <= t <= |line|
    requires forall q :: w <= q < k ==> IsKeyChar(line[q])
    requires forall q :: 0 <= q < w ==> IsPySpace(line[q])
    requires forall q :: k + 1 <= q < v0 ==> IsPySpace(line[q])
    requires forall q :: e + 1 + |comma| <= q < t ==> IsPySpace(line[q])
    requires line[v0 + 1] != '\n' && forall q :: v0 + 2 <= q < e ==> !IsQuote(line[q]) && line[q] != '\n'
    ensures forall q :: 0 <= q < k - w ==> IsKeyChar(line[w..k][q])
    ensures Spaces(line[..w]) && Spaces(line[k + 1..v0]) && Spaces(line[e + 1 + |comma|..t])
    ensures LazyValue(line[v0 + 1..e])
  {
    var v := line[v0 + 1..e];
    assert forall i :: 0 <= i < |v| ==> v[i] == line[v0 + 1 + i];
    assert '\n' !in v by {
      forall i | 0 <= i < |v| ensures v[i] != '\n' {
        if i > 0 {
          assert v0 + 2 <= v0 + 1 + i < e;
        }
      }
    }
  }

  /** `re.match` of the entry pattern at the start of `line` (the rest of the line is not part of the match). */
  function ParseEntry(line: string): (r: Option<Entry>)
    ensures r.Some? ==> |r.value.key| > 0 && |r.value.value| > 0
    ensures r.Some? ==> forall k :: 0 <= k < |r.value.key| ==> IsKeyChar(r.value.key[k])
    ensures r.Some? ==> r.value.comma in {"", ","}
    ensures r.Some? ==> IsQuote(r.value.open) && IsQuote(r.value.close)
    ensures r.Some? ==> Spaces(r.value.indent) && Spaces(r.value.sep) && Spaces(r.value.trailing)
    ensures r.Some? ==> LazyValue(r.value.value)
    ensures r.Some? ==> StartsWith(line, r.value.indent + r.value.key + ":" + r.value.sep + [r.value.open]
                                        + r.value.value + [r.value.close] + r.value.comma + r.value.trailing)
  {
    MatchSpansValid(line);
    match MatchSpans(line)
      case None => None
      case Some(p) => Some(Groups(line, p))
  }

  /** The matched prefix of a line is the concatenation of the pattern's groups and literals. */
  lemma {:induction false} EntryPrefix(line: string, w: nat, k: nat, v0: nat, e: nat, comma: string, t: nat)
    requires w <= k < v0 < e && e + 1 + |comma| <= t <= |line| && line[k] == ':'
    requires line[e + 1..e + 1 + |comma|] == comma
    ensures line[..t] == line[..w] + line[w..k] + ":" + line[k + 1..v0] + [line[v0]]
                         + line[v0 + 1..e] + [line[e]] + comma + line[e + 1 + |comma|..t]
  {
    var c := e + 1 + |comma|;
    assert line[..k + 1] == line[..w] + line[w..k] + ":";
    assert line[..v0 + 1] == line[..k + 1] + line[k + 1..v0] + [line[v0]];
    assert line[..e + 1] == line[..v0 + 1] + line[v0 + 1..e] + [line[e]];
    assert line[..t] == line[..e + 1] + line[e + 1..c] + line[c..t];
  }

  /**
   * One line of `generate_translation`'s output: blank lines, `//` comments
   * and lines the entry pattern does not match are copied.
   */
  function TranslateLine(line: string, tables: map<string, Table>, lang: string): (r: string)
    requires ValidTables(tables)
    ensures r != line ==> PyStrip(line) != "" && !StartsWith(PyStrip(line), "//") && ParseEntry(line).Some?
  {
    var st := PyStrip(line);
    if st == "" || StartsWith(st, "//") then line
    else match ParseEntry(line)
      case None => line
      case Some(e) => e.indent + e.key + ": \"" + TranslateValue(e.value, tables, lang) + "\"" + e.comma + e.trailing
  }

  /** Every line translated, in order. */
  function TranslateLines(lines: seq<string>, tables: map<string, Table>, lang: string): (r: seq<string>)
    requires ValidTables(tables)
    ensures |r| == |lines|
  {
    if |lines| == 0 then []
    else TranslateLines(lines[..|lines| - 1], tables, lang) + [TranslateLine(lines[|lines| - 1], tables, lang)]
  }

  lemma {:induction false} TranslateLinesAt(lines: seq<string>, tables: map<string, Table>, lang: string, k: nat)
    requires ValidTables(tables) && k < |lines|
    ensures TranslateLines(lines, tables, lang)[k] == TranslateLine(lines[k], tables, lang)
  {
    var pre := lines[..|lines| - 1];
    assert TranslateLines(lines, tables, lang)
           == TranslateLines(pre, tables, lang) + [TranslateLine(lines[|lines| - 1], tables, lang)];
    if k < |lines| - 1 {
      assert pre[k] == lines[k];
      TranslateLinesAt(pre, tables, lang, k);
    }
  }

  /** The body of `generate_translation`'s loop for one line. */
  method TranslateOneLine(line: string, tables: map<string, Table>, lang: string) returns (r: string)
    requires ValidTables(tables)
    ensures r == TranslateLine(line, tables, lang)
  {
    var st := PyStrip(line);
    if st == "" || StartsWith(st, "//") {
      return line;
    }
    match ParseEntry(line)
    case None =>
      r := line;
    case Some(e) =>
      var tv := TranslateText(e.value, tables, lang);
      r := e.indent + e.key + ": \"" + tv + "\"" + e.comma + e.trailing;
  }

  /** `generate_translation(en_text, lang)`. */
  method GenerateTranslation(enText: string, tables: map<string, Table>, lang: string) returns (r: string)
    requires ValidTables(tables)
    ensures r == Join(TranslateLines(Split(enText, "\n"), tables, lang), "\n")
  {
    var lines := Split(enText, "\n");
    var out: seq<string> := [];
    var i := 0;
    while i < |lines|
      invariant 0 <= i <= |lines|
      invariant out == TranslateLines(lines[..i], tables, lang)
    {
      var t := TranslateOneLine(lines[i], tables, lang);
      assert lines[..i + 1][..i] == lines[..i];
      out := out + [t];
      i := i + 1;
    }
    assert lines[..i] == lines;
    r := Join(out, "\n");
  }
}
