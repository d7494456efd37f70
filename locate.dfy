/**
 * Locating the `en: {` and `pl: {` blocks of a translation file
 * (api/scripts/i18n_translate.py, `parse_en_section` and the brace scan in `main`).
 */
module SectionLocator {
  import opened Wrappers
  import opened Strings

  const EnMarker: string := "en: {"
  const PlMarker: string := "pl: {"
  const EnClose: string := "},"

  /** The trimmed text of every line (`line.strip()`). */
  function Stripped(lines: seq<string>): (r: seq<string>)
    ensures |r| == |lines|
  {
    if |lines| == 0 then [] else Stripped(lines[..|lines| - 1]) + [PyStrip(lines[|lines| - 1])]
  }

  lemma {:induction false} StrippedAt(lines: seq<string>, i: nat)
    requires i < |lines|
    ensures Stripped(lines)[i] == PyStrip(lines[i])
  {
    if i < |lines| - 1 {
      StrippedAt(lines[..|lines| - 1], i);
    }
  }

  // ------------------------------------------------------------------ reading lines

  lemma {:induction false} JoinEmptyCons(a: string, rest: seq<string>)
    ensures Join([a] + rest, "") == a + Join(rest, "")
  {
    if |rest| > 0 {
      assert ([a] + rest)[1..] == rest;
    }
  }

  function ReadLinesOf(parts: seq<string>): (r: seq<string>)
    requires |parts| >= 1
    ensures Join(r, "") == Join(parts, "\n")
  {
    if |parts| == 1 then (if parts[0] == "" then [] else [parts[0]])
    else
      var rest := ReadLinesOf(parts[1..]);
      JoinEmptyCons(parts[0] + "\n", rest);
      [parts[0] + "\n"] + rest
  }

  /**
   * `f.readlines()`: the lines of `content`, each keeping its `\n`; a last
   * line without one is kept as it is, and nothing follows a final `\n`.
   */
  function ReadLines(content: string): (r: seq<string>)
    ensures Join(r, "") == content
  {
    JoinSplit(content, "\n");
    ReadLinesOf(Split(content, "\n"))
  }

  // ------------------------------------------------------------------ marker searches

  /** The first line at or after `from` whose trimmed text is `m`. */
  function FirstMarker(st: seq<string>, m: string, from: nat): (r: Option<nat>)
    requires from <= |st|
    ensures r.Some? ==> from <= r.value < |st| && st[r.value] == m
    ensures r.Some? ==> forall i :: from <= i < r.value ==> st[i] != m
    ensures r.None? ==> forall i :: from <= i < |st| ==> st[i] != m
    decreases |st| - from
  {
    if from == |st| then None
    else if st[from] == m then Some(from)
    else FirstMarker(st, m, from + 1)
  }

  /** The last line in `[lo, hi)` whose trimmed text is `m`. */
  function LastMarker(st: seq<string>, m: string, lo: nat, hi: nat): (r: Option<nat>)
    requires lo <= hi <= |st|
    ensures r.Some? ==> lo <= r.value < hi && st[r.value] == m
    ensures r.Some? ==> forall i :: r.value < i < hi ==> st[i] != m
    ensures r.None? ==> forall i :: lo <= i < hi ==> st[i] != m
    decreases hi - lo
  {
    if hi == lo then None
    else if st[hi - 1] == m then Some(hi - 1)
    else LastMarker(st, m, lo, hi - 1)
  }

  // ------------------------------------------------------------------ parse_en_section

  /**
   * Where `parse_en_section` cuts: `(start, end)` with `start` just after the
   * last `en: {` before the first `pl: {`, and `end` the last `},` line that lies
   * in `(start, pl)`.
   */
  function EnBounds(lines: seq<string>): (r: Option<(nat, nat)>)
    ensures r.Some? ==> FirstMarker(Stripped(lines), PlMarker, 0).Some?
    ensures r.Some? ==> 1 <= r.value.0 < r.value.1 < FirstMarker(Stripped(lines), PlMarker, 0).value
    ensures r.Some? ==> PyStrip(lines[r.value.0 - 1]) == EnMarker && PyStrip(lines[r.value.1]) == EnClose
  {
    var st := Stripped(lines);
    match FirstMarker(st, PlMarker, 0)
    case None => None
    case Some(p) =>
      var r := EnBoundsBefore(st, p);
      if r.Some? then StrippedAt(lines, r.value.0 - 1); StrippedAt(lines, r.value.1); r else r
  }

  /** `EnBounds` once the first `pl: {` is known to be line `p`. */
  function EnBoundsBefore(st: seq<string>, p: nat): (r: Option<(nat, nat)>)
    requires p <= |st|
    ensures r.Some? ==> 1 <= r.value.0 < r.value.1 < p
    ensures r.Some? ==> st[r.value.0 - 1] == EnMarker && st[r.value.1] == EnClose
  {
    match LastMarker(st, EnMarker, 0, p)
    case None => None
    case Some(e) =>
      if e + 2 > p then None
      else match LastMarker(st, EnClose, e + 2, p)
        case None => None
        case Some(c) => Some((e + 1, c))
  }

  /** The text `parse_en_section` returns for `lines`. */
  function EnSection(lines: seq<string>): Option<string>
  {
    match EnBounds(lines)
    case None => None
    case Some((s, c)) => Some(Join(lines[s..c], ""))
  }

  /** `parse_en_section` finds nothing unless the file has an exact `pl: {` line with an exact `en: {` line above it. */
  lemma {:induction false} EnSectionNeedsMarkers(lines: seq<string>)
    ensures EnSection(lines).Some? ==>
              (exists e, p :: 0 <= e < p < |lines| && PyStrip(lines[e]) == EnMarker && PyStrip(lines[p]) == PlMarker)
  {
    if EnSection(lines).Some? {
      var (s, c) := EnBounds(lines).value;
      var p := FirstMarker(Stripped(lines), PlMarker, 0).value;
      StrippedAt(lines, s - 1);
      StrippedAt(lines, p);
      assert PyStrip(lines[s - 1]) == EnMarker && PyStrip(lines[p]) == PlMarker;
    }
  }

  /** The first loop of `parse_en_section`: the first `pl: {` and the `en: {` last seen before it. */
  method FindMarkers(lines: seq<string>) returns (enStart: Option<nat>, plStart: Option<nat>)
    ensures plStart == FirstMarker(Stripped(lines), PlMarker, 0)
    ensures plStart.Some? ==> enStart == AfterLast(LastMarker(Stripped(lines), EnMarker, 0, plStart.value))
  {
    ghost var st := Stripped(lines);
    enStart, plStart := None, None;
    var i := 0;
    while i < |lines|
      invariant 0 <= i <= |lines|
      invariant FirstMarker(st, PlMarker, 0) == FirstMarker(st, PlMarker, i)
      invariant enStart == AfterLast(LastMarker(st, EnMarker, 0, i))
    {
      LastMarkerStep(st, EnMarker, 0, i);
      var line := PyStrip(lines[i]);
      StrippedAt(lines, i);
      if line == EnMarker {
        MarkersDiffer();
        enStart := Some(i + 1);
      } else if line == PlMarker {
        plStart := Some(i);
        return;
      }
      FirstMarkerStep(st, PlMarker, i);
      i := i + 1;
    }
  }

  lemma {:induction false} MarkersDiffer()
    ensures EnMarker != PlMarker && EnMarker != EnClose && PlMarker != EnClose
  {
    assert EnMarker[0] != PlMarker[0] && EnMarker[0] != EnClose[0] && PlMarker[0] != EnClose[0];
  }

  /** One line past a non-marker for the forward search. */
  lemma {:induction false} FirstMarkerStep(st: seq<string>, m: string, i: nat)
    requires i < |st| && st[i] != m
    ensures FirstMarker(st, m, i) == FirstMarker(st, m, i + 1)
  {
  }

  /** One more line for the backward search. */
  lemma {:induction false} LastMarkerStep(st: seq<string>, m: string, lo: nat, hi: nat)
    requires lo <= hi < |st|
    ensures LastMarker(st, m, lo, hi + 1) == if st[hi] == m then Some(hi) else LastMarker(st, m, lo, hi)
  {
  }

  function AfterLast(e: Option<nat>): Option<nat>
  {
    match e
    case None => None
    case Some(k) => Some(k + 1)
  }

  /** The second loop of `parse_en_section`: downward from `p - 1` to `s + 1`. */
  method FindEnEnd(lines: seq<string>, s: nat, p: nat) returns (enEnd: Option<nat>)
    requires 1 <= s <= p <= |lines|
    ensures enEnd == if s + 1 <= p then LastMarker(Stripped(lines), EnClose, s + 1, p) else None
  {
    ghost var st := Stripped(lines);
    enEnd := None;
    var j := p - 1;
    while j > s
      invariant s <= j + 1 <= p
      invariant s + 1 <= p ==> s <= j && LastMarker(st, EnClose, s + 1, p) == LastMarker(st, EnClose, s + 1, j + 1)
    {
      var line := PyStrip(lines[j]);
      StrippedAt(lines, j);
      if line == EnClose {
        return Some(j);
      }
      j := j - 1;
    }
  }

  /** `parse_en_section` over the file's content. */
  method ParseEnSection(content: string) returns (r: Option<string>)
    ensures r == EnSection(ReadLines(content))
  {
    var lines := ReadLines(content);
    var enStart, plStart := FindMarkers(lines);
    if enStart.None? || plStart.None? {
      return None;
    }
    var s, p := enStart.value, plStart.value;
    var enEnd := FindEnEnd(lines, s, p);
    if enEnd.None? {
      return None;
    }
    r := Some(Join(lines[s..enEnd.value], ""));
  }

  // ------------------------------------------------------------------ end of the PL block

  /** The `pl: {` search at the start of `main`. */
  method FindPlStart(lines: seq<string>) returns (plStart: Option<nat>)
    ensures plStart == FirstMarker(Stripped(lines), PlMarker, 0)
  {
    ghost var st := Stripped(lines);
    var i := 0;
    while i < |lines|
      invariant 0 <= i <= |lines|
      invariant FirstMarker(st, PlMarker, 0) == FirstMarker(st, PlMarker, i)
    {
      var line := PyStrip(lines[i]);
      StrippedAt(lines, i);
      if line == PlMarker {
        return Some(i);
      }
      FirstMarkerStep(st, PlMarker, i);
      i := i + 1;
    }
    return None;
  }

  /** How much a line changes the brace depth: its `{` count minus its `}` count. */
  function Balance(line: string): int
  {
    CountChar(line, '{') - CountChar(line, '}')
  }

  /** The brace depth after all of `ls`. */
  function Depth(ls: seq<string>): int
  {
    if |ls| == 0 then 0 else Depth(ls[..|ls| - 1]) + Balance(ls[|ls| - 1])
  }

  /** The depth counted from line `p` through line `i`. */
  function DepthThrough(lines: seq<string>, p: nat, i: nat): int
    requires p <= i < |lines|
  {
    Depth(lines[p..i + 1])
  }

  /**
   * The insertion line after the PL block that starts at `p`: one past the
   * first line `i > p` at which the depth counted from `p` is back to 0.
   */
  function PlEnd(lines: seq<string>, p: nat): (r: Option<nat>)
    requires p < |lines|
    ensures r.Some? ==> p + 2 <= r.value <= |lines| && DepthThrough(lines, p, r.value - 1) == 0
    ensures r.Some? ==> forall i :: p < i < r.value - 1 ==> DepthThrough(lines, p, i) != 0
    ensures r.None? ==> forall i :: p < i < |lines| ==> DepthThrough(lines, p, i) != 0
  {
    PlEndFrom(lines, p, p + 1)
  }

  function PlEndFrom(lines: seq<string>, p: nat, i: nat): (r: Option<nat>)
    requires p < i <= |lines|
    ensures r.Some? ==> i + 1 <= r.value <= |lines| && DepthThrough(lines, p, r.value - 1) == 0
    ensures r.Some? ==> forall k :: i <= k < r.value - 1 ==> DepthThrough(lines, p, k) != 0
    ensures r.None? ==> forall k :: i <= k < |lines| ==> DepthThrough(lines, p, k) != 0
    decreases |lines| - i
  {
    if i == |lines| then None
    else if DepthThrough(lines, p, i) == 0 then Some(i + 1)
    else PlEndFrom(lines, p, i + 1)
  }

  /** The brace-counting loop of `main`. */
  method FindPlEnd(lines: seq<string>, p: nat) returns (r: Option<nat>)
    requires p < |lines|
    ensures r == PlEnd(lines, p)
  {
    var braceCount := 0;
    var i := p;
    while i < |lines|
      invariant p <= i <= |lines|
      invariant braceCount == Depth(lines[p..i])
      invariant PlEndFrom(lines, p, if i == p then p + 1 else i) == PlEnd(lines, p)
    {
      braceCount := braceCount + Balance(lines[i]);
      assert lines[p..i + 1][..i - p] == lines[p..i];
      assert braceCount == DepthThrough(lines, p, i);
      if braceCount == 0 && i > p {
        return Some(i + 1);
      }
      i := i + 1;
    }
    return None;
  }
}
