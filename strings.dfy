/** Option, used for the source's "not found" results (null, None, -1). */
module Wrappers {
  datatype Option<T> = None | Some(value: T)
}

/**
 * The string primitives that the modelled code takes from its runtime
 * (Python `str`, JavaScript `String`): whitespace classes, trimming,
 * lower-casing, searching, splitting, joining and replacing.
 */
module Strings {
  import opened Wrappers

  /** Whitespace as Python's `str.strip()` and `\s` see it. */
  predicate IsPySpace(c: char)
  {
    c == ' ' || ('\t' <= c <= '\r') || ('\U{1C}' <= c <= '\U{1F}') || c == '\U{85}' || c == '\U{A0}'
    || c == '\U{1680}' || ('\U{2000}' <= c <= '\U{200A}') || c == '\U{2028}' || c == '\U{2029}'
    || c == '\U{202F}' || c == '\U{205F}' || c == '\U{3000}'
  }

  /** Whitespace as JavaScript's `String.prototype.trim` and `\s` see it. */
  predicate IsJsSpace(c: char)
  {
    c == ' ' || ('\t' <= c <= '\r') || c == '\U{A0}' || c == '\U{1680}' || ('\U{2000}' <= c <= '\U{200A}')
    || c == '\U{2028}' || c == '\U{2029}' || c == '\U{202F}' || c == '\U{205F}' || c == '\U{3000}'
    || c == '\U{FEFF}'
  }

  function TrimStart(s: string, ws: char -> bool): string
  {
    if |s| > 0 && ws(s[0]) then TrimStart(s[1..], ws) else s
  }

  function TrimEnd(s: string, ws: char -> bool): string
  {
    if |s| > 0 && ws(s[|s| - 1]) then TrimEnd(s[..|s| - 1], ws) else s
  }

  function Trim(s: string, ws: char -> bool): string
  {
    TrimEnd(TrimStart(s, ws), ws)
  }

  /** Python `s.strip()`. */
  function PyStrip(s: string): string { Trim(s, IsPySpace) }

  /** JavaScript `s.trim()`. */
  function JsTrim(s: string): string { Trim(s, IsJsSpace) }

  /** `TrimStart` drops a prefix, and what it keeps does not start with whitespace. */
  lemma {:induction false} TrimStartShape(s: string, ws: char -> bool)
    ensures |TrimStart(s, ws)| <= |s| && TrimStart(s, ws) == s[|s| - |TrimStart(s, ws)|..]
    ensures |TrimStart(s, ws)| > 0 ==> !ws(TrimStart(s, ws)[0])
  {
    if |s| > 0 && ws(s[0]) {
      TrimStartShape(s[1..], ws);
    }
  }

  /** `TrimEnd` drops a suffix, and what it keeps does not end with whitespace. */
  lemma {:induction false} TrimEndShape(s: string, ws: char -> bool)
    ensures |TrimEnd(s, ws)| <= |s| && TrimEnd(s, ws) == s[..|TrimEnd(s, ws)|]
    ensures |TrimEnd(s, ws)| > 0 ==> !ws(TrimEnd(s, ws)[|TrimEnd(s, ws)| - 1])
  {
    if |s| > 0 && ws(s[|s| - 1]) {
      TrimEndShape(s[..|s| - 1], ws);
    }
  }

  /** A string with no removable whitespace at either end is its own trim. */
  lemma {:induction false} TrimNoop(s: string, ws: char -> bool)
    requires |s| > 0 ==> !ws(s[0]) && !ws(s[|s| - 1])
    ensures Trim(s, ws) == s
  {
  }

  /** Whitespace in front of a text that does not start with whitespace is all `TrimStart` drops. */
  lemma {:induction false} TrimStartPad(pre: string, s: string, ws: char -> bool)
    requires forall i :: 0 <= i < |pre| ==> ws(pre[i])
    requires |s| > 0 ==> !ws(s[0])
    ensures TrimStart(pre + s, ws) == s
    decreases |pre|
  {
    if |pre| > 0 {
      assert (pre + s)[0] == pre[0];
      assert (pre + s)[1..] == pre[1..] + s;
      TrimStartPad(pre[1..], s, ws);
    } else {
      assert pre + s == s;
    }
  }

  /** Whitespace behind a text that does not end with whitespace is all `TrimEnd` drops. */
  lemma {:induction false} TrimEndPad(s: string, post: string, ws: char -> bool)
    requires forall i :: 0 <= i < |post| ==> ws(post[i])
    requires |s| > 0 ==> !ws(s[|s| - 1])
    ensures TrimEnd(s + post, ws) == s
    decreases |post|
  {
    if |post| > 0 {
      assert (s + post)[|s + post| - 1] == post[|post| - 1];
      assert (s + post)[..|s + post| - 1] == s + post[..|post| - 1];
      TrimEndPad(s, post[..|post| - 1], ws);
    } else {
      assert s + post == s;
    }
  }

  /** Trimming a padded text gives the text back when its own ends are not whitespace. */
  lemma {:induction false} TrimPadded(pre: string, s: string, post: string, ws: char -> bool)
    requires forall i :: 0 <= i < |pre| ==> ws(pre[i])
    requires forall i :: 0 <= i < |post| ==> ws(post[i])
    requires |s| > 0 && !ws(s[0]) && !ws(s[|s| - 1])
    ensures Trim(pre + s + post, ws) == s
  {
    assert pre + s + post == pre + (s + post);
    assert (s + post)[0] == s[0];
    TrimStartPad(pre, s + post, ws);
    TrimEndPad(s, post, ws);
  }

  /** Trimming an empty string, or one made of whitespace only, gives "". */
  lemma {:induction false} TrimAllSpace(s: string, ws: char -> bool)
    requires forall i :: 0 <= i < |s| ==> ws(s[i])
    ensures Trim(s, ws) == ""
  {
    TrimStartShape(s, ws);
  }

  /** Trailing whitespace is dropped from behind a prefix that does not end with whitespace, never from it. */
  lemma {:induction false} TrimEndBehind(p: string, t: string, ws: char -> bool)
    requires |p| > 0 && !ws(p[|p| - 1])
    ensures TrimEnd(p + t, ws) == p + TrimEnd(t, ws)
    decreases |t|
  {
    if |t| == 0 {
      assert p + t == p;
      assert p + "" == p;
    } else if ws(t[|t| - 1]) {
      assert (p + t)[..|p + t| - 1] == p + t[..|t| - 1];
      TrimEndBehind(p, t[..|t| - 1], ws);
    }
  }

  /** Trimming is idempotent. */
  lemma {:induction false} TrimIdempotent(s: string, ws: char -> bool)
    ensures Trim(Trim(s, ws), ws) == Trim(s, ws)
  {
    var t := Trim(s, ws);
    var u := TrimStart(s, ws);
    TrimStartShape(s, ws);
    TrimEndShape(u, ws);
    if |t| > 0 {
      assert t == u[..|t|];
      assert t[0] == u[0];
    }
  }

  /** A text without whitespace that occurs in `s` still occurs once `s` is trimmed. */
  lemma {:induction false} TrimKeeps(s: string, u: string, ws: char -> bool)
    requires Contains(s, u) && |u| > 0
    requires forall q :: 0 <= q < |u| ==> !ws(u[q])
    ensures Contains(Trim(s, ws), u)
  {
    TrimStartKeeps(s, u, ws);
    TrimEndKeeps(TrimStart(s, ws), u, ws);
  }

  lemma {:induction false} TrimStartKeeps(s: string, u: string, ws: char -> bool)
    requires Contains(s, u) && |u| > 0
    requires forall q :: 0 <= q < |u| ==> !ws(u[q])
    ensures Contains(TrimStart(s, ws), u)
    decreases |s|
  {
    if |s| > 0 && ws(s[0]) {
      var k := IndexOf(s, u).value;
      assert s[k..k + |u|][0] == s[k];
      assert k != 0;
      assert s[1..][k - 1..k - 1 + |u|] == s[k..k + |u|];
      OccursContains(s[1..], u, k - 1);
      TrimStartKeeps(s[1..], u, ws);
    }
  }

  lemma {:induction false} TrimEndKeeps(s: string, u: string, ws: char -> bool)
    requires Contains(s, u) && |u| > 0
    requires forall q :: 0 <= q < |u| ==> !ws(u[q])
    ensures Contains(TrimEnd(s, ws), u)
    decreases |s|
  {
    if |s| > 0 && ws(s[|s| - 1]) {
      var k := IndexOf(s, u).value;
      assert OccursAt(s, u, k);
      assert u[|u| - 1] == s[k..k + |u|][|u| - 1] == s[k + |u| - 1];
      assert !ws(u[|u| - 1]);
      assert k + |u| != |s|;
      assert s[..|s| - 1][k..k + |u|] == s[k..k + |u|];
      OccursContains(s[..|s| - 1], u, k);
      TrimEndKeeps(s[..|s| - 1], u, ws);
    }
  }

  /** A trimmed text occurs in the text it was trimmed from. */
  lemma {:induction false} TrimmedIn(s: string, ws: char -> bool)
    ensures Contains(s, Trim(s, ws))
  {
    var t := TrimStart(s, ws);
    var r := TrimEnd(t, ws);
    TrimStartShape(s, ws);
    TrimEndShape(t, ws);
    var a := |s| - |t|;
    assert s[a..a + |r|] == t[..|r|];
    OccursContains(s, r, a);
  }

  /**
   * Lower-casing of one character: ASCII, Latin-1 and Latin Extended-A.
   * Other scripts are left as they are.
   */
  function LowerChar(c: char): (r: char)
    ensures 'a' <= r <= 'z' <==> ('a' <= c <= 'z' || 'A' <= c <= 'Z')
    ensures c < '\U{80}' ==> r < '\U{80}'
    ensures r == c || IsUpperLetter(c)
  {
    if 'A' <= c <= 'Z' then (c as int + 32) as char
    else if '\U{C0}' <= c <= '\U{DE}' && c != '\U{D7}' then (c as int + 32) as char
    else if c == '\U{178}' then '\U{FF}'
    else if IsUpperExtA(c) then (c as int + 1) as char
    else c
  }

  /** Upper-case letters of Latin Extended-A (U+0100..U+017F), each one below its lower-case partner. */
  predicate IsUpperExtA(c: char)
  {
    ((('\U{100}' <= c <= '\U{137}' && c != '\U{130}') || ('\U{14A}' <= c <= '\U{177}')) && (c as int) % 2 == 0)
    || ((('\U{139}' <= c <= '\U{148}') || ('\U{179}' <= c <= '\U{17E}')) && (c as int) % 2 == 1)
  }

  predicate IsUpperLetter(c: char)
  {
    'A' <= c <= 'Z' || ('\U{C0}' <= c <= '\U{DE}' && c != '\U{D7}') || c == '\U{178}' || IsUpperExtA(c)
  }

  function Lower(s: string): (r: string)
    ensures |r| == |s|
    ensures forall i :: 0 <= i < |s| ==> r[i] == LowerChar(s[i])
  {
    seq(|s|, i requires 0 <= i < |s| => LowerChar(s[i]))
  }

  /** ASCII lower-casing, the case folding of a `/…/i` match against an ASCII pattern. */
  function AsciiLowerChar(c: char): (r: char)
    ensures IsAsciiDigit(r) <==> IsAsciiDigit(c)
  {
    if 'A' <= c <= 'Z' then (c as int + 32) as char else c
  }

  /** ASCII lower-casing of a whole text, character by character. */
  function AsciiLower(t: string): (r: string)
    ensures |r| == |t|
  {
    seq(|t|, i requires 0 <= i < |t| => AsciiLowerChar(t[i]))
  }

  /** The lower-case ASCII pattern `pat` occurs at `p`, ignoring ASCII case. */
  predicate CiOccursAt(s: string, pat: string, p: int)
  {
    0 <= p && p + |pat| <= |s| && AsciiLower(s[p..p + |pat|]) == pat
  }

  predicate IsAsciiDigit(c: char) { '0' <= c <= '9' }

  predicate IsAsciiLetter(c: char) { 'a' <= c <= 'z' || 'A' <= c <= 'Z' }

  /** JavaScript `\w`: ASCII letters, digits and `_`. */
  predicate IsJsWord(c: char) { IsAsciiLetter(c) || IsAsciiDigit(c) || c == '_' }

  // ---------------------------------------------------------- searching

  predicate StartsWith(s: string, p: string)
  {
    |p| <= |s| && s[..|p|] == p
  }

  predicate EndsWith(s: string, p: string)
  {
    |p| <= |s| && s[|s| - |p|..] == p
  }

  predicate OccursAt(s: string, p: string, k: int)
  {
    0 <= k && k + |p| <= |s| && s[k..k + |p|] == p
  }

  /** The first index at or after `from` where `p` occurs in `s` (`s.find(p, from)`, `s.indexOf(p, from)`). */
  function IndexOfFrom(s: string, p: string, from: nat): (r: Option<nat>)
    decreases |s| - from
    ensures r.Some? ==> from <= r.value && OccursAt(s, p, r.value)
    ensures r.Some? ==> forall k :: from <= k < r.value ==> !OccursAt(s, p, k)
    ensures r.None? ==> forall k :: from <= k ==> !OccursAt(s, p, k)
  {
    if from + |p| > |s| then None
    else if s[from..from + |p|] == p then Some(from)
    else IndexOfFrom(s, p, from + 1)
  }

  function IndexOf(s: string, p: string): (r: Option<nat>)
    ensures r.Some? ==> OccursAt(s, p, r.value) && forall k :: 0 <= k < r.value ==> !OccursAt(s, p, k)
    ensures r.None? ==> forall k :: !OccursAt(s, p, k)
  {
    IndexOfFrom(s, p, 0)
  }

  /** `p in s` (Python), `s.includes(p)` (JavaScript). */
  predicate Contains(s: string, p: string)
  {
    IndexOf(s, p).Some?
  }

  lemma {:induction false} OccursContains(s: string, p: string, k: int)
    requires OccursAt(s, p, k)
    ensures Contains(s, p)
  {
  }

  /** When `p` occurs at `|a|` in `a + p + b` and nowhere earlier, the first occurrence is found there. */
  lemma {:induction false} IndexOfAt(s: string, p: string, k: nat)
    requires OccursAt(s, p, k)
    requires forall q :: 0 <= q < k ==> !OccursAt(s, p, q)
    ensures IndexOf(s, p) == Some(k)
  {
  }

  /** The first occurrence at or after `from` is found where it is. */
  lemma {:induction false} IndexOfFromAt(c: string, p: string, from: nat, e: nat)
    requires from <= e && OccursAt(c, p, e)
    requires forall q :: from <= q < e ==> !OccursAt(c, p, q)
    ensures IndexOfFrom(c, p, from) == Some(e)
    decreases e - from
  {
    if from < e {
      assert !OccursAt(c, p, from);
      IndexOfFromAt(c, p, from + 1, e);
    }
  }

  /** An occurrence in `a` is an occurrence in `a + b` at the same place. */
  lemma {:induction false} OccursInPrefix(a: string, b: string, p: string, k: int)
    requires OccursAt(a, p, k)
    ensures OccursAt(a + b, p, k)
  {
    assert (a + b)[k..k + |p|] == a[k..k + |p|];
  }

  /** A text without the character has nothing to replace. */
  lemma {:induction false} ReplaceFirstAbsent(s: string, c: char, rep: string)
    requires c !in s
    ensures ReplaceFirst(s, [c], rep) == s
  {
    NoCharNoOccurrence(s, c);
  }

  /** An occurrence in `b` is an occurrence in `a + b`, shifted by `|a|`. */
  lemma {:induction false} OccursInSuffix(a: string, b: string, p: string, k: int)
    requires OccursAt(b, p, k)
    ensures OccursAt(a + b, p, |a| + k)
  {
    assert (a + b)[|a| + k..|a| + k + |p|] == b[k..k + |p|];
  }

  // ---------------------------------------------------------- replacing

  /** Python `s.replace(pat, rep, 1)`. */
  function ReplaceFirst(s: string, pat: string, rep: string): (r: string)
  {
    match IndexOf(s, pat)
    case None => s
    case Some(k) => s[..k] + rep + s[k + |pat|..]
  }

  /** The first occurrence sits at `|a|` when `pat` does not occur earlier; then exactly it is replaced. */
  lemma {:induction false} ReplaceFirstAt(a: string, pat: string, b: string, rep: string)
    requires forall q :: 0 <= q < |a| ==> !OccursAt(a + pat + b, pat, q)
    ensures ReplaceFirst(a + pat + b, pat, rep) == a + rep + b
  {
    var s := a + pat + b;
    assert s[|a|..|a| + |pat|] == pat;
    IndexOfAt(s, pat, |a|);
    assert s[..|a|] == a;
    assert s[|a| + |pat|..] == b;
  }

  /** An occurrence in `b` is an occurrence in `a + b`, shifted by `|a|`. */
  lemma {:induction false} OccursShift(a: string, b: string, p: string, q: nat)
    ensures OccursAt(a + b, p, |a| + q) <==> OccursAt(b, p, q)
  {
    if q + |p| <= |b| {
      assert (a + b)[|a| + q..|a| + q + |p|] == b[q..q + |p|];
    }
  }

  /** Behind a prefix without the character, its first occurrence is found where it is in `b`. */
  lemma {:induction false} IndexOfBehind(a: string, b: string, c: char)
    requires c !in a
    ensures IndexOf(b, [c]).None? ==> IndexOf(a + b, [c]).None?
    ensures IndexOf(b, [c]).Some? ==> IndexOf(a + b, [c]) == Some(|a| + IndexOf(b, [c]).value)
  {
    var s := a + b;
    forall q | 0 <= q < |a|
      ensures !OccursAt(s, [c], q)
    {
      assert s[q..q + 1][0] == a[q];
    }
    forall q | |a| <= q
      ensures OccursAt(s, [c], q) <==> OccursAt(b, [c], q - |a|)
    {
      OccursShift(a, b, [c], q - |a|);
    }
    if IndexOf(b, [c]).Some? {
      IndexOfAt(s, [c], |a| + IndexOf(b, [c]).value);
    }
  }

  /** A prefix without the character is kept, and the replacement happens behind it. */
  lemma {:induction false} ReplaceFirstBehind(a: string, b: string, c: char, rep: string)
    requires c !in a
    ensures ReplaceFirst(a + b, [c], rep) == a + ReplaceFirst(b, [c], rep)
  {
    IndexOfBehind(a, b, c);
    if IndexOf(b, [c]).Some? {
      var k := IndexOf(b, [c]).value;
      var s := a + b;
      assert ReplaceFirst(s, [c], rep) == s[..|a| + k] + rep + s[|a| + k + 1..];
      assert ReplaceFirst(b, [c], rep) == b[..k] + rep + b[k + 1..];
      assert s[..|a| + k] == a + b[..k];
      assert s[|a| + k + 1..] == b[k + 1..];
      ConcatAssoc(a, b[..k], rep);
      ConcatAssoc(a, b[..k] + rep, b[k + 1..]);
    }
  }

  /**
   * Python `s.replace(pat, rep)` for a nonempty `pat`: every non-overlapping
   * occurrence, leftmost first.
   */
  function ReplaceAll(s: string, pat: string, rep: string): (r: string)
    requires |pat| > 0
    decreases |s|
  {
    match IndexOf(s, pat)
    case None => s
    case Some(k) => s[..k] + rep + ReplaceAll(s[k + |pat|..], pat, rep)
  }

  /** Replacing a text that does not occur changes nothing. */
  lemma {:induction false} ReplaceAllAbsent(s: string, pat: string, rep: string)
    requires |pat| > 0 && !Contains(s, pat)
    ensures ReplaceAll(s, pat, rep) == s
  {
  }

  /** A character in neither the text nor the replacement is not in the result. */
  lemma {:induction false} ReplaceAllKeepsOut(s: string, pat: string, rep: string, d: char)
    requires |pat| > 0 && d !in s && d !in rep
    ensures d !in ReplaceAll(s, pat, rep)
    decreases |s|
  {
    match IndexOf(s, pat)
    case None =>
    case Some(k) =>
      var front, rest := s[..k], s[k + |pat|..];
      assert s == front + s[k..k + |pat|] + rest;
      assert d !in front && d !in rest;
      ReplaceAllKeepsOut(rest, pat, rep, d);
      assert ReplaceAll(s, pat, rep) == front + rep + ReplaceAll(rest, pat, rep);
  }

  /** Replacing every occurrence of a character by text without it removes the character. */
  lemma {:induction false} ReplaceAllRemoves(s: string, c: char, rep: string)
    requires c !in rep
    ensures c !in ReplaceAll(s, [c], rep)
    decreases |s|
  {
    match IndexOf(s, [c])
    case None =>
      forall q | 0 <= q < |s|
        ensures s[q] != c
      {
        assert !OccursAt(s, [c], q);
        assert s[q..q + 1] == [s[q]];
      }
    case Some(k) =>
      var front, rest := s[..k], s[k + 1..];
      ReplaceAllRemoves(rest, c, rep);
      forall q | 0 <= q < k
        ensures front[q] != c
      {
        assert !OccursAt(s, [c], q);
        assert s[q..q + 1] == [s[q]];
      }
      assert ReplaceAll(s, [c], rep) == front + rep + ReplaceAll(rest, [c], rep);
  }

  // ---------------------------------------------------------- split and join

  /** `s.split(sep)` for a nonempty separator (Python and JavaScript agree). */
  function Split(s: string, sep: string): (r: seq<string>)
    requires |sep| > 0
    ensures |r| >= 1
    decreases |s|
  {
    match IndexOf(s, sep)
    case None => [s]
    case Some(k) => [s[..k]] + Split(s[k + |sep|..], sep)
  }

  /** `sep.join(parts)` / `parts.join(sep)`. */
  function Join(parts: seq<string>, sep: string): string
  {
    if |parts| == 0 then ""
    else if |parts| == 1 then parts[0]
    else parts[0] + sep + Join(parts[1..], sep)
  }

  /** Splitting and joining back with the same separator restores the text. */
  lemma {:induction false} JoinSplit(s: string, sep: string)
    requires |sep| > 0
    ensures Join(Split(s, sep), sep) == s
    decreases |s|
  {
    match IndexOf(s, sep)
    case None =>
    case Some(k) =>
      var rest := s[k + |sep|..];
      var tail := Split(rest, sep);
      JoinSplit(rest, sep);
      assert Split(s, sep) == [s[..k]] + tail;
      assert Join([s[..k]] + tail, sep) == s[..k] + sep + Join(tail, sep);
      assert s[k..k + |sep|] == sep;
      assert s == s[..k] + s[k..k + |sep|] + rest;
  }

  /** No piece of a split contains the separator. */
  lemma {:induction false} SplitPiecesFree(s: string, sep: string)
    requires |sep| > 0
    ensures forall i :: 0 <= i < |Split(s, sep)| ==> !Contains(Split(s, sep)[i], sep)
    decreases |s|
  {
    match IndexOf(s, sep)
    case None =>
    case Some(k) =>
      var rest := s[k + |sep|..];
      SplitPiecesFree(rest, sep);
      if Contains(s[..k], sep) {
        var q := IndexOf(s[..k], sep).value;
        assert s[..k] + s[k..] == s;
        OccursInPrefix(s[..k], s[k..], sep, q);
      }
  }

  /** Joining pieces free of a one-character separator and splitting again gives the pieces back. */
  lemma {:induction false} SplitJoin(parts: seq<string>, c: char)
    requires |parts| >= 1
    requires forall i :: 0 <= i < |parts| ==> c !in parts[i]
    ensures Split(Join(parts, [c]), [c]) == parts
  {
    if |parts| == 1 {
      NoCharNoOccurrence(parts[0], c);
    } else {
      var j := Join(parts, [c]);
      var tail := Join(parts[1..], [c]);
      assert j == parts[0] + [c] + tail;
      assert OccursAt(j, [c], |parts[0]|);
      forall q | 0 <= q < |parts[0]| ensures !OccursAt(j, [c], q) {
        assert j[q] == parts[0][q];
      }
      IndexOfAt(j, [c], |parts[0]|);
      assert j[..|parts[0]|] == parts[0];
      assert j[|parts[0]| + 1..] == tail;
      SplitJoin(parts[1..], c);
    }
  }

  lemma {:induction false} NoCharNoOccurrence(s: string, c: char)
    requires c !in s
    ensures IndexOf(s, [c]) == None
  {
    NoCharNoOccurrenceFrom(s, c, 0);
  }

  lemma {:induction false} NoCharNoOccurrenceFrom(s: string, c: char, from: nat)
    requires c !in s
    ensures IndexOfFrom(s, [c], from) == None
    decreases |s| - from
  {
    if from + 1 <= |s| {
      assert s[from..from + 1][0] == s[from];
      NoCharNoOccurrenceFrom(s, c, from + 1);
    }
  }

  /** Joining two nonempty lists puts one separator between them. */
  lemma {:induction false} JoinAppend(a: seq<string>, b: seq<string>, sep: string)
    requires |a| >= 1 && |b| >= 1
    ensures Join(a + b, sep) == Join(a, sep) + sep + Join(b, sep)
  {
    if |a| == 1 {
      assert (a + b)[1..] == b;
    } else {
      assert (a + b)[1..] == a[1..] + b;
      JoinAppend(a[1..], b, sep);
    }
  }

  /** Every piece occurs in the joined text. */
  lemma {:induction false} PieceInJoin(parts: seq<string>, sep: string, i: nat)
    requires i < |parts|
    ensures Contains(Join(parts, sep), parts[i])
  {
    if |parts| == 1 {
      assert OccursAt(parts[0], parts[0], 0);
    } else if i == 0 {
      assert OccursAt(parts[0], parts[0], 0);
      OccursInPrefix(parts[0], sep + Join(parts[1..], sep), parts[0], 0);
      assert Join(parts, sep) == parts[0] + (sep + Join(parts[1..], sep));
    } else {
      PieceInJoin(parts[1..], sep, i - 1);
      var k := IndexOf(Join(parts[1..], sep), parts[i]).value;
      OccursInSuffix(parts[0] + sep, Join(parts[1..], sep), parts[i], k);
    }
    ContainsOccurs(Join(parts, sep), parts[i]);
  }

  /** A nonempty answer from `Contains` is an occurrence. */
  lemma {:induction false} ContainsOccurs(s: string, p: string)
    ensures Contains(s, p) <==> exists k :: OccursAt(s, p, k)
  {
    if exists k :: OccursAt(s, p, k) {
      var k :| OccursAt(s, p, k);
      OccursContains(s, p, k);
    }
  }

  /** What occurs in something that occurs in `x` occurs in `x`. */
  lemma {:induction false} ContainsTrans(x: string, y: string, z: string)
    requires Contains(x, y) && Contains(y, z)
    ensures Contains(x, z)
  {
    var i := IndexOf(x, y).value;
    var j := IndexOf(y, z).value;
    assert x[i + j..i + j + |z|] == y[j..j + |z|];
    OccursContains(x, z, i + j);
  }

  /** A prefix occurs in the text it starts. */
  lemma {:induction false} PrefixContained(a: string, b: string)
    ensures Contains(a + b, a)
  {
    assert (a + b)[..|a|] == a;
    OccursContains(a + b, a, 0);
  }

  /** The left and right parts of a concatenation both occur in it. */
  lemma {:induction false} PartsContained(a: string, b: string)
    ensures Contains(a + b, a) && Contains(a + b, b)
  {
    PrefixContained(a, b);
    assert (a + b)[|a|..|a| + |b|] == b;
    OccursContains(a + b, b, |a|);
  }

  /** Lowercasing works character by character. */
  lemma {:induction false} LowerConcat(a: string, b: string)
    ensures Lower(a + b) == Lower(a) + Lower(b)
  {
    forall i | 0 <= i < |a + b|
      ensures Lower(a + b)[i] == (Lower(a) + Lower(b))[i]
    {
      if i < |a| {
        assert (a + b)[i] == a[i];
      } else {
        assert (a + b)[i] == b[i - |a|];
      }
    }
    assert Lower(a + b) == Lower(a) + Lower(b);
  }

  /** Lowercasing twice changes nothing more. */
  lemma {:induction false} LowerIdempotent(s: string)
    ensures Lower(Lower(s)) == Lower(s)
  {
    assert forall i :: 0 <= i < |s| ==> LowerChar(LowerChar(s[i])) == LowerChar(s[i]);
  }

  /** Text whose every character is its own lower case is its own lower case. */
  lemma {:induction false} LowerFixed(s: string)
    requires forall i :: 0 <= i < |s| ==> LowerChar(s[i]) == s[i]
    ensures Lower(s) == s
  {
  }

  /** Lowercasing never makes a character that was not there: `c` only comes from `c`. */
  lemma {:induction false} LowerKeepsAbsent(s: string, c: char)
    requires c !in s && !('a' <= c <= 'z') && c < '\U{80}'
    ensures c !in Lower(s)
  {
  }

  /** The first piece, when the separator character first occurs right after `a`. */
  lemma {:induction false} SplitFirstAt(a: string, c: char, b: string)
    requires c !in a
    ensures Split(a + [c] + b, [c])[0] == a
  {
    var s := a + [c] + b;
    assert OccursAt(s, [c], |a|) by { assert s[|a|..|a| + 1] == [c]; }
    forall q | 0 <= q < |a|
      ensures !OccursAt(s, [c], q)
    {
      assert s[q..q + 1][0] == a[q];
    }
    IndexOfAt(s, [c], |a|);
    assert s[..|a|] == a;
  }

  /** A text without the separator character is a single piece. */
  lemma {:induction false} SplitNone(s: string, c: char)
    requires c !in s
    ensures Split(s, [c]) == [s]
  {
    NoCharNoOccurrence(s, c);
  }

  lemma {:induction false} ConcatAssoc<T>(a: seq<T>, b: seq<T>, c: seq<T>)
    ensures a + (b + c) == a + b + c
  {
  }

  /** A common front distributes over a split of what follows it. */
  lemma {:induction false} PrefixJoin<T>(head: seq<T>, a: seq<T>, b: seq<T>, c: seq<T>, x: seq<T>, y: seq<T>)
    requires x == head + a && a == b + c && y == head + b
    ensures x == y + c
  {
    ConcatAssoc(head, b, c);
  }

  /** A split of the second part of a split is a three-way split. */
  lemma {:induction false} SplitTwice<T>(x: seq<T>, a: seq<T>, y: seq<T>, b: seq<T>, c: seq<T>)
    requires x == a + y && y == b + c
    ensures x == a + b + c
  {
    ConcatAssoc(a, b, c);
  }

  /** A suffix is its first element followed by the next suffix. */
  lemma {:induction false} SuffixSplit<T>(w: seq<T>, k: nat)
    requires k < |w|
    ensures w[k..] == [w[k]] + w[k + 1..]
  {
  }

  /** The number of times `c` occurs in `s`. */
  function CountChar(s: string, c: char): nat
  {
    if |s| == 0 then 0 else (if s[0] == c then 1 else 0) + CountChar(s[1..], c)
  }

  lemma {:induction false} CountCharConcat(a: string, b: string, c: char)
    ensures CountChar(a + b, c) == CountChar(a, c) + CountChar(b, c)
  {
    if |a| > 0 {
      assert (a + b)[0] == a[0];
      assert (a + b)[1..] == a[1..] + b;
      CountCharConcat(a[1..], b, c);
    } else {
      assert a + b == b;
    }
  }

  lemma {:induction false} NotInCount(s: string, c: char)
    requires c !in s
    ensures CountChar(s, c) == 0
  {
    if |s| > 0 { assert s[0] != c; assert c !in s[1..]; NotInCount(s[1..], c); }
  }

  // ---------------------------------------------------------- numbers and lengths

  /** JavaScript `String(n)` / Python `str(n)` for a natural number. */
  function NatToString(n: nat): (r: string)
    ensures |r| >= 1
    ensures forall i :: 0 <= i < |r| ==> IsAsciiDigit(r[i])
    decreases n
  {
    if n < 10 then [DigitChar(n)] else NatToString(n / 10) + [DigitChar(n % 10)]
  }

  function DigitChar(d: nat): (c: char)
    requires d < 10
    ensures IsAsciiDigit(c)
  {
    ('0' as int + d) as char
  }

  /** JavaScript `String(i)` for an integer. */
  function IntToString(i: int): (r: string)
    ensures |r| >= 1
  {
    if i < 0 then "-" + NatToString(-i) else NatToString(i)
  }

  /** JavaScript's `.length`: UTF-16 code units, two for a character outside the Basic Multilingual Plane. */
  function Utf16Len(s: string): (n: nat)
    ensures |s| <= n <= 2 * |s|
  {
    if |s| == 0 then 0 else (if s[0] as int > 0xFFFF then 2 else 1) + Utf16Len(s[1..])
  }

  lemma {:induction false} Utf16LenConcat(a: string, b: string)
    ensures Utf16Len(a + b) == Utf16Len(a) + Utf16Len(b)
  {
    if |a| > 0 {
      assert (a + b)[0] == a[0];
      assert (a + b)[1..] == a[1..] + b;
      Utf16LenConcat(a[1..], b);
    } else {
      assert a + b == b;
    }
  }
}
