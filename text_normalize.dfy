// The bot's outgoing-text clean-ups: a message that repeats the panel login
// link keeps it once, and a message without a link gets the first link of its
// inline keyboard appended on a line of its own.

module TextNormalize {
  import opened Wrappers
  import opened Strings
  import opened Json

  // ---------------------------------------------------------- the login link pattern

  /** The path of a panel login link, up to its token. */
  const LoginPath: string := "/api/auth/login?token="

  /** `[a-f0-9]` under the `i` flag. */
  predicate IsHex(c: char)
  {
    '0' <= c <= '9' || 'a' <= c <= 'f' || 'A' <= c <= 'F'
  }

  /** The end of the run of hexadecimal digits starting at `i`. */
  function HexEnd(s: string, i: nat): (r: nat)
    requires i <= |s|
    ensures i <= r <= |s| && forall q :: i <= q < r ==> IsHex(s[q])
    decreases |s| - i
  {
    if i < |s| && IsHex(s[i]) then HexEnd(s, i + 1) else i
  }

  /** The end of the run of non-whitespace characters (`[^\s]`) starting at `i`. */
  function NonSpaceEnd(s: string, i: nat): (r: nat)
    requires i <= |s|
    ensures i <= r <= |s| && forall q :: i <= q < r ==> !IsJsSpace(s[q])
    decreases |s| - i
  {
    if i < |s| && !IsJsSpace(s[i]) then NonSpaceEnd(s, i + 1) else i
  }

  /** Where `https?://` ends when it matches at `i`, in any case. */
  function SchemeEnd(s: string, i: nat): (r: Option<nat>)
    ensures r.Some? ==> (r.value <= |s| &&
      ((r.value == i + 8 && CiOccursAt(s, "https://", i)) || (r.value == i + 7 && CiOccursAt(s, "http://", i))))
  {
    if CiOccursAt(s, "https://", i) then Some(i + 8)
    else if CiOccursAt(s, "http://", i) then Some(i + 7)
    else None
  }

  /** The login path, in any case, at `p`, with at least one hex digit after it. */
  predicate PathAt(s: string, p: nat)
  {
    CiOccursAt(s, LoginPath, p) && p + |LoginPath| < |s| && IsHex(s[p + |LoginPath|])
  }

  /**
   * The last `p` in `[lo, hi)` where the login path and a digit follow: the
   * greedy `[^\s]+` gives back characters from the right until they do.
   */
  function LastPath(s: string, lo: nat, hi: nat): (r: Option<nat>)
    ensures r.Some? ==> lo <= r.value < hi && PathAt(s, r.value)
    ensures r.Some? ==> forall q :: r.value < q < hi ==> !PathAt(s, q)
    ensures r.None? ==> forall q :: lo <= q < hi ==> !PathAt(s, q)
    decreases hi
  {
    if hi <= lo then None
    else if PathAt(s, hi - 1) then Some(hi - 1)
    else LastPath(s, lo, hi - 1)
  }

  /** Where `https?:\/\/[^\s]+\/api\/auth\/login\?token=[a-f0-9]+` (flag `i`) ends when it matches at `i`. */
  function MatchAt(s: string, i: nat): (r: Option<nat>)
    ensures r.Some? ==> i < r.value <= |s|
  {
    match SchemeEnd(s, i)
    case None => None
    case Some(j) =>
      match LastPath(s, j + 1, NonSpaceEnd(s, j))
      case None => None
      case Some(p) => Some(HexEnd(s, p + |LoginPath|))
  }

  /** `text.match(re) || []` for the global pattern, from `i`: the leftmost matches, one after another. */
  function LoginUrls(s: string, i: nat): seq<string>
    decreases |s| - i
  {
    if i >= |s| then []
    else
      match MatchAt(s, i)
      case Some(e) => [s[i..e]] + LoginUrls(s, e)
      case None => LoginUrls(s, i + 1)
  }

  /** What every match looks like: a scheme, no whitespace, a hex digit at the end. */
  predicate LinkShaped(u: string)
  {
    |u| > 0 && (CiOccursAt(u, "http://", 0) || CiOccursAt(u, "https://", 0)) &&
    IsHex(u[|u| - 1]) && forall q :: 0 <= q < |u| ==> !IsJsSpace(u[q])
  }

  /** Matching a pattern of visible ASCII characters leaves no whitespace in the matched text. */
  lemma {:induction false} CiNoSpace(s: string, pat: string, p: nat)
    requires CiOccursAt(s, pat, p)
    requires forall k :: 0 <= k < |pat| ==> '!' <= pat[k] <= '~'
    ensures forall q :: p <= q < p + |pat| ==> !IsJsSpace(s[q])
  {
    forall q | p <= q < p + |pat| ensures !IsJsSpace(s[q]) {
      assert AsciiLower(s[p..p + |pat|])[q - p] == pat[q - p];
      assert s[p..p + |pat|][q - p] == s[q];
    }
  }

  /** A case-insensitive match at `i` of the text is one at the front of the text cut at `i`. */
  lemma {:induction false} CiAtFront(s: string, pat: string, i: nat, e: nat)
    requires CiOccursAt(s, pat, i) && i + |pat| <= e <= |s|
    ensures CiOccursAt(s[i..e], pat, 0)
  {
    assert s[i..e][0..|pat|] == s[i..i + |pat|];
  }

  /** The scheme at `i` holds no whitespace, and the text cut from `i` starts with it. */
  lemma {:induction false} SchemeFacts(s: string, i: nat, e: nat)
    requires SchemeEnd(s, i).Some? && SchemeEnd(s, i).value <= e <= |s|
    ensures forall q :: i <= q < SchemeEnd(s, i).value ==> !IsJsSpace(s[q])
    ensures CiOccursAt(s[i..e], "http://", 0) || CiOccursAt(s[i..e], "https://", 0)
  {
    if CiOccursAt(s, "https://", i) {
      CiNoSpace(s, "https://", i);
      CiAtFront(s, "https://", i, e);
    } else {
      CiNoSpace(s, "http://", i);
      CiAtFront(s, "http://", i, e);
    }
  }

  /** Four runs without whitespace that overlap or touch cover the whole span. */
  lemma {:induction false} RunsNoSpace(s: string, i: nat, j: nat, r: nat, p: nat, l: nat, e: nat)
    requires i <= j < p < r <= |s| && p <= l <= e <= |s|
    requires forall q :: i <= q < j ==> !IsJsSpace(s[q])
    requires forall q :: j <= q < r ==> !IsJsSpace(s[q])
    requires forall q :: p <= q < l ==> !IsJsSpace(s[q])
    requires forall q :: l <= q < e ==> IsHex(s[q])
    ensures forall q :: i <= q < e ==> !IsJsSpace(s[q])
  {
    forall q | i <= q < e ensures !IsJsSpace(s[q]) {
      if l <= q {
        assert IsHex(s[q]);
      }
    }
  }

  lemma {:induction false} LoginPathVisible()
    ensures forall k :: 0 <= k < |LoginPath| ==> '!' <= LoginPath[k] <= '~'
  {
  }

  /** Every match at `i` is link-shaped. */
  lemma {:induction false} MatchShaped(s: string, i: nat)
    requires MatchAt(s, i).Some?
    ensures LinkShaped(s[i..MatchAt(s, i).value])
  {
    var j := SchemeEnd(s, i).value;
    var r := NonSpaceEnd(s, j);
    var p := LastPath(s, j + 1, r).value;
    var l := p + |LoginPath|;
    var e := HexEnd(s, l);
    assert e == MatchAt(s, i).value && e > l;
    SchemeFacts(s, i, e);
    LoginPathVisible();
    CiNoSpace(s, LoginPath, p);
    RunsNoSpace(s, i, j, r, p, l, e);
    SliceShaped(s, i, e);
  }

  lemma {:induction false} SliceShaped(s: string, i: nat, e: nat)
    requires i < e <= |s| && IsHex(s[e - 1])
    requires forall q :: i <= q < e ==> !IsJsSpace(s[q])
    requires CiOccursAt(s[i..e], "http://", 0) || CiOccursAt(s[i..e], "https://", 0)
    ensures LinkShaped(s[i..e])
  {
    var u := s[i..e];
    assert forall q :: 0 <= q < |u| ==> u[q] == s[i + q];
    assert u[|u| - 1] == s[e - 1];
  }

  /** Every link the scan reports is link-shaped. */
  lemma {:induction false} LoginUrlsShaped(s: string, i: nat)
    ensures forall k :: 0 <= k < |LoginUrls(s, i)| ==> LinkShaped(LoginUrls(s, i)[k])
    decreases |s| - i
  {
    if i < |s| {
      match MatchAt(s, i)
      case Some(e) =>
        MatchShaped(s, i);
        LoginUrlsShaped(s, e);
      case None =>
        LoginUrlsShaped(s, i + 1);
    }
  }

  // ---------------------------------------------------------- lines

  /** A piece's trailing carriage return, taken off. */
  function DropCr(piece: string): string
  {
    if |piece| > 0 && piece[|piece| - 1] == '\r' then piece[..|piece| - 1] else piece
  }

  /** `text.split(/\r?\n/)`: split at line feeds, a carriage return before one going with it. */
  function SplitLines(text: string): (r: seq<string>)
    ensures |r| == |Split(text, "\n")|
  {
    var ps := Split(text, "\n");
    seq(|ps|, k requires 0 <= k < |ps| => if k < |ps| - 1 then DropCr(ps[k]) else ps[k])
  }

  /** A line that, trimmed, is the login link itself. */
  predicate Bare(line: string, url: string)
  {
    JsTrim(line) == url
  }

  /** A line that shows the link after a `Panel:` label. */
  predicate HasPanelLine(lines: seq<string>, url: string)
  {
    exists k :: 0 <= k < |lines| && Contains(lines[k], "Panel:") && Contains(lines[k], url)
  }

  function CountBare(lines: seq<string>, url: string): nat
  {
    if |lines| == 0 then 0
    else CountBare(lines[..|lines| - 1], url) + (if Bare(lines[|lines| - 1], url) then 1 else 0)
  }

  /**
   * The lines the loop keeps: a bare link line is dropped when a `Panel:`
   * line already shows the link, or when an earlier bare link line was kept.
   */
  function Kept(lines: seq<string>, url: string, panel: bool): seq<string>
  {
    if |lines| == 0 then []
    else
      var pre := lines[..|lines| - 1];
      var ln := lines[|lines| - 1];
      Kept(pre, url, panel) + (if Bare(ln, url) && (panel || CountBare(pre, url) >= 1) then [] else [ln])
  }

  // ---------------------------------------------------------- blank-line runs

  /** The end of the run of line feeds starting at `i`. */
  function NewlineEnd(s: string, i: nat): (r: nat)
    requires i <= |s|
    ensures i <= r <= |s| && forall q :: i <= q < r ==> s[q] == '\n'
    ensures r < |s| ==> s[r] != '\n'
    decreases |s| - i
  {
    if i < |s| && s[i] == '\n' then NewlineEnd(s, i + 1) else i
  }

  /** `.replace(/\n{3,}/g, "\n\n")`: every run of three or more line feeds becomes two. */
  function Collapse(s: string): string
    decreases |s|
  {
    if |s| == 0 then ""
    else if s[0] == '\n' then
      var e := NewlineEnd(s, 0);
      (if e >= 3 then "\n\n" else s[..e]) + Collapse(s[e..])
    else [s[0]] + Collapse(s[1..])
  }

  /** No three line feeds in a row. */
  predicate NoTriple(t: string)
  {
    forall q :: 0 <= q < |t| - 2 ==> !(t[q] == '\n' && t[q + 1] == '\n' && t[q + 2] == '\n')
  }

  /** A short head in front of a text without triples makes none, if it cannot run into the text's own line feeds. */
  lemma {:induction false} NoTripleJoin(x: string, y: string)
    requires |x| <= 2 && NoTriple(y)
    requires (forall q :: 0 <= q < |x| ==> x[q] != '\n') || |y| == 0 || y[0] != '\n'
    ensures NoTriple(x + y)
  {
    var t := x + y;
    forall q | 0 <= q < |t| - 2 ensures !(t[q] == '\n' && t[q + 1] == '\n' && t[q + 2] == '\n') {
      if q >= |x| {
        assert t[q] == y[q - |x|] && t[q + 1] == y[q - |x| + 1] && t[q + 2] == y[q - |x| + 2];
      } else if forall p :: 0 <= p < |x| ==> x[p] != '\n' {
        assert t[q] == x[q];
      } else {
        assert t[|x|] == y[0];
      }
    }
  }

  /** After the replace no run of three line feeds is left, and a first character that is not one is kept. */
  lemma {:induction false} CollapseNoTriple(s: string)
    ensures NoTriple(Collapse(s))
    ensures |s| > 0 && s[0] != '\n' ==> |Collapse(s)| > 0 && Collapse(s)[0] == s[0]
    decreases |s|
  {
    if |s| > 0 {
      if s[0] == '\n' {
        var e := NewlineEnd(s, 0);
        CollapseNoTriple(s[e..]);
        var head := if e >= 3 then "\n\n" else s[..e];
        if e < |s| {
          assert s[e..][0] == s[e];
        }
        NoTripleJoin(head, Collapse(s[e..]));
      } else {
        CollapseNoTriple(s[1..]);
        NoTripleJoin([s[0]], Collapse(s[1..]));
      }
    }
  }

  /** A text without three line feeds in a row is left as it is. */
  lemma {:induction false} CollapseKeeps(s: string)
    requires NoTriple(s)
    ensures Collapse(s) == s
    decreases |s|
  {
    if |s| > 0 {
      var n := if s[0] == '\n' then NewlineEnd(s, 0) else 1;
      if |s| >= 3 {
        assert !(s[0] == '\n' && s[1] == '\n' && s[2] == '\n');
      }
      assert s[0] == '\n' ==> n < 3;
      var rest := s[n..];
      NoTripleSuffix(s, n);
      CollapseKeeps(rest);
      assert s == s[..n] + rest;
    }
  }

  lemma {:induction false} NoTripleSuffix(s: string, n: nat)
    requires NoTriple(s) && n <= |s|
    ensures NoTriple(s[n..])
  {
    var rest := s[n..];
    forall q | 0 <= q < |rest| - 2 ensures !(rest[q] == '\n' && rest[q + 1] == '\n' && rest[q + 2] == '\n') {
      assert rest[q] == s[q + n] && rest[q + 1] == s[q + n + 1] && rest[q + 2] == s[q + n + 2];
    }
  }

  // ---------------------------------------------------------- dedupePanelLoginUrlText

  /**
   * The message after the dedupe: unchanged with at most one login link;
   * otherwise the kept lines rejoined, blank-line runs shortened, trimmed,
   * and `Panel: <link>` when nothing is left.
   */
  function Deduped(text: string): (r: string)
    ensures |LoginUrls(text, 0)| <= 1 ==> r == text
    ensures |LoginUrls(text, 0)| > 1 ==> r != ""
    ensures |LoginUrls(text, 0)| > 1 && !Contains(LoginUrls(text, 0)[0], "Panel:") ==> Contains(r, LoginUrls(text, 0)[0])
  {
    var m := LoginUrls(text, 0);
    if |m| <= 1 then text
    else
      var url := m[0];
      var lines := SplitLines(text);
      var nt := JsTrim(Collapse(Join(Kept(lines, url, HasPanelLine(lines, url)), "\n")));
      if nt == "" then
        PartsContained("Panel: ", url);
        "Panel: " + url
      else
        if !Contains(url, "Panel:") then LinkSurvives(text); nt else nt
  }

  /** `dedupePanelLoginUrlText`: the loop over the lines with its `rawSeen` counter. */
  method DedupePanelLoginUrl(text: string) returns (r: string)
    ensures r == Deduped(text)
  {
    var m := LoginUrls(text, 0);
    if |m| <= 1 {
      return text;
    }
    var url := m[0];
    var lines := SplitLines(text);
    var panel := HasPanelLine(lines, url);
    var out: seq<string> := [];
    var rawSeen := 0;
    var i := 0;
    while i < |lines|
      invariant i <= |lines|
      invariant out == Kept(lines[..i], url, panel)
      invariant rawSeen == if panel then 0 else CountBare(lines[..i], url)
    {
      var ln := lines[i];
      KeptStep(lines, i, url, panel);
      var skip := false;
      if JsTrim(ln) == url {
        if panel {
          skip := true;
        } else {
          rawSeen := rawSeen + 1;
          if rawSeen > 1 {
            skip := true;
          }
        }
      }
      if !skip {
        out := out + [ln];
      }
      i := i + 1;
    }
    assert lines[..|lines|] == lines;
    var nt := JsTrim(Collapse(Join(out, "\n")));
    r := if nt == "" then "Panel: " + url else nt;
  }

  /** One more line: it is counted if bare, and kept unless it is a bare line to drop. */
  lemma {:induction false} KeptStep(lines: seq<string>, i: nat, url: string, panel: bool)
    requires i < |lines|
    ensures CountBare(lines[..i + 1], url) == CountBare(lines[..i], url) + (if Bare(lines[i], url) then 1 else 0)
    ensures Kept(lines[..i + 1], url, panel) == Kept(lines[..i], url, panel) +
      (if Bare(lines[i], url) && (panel || CountBare(lines[..i], url) >= 1) then [] else [lines[i]])
  {
    assert lines[..i + 1][..i] == lines[..i];
  }

  /** With a `Panel:` line showing the link, every bare link line goes and every other line stays. */
  lemma {:induction false} KeptWithPanel(lines: seq<string>, url: string)
    ensures forall k :: 0 <= k < |Kept(lines, url, true)| ==> !Bare(Kept(lines, url, true)[k], url)
    ensures |Kept(lines, url, true)| + CountBare(lines, url) == |lines|
    decreases |lines|
  {
    if |lines| > 0 {
      KeptWithPanel(lines[..|lines| - 1], url);
    }
  }

  /** Without one, the first bare link line stays, the later ones go, and every other line stays. */
  lemma {:induction false} KeptFirstBare(lines: seq<string>, url: string)
    ensures CountBare(Kept(lines, url, false), url) == if CountBare(lines, url) == 0 then 0 else 1
    ensures |Kept(lines, url, false)| + CountBare(lines, url) == |lines| + (if CountBare(lines, url) == 0 then 0 else 1)
    decreases |lines|
  {
    if |lines| > 0 {
      var pre := lines[..|lines| - 1];
      var ln := lines[|lines| - 1];
      KeptFirstBare(pre, url);
      var tail := if Bare(ln, url) && CountBare(pre, url) >= 1 then [] else [ln];
      CountBareConcat(Kept(pre, url, false), tail, url);
    }
  }

  lemma {:induction false} CountBareConcat(a: seq<string>, b: seq<string>, url: string)
    requires |b| <= 1
    ensures CountBare(a + b, url) == CountBare(a, url) + CountBare(b, url)
  {
    if |b| == 0 {
      assert a + b == a;
    } else {
      assert (a + b)[..|a + b| - 1] == a;
      assert b[..0] == [];
    }
  }

  /** A message with no bare link line keeps all of its lines. */
  lemma {:induction false} KeptNoBare(lines: seq<string>, url: string, panel: bool)
    requires CountBare(lines, url) == 0
    ensures Kept(lines, url, panel) == lines
    decreases |lines|
  {
    if |lines| > 0 {
      KeptNoBare(lines[..|lines| - 1], url, panel);
      assert lines == lines[..|lines| - 1] + [lines[|lines| - 1]];
    }
  }

  /** The lines a `Panel:` line leaves: every line that is not a bare link line, in order. */
  function WithoutBare(lines: seq<string>, url: string): (r: seq<string>)
    ensures forall k :: 0 <= k < |r| ==> !Bare(r[k], url)
  {
    if |lines| == 0 then []
    else
      var ln := lines[|lines| - 1];
      WithoutBare(lines[..|lines| - 1], url) + (if Bare(ln, url) then [] else [ln])
  }

  /** With a `Panel:` line showing the link, the kept lines are exactly the lines that are not bare. */
  lemma {:induction false} KeptPanelWithoutBare(lines: seq<string>, url: string)
    ensures Kept(lines, url, true) == WithoutBare(lines, url)
    decreases |lines|
  {
    if |lines| > 0 {
      KeptPanelWithoutBare(lines[..|lines| - 1], url);
    }
  }

  /**
   * Without one, all lines up to and including the first bare link line at
   * `k` are kept, and after it only the lines that are not bare.
   */
  lemma {:induction false} KeptAfterFirstBare(lines: seq<string>, url: string, k: nat)
    requires k < |lines| && Bare(lines[k], url) && CountBare(lines[..k], url) == 0
    ensures Kept(lines[..k + 1], url, false) == lines[..k + 1]
    ensures Kept(lines, url, false) == lines[..k + 1] + WithoutBare(lines[k + 1..], url)
    decreases |lines|
  {
    if |lines| == k + 1 {
      KeptFirstBareLine(lines, url, k);
      assert lines[..k + 1] == lines;
      assert lines[k + 1..] == [];
    } else {
      var pre := lines[..|lines| - 1];
      assert pre[..k] == lines[..k] && pre[k] == lines[k];
      assert pre[..k + 1] == lines[..k + 1];
      KeptAfterFirstBare(pre, url, k);
      BareCounted(pre, url, k);
      KeptAfterStep(lines, url, k);
    }
  }

  /** The first bare line, with only unbare lines before it, keeps all of them and itself. */
  lemma {:induction false} KeptFirstBareLine(lines: seq<string>, url: string, k: nat)
    requires |lines| == k + 1 && Bare(lines[k], url) && CountBare(lines[..k], url) == 0
    ensures Kept(lines, url, false) == lines
  {
    var pre := lines[..k];
    assert lines[..|lines| - 1] == pre;
    assert Kept(lines, url, false) == Kept(pre, url, false) + [lines[k]];
    KeptNoBare(pre, url, false);
    assert lines == pre + [lines[k]];
  }

  /** One more line behind the first bare line is kept exactly when it is not bare. */
  lemma {:induction false} KeptAfterStep(lines: seq<string>, url: string, k: nat)
    requires k + 1 < |lines|
    requires CountBare(lines[..|lines| - 1], url) >= 1
    requires Kept(lines[..|lines| - 1], url, false)
             == lines[..|lines| - 1][..k + 1] + WithoutBare(lines[..|lines| - 1][k + 1..], url)
    ensures Kept(lines, url, false) == lines[..k + 1] + WithoutBare(lines[k + 1..], url)
  {
    var pre := lines[..|lines| - 1];
    var ln := lines[|lines| - 1];
    var t := if Bare(ln, url) then [] else [ln];
    assert Kept(lines, url, false) == Kept(pre, url, false) + t;
    var post := lines[k + 1..];
    assert post[..|post| - 1] == pre[k + 1..];
    assert post[|post| - 1] == ln;
    assert WithoutBare(post, url) == WithoutBare(pre[k + 1..], url) + t;
    assert pre[..k + 1] == lines[..k + 1];
    ConcatAssoc(lines[..k + 1], WithoutBare(pre[k + 1..], url), t);
  }

  /** A bare line among the lines is counted. */
  lemma {:induction false} BareCounted(lines: seq<string>, url: string, k: nat)
    requires k < |lines| && Bare(lines[k], url)
    ensures CountBare(lines, url) >= 1
    decreases |lines|
  {
    if k < |lines| - 1 {
      BareCounted(lines[..|lines| - 1], url, k);
    }
  }

  /** A counted bare line is among the lines. */
  lemma {:induction false} CountedBare(lines: seq<string>, url: string) returns (k: nat)
    requires CountBare(lines, url) >= 1
    ensures k < |lines| && Bare(lines[k], url)
    decreases |lines|
  {
    if Bare(lines[|lines| - 1], url) {
      k := |lines| - 1;
    } else {
      k := CountedBare(lines[..|lines| - 1], url);
    }
  }

  /** A line that is not a bare link line is kept. */
  lemma {:induction false} KeptHas(lines: seq<string>, url: string, panel: bool, k: nat) returns (i: nat)
    requires k < |lines| && !Bare(lines[k], url)
    ensures i < |Kept(lines, url, panel)| && Kept(lines, url, panel)[i] == lines[k]
    decreases |lines|
  {
    var pre := lines[..|lines| - 1];
    if k == |lines| - 1 {
      i := |Kept(pre, url, panel)|;
    } else {
      assert pre[k] == lines[k];
      i := KeptHas(pre, url, panel, k);
    }
  }

  // ---------------------------------------------------------- the link survives

  /** The first match occurs in the text. */
  lemma {:induction false} FirstUrlAt(s: string, i: nat) returns (p: nat)
    requires |LoginUrls(s, i)| > 0
    ensures OccursAt(s, LoginUrls(s, i)[0], p)
    decreases |s| - i
  {
    match MatchAt(s, i)
    case Some(e) =>
      p := i;
    case None =>
      p := FirstUrlAt(s, i + 1);
  }

  /** A text without line feeds that occurs in `s` occurs in one of its pieces between line feeds. */
  lemma {:induction false} PieceHolding(s: string, u: string, p: nat) returns (j: nat)
    requires OccursAt(s, u, p)
    requires forall q :: 0 <= q < |u| ==> u[q] != '\n'
    ensures j < |Split(s, "\n")| && Contains(Split(s, "\n")[j], u)
    decreases |s|
  {
    match IndexOf(s, "\n")
    case None =>
      j := 0;
      OccursContains(s, u, p);
    case Some(k) =>
      assert s[k..k + 1][0] == s[k];
      if p + |u| <= k {
        assert s[..k][p..p + |u|] == s[p..p + |u|];
        OccursContains(s[..k], u, p);
        j := 0;
      } else {
        var rest := s[k + 1..];
        assert rest[p - k - 1..p - k - 1 + |u|] == s[p..p + |u|];
        var j' := PieceHolding(rest, u, p - k - 1);
        j := j' + 1;
      }
  }

  /** Taking off a trailing carriage return keeps an occurrence of a text that does not end with one. */
  lemma {:induction false} DropCrKeeps(piece: string, u: string)
    requires Contains(piece, u) && |u| > 0 && u[|u| - 1] != '\r'
    ensures Contains(DropCr(piece), u)
  {
    if |piece| > 0 && piece[|piece| - 1] == '\r' {
      var k := IndexOf(piece, u).value;
      assert u[|u| - 1] == piece[k..k + |u|][|u| - 1] == piece[k + |u| - 1];
      assert piece[..|piece| - 1][k..k + |u|] == piece[k..k + |u|];
      OccursContains(piece[..|piece| - 1], u, k);
    }
  }

  /** A text without whitespace that occurs in the message occurs in one of its lines. */
  lemma {:induction false} LineHolding(text: string, u: string, p: nat) returns (j: nat)
    requires OccursAt(text, u, p) && |u| > 0
    requires forall q :: 0 <= q < |u| ==> !IsJsSpace(u[q])
    ensures j < |SplitLines(text)| && Contains(SplitLines(text)[j], u)
  {
    j := PieceHolding(text, u, p);
    var ps := Split(text, "\n");
    if j < |ps| - 1 {
      DropCrKeeps(ps[j], u);
    }
  }

  /** Collapsing line-feed runs keeps a text without line feeds at the front. */
  lemma {:induction false} CollapsePrefix(s: string, u: string)
    requires |u| <= |s| && s[..|u|] == u
    requires forall q :: 0 <= q < |u| ==> u[q] != '\n'
    ensures |u| <= |Collapse(s)| && Collapse(s)[..|u|] == u
    decreases |s|
  {
    if |u| > 0 {
      assert s[0] == u[0];
      assert s[1..][..|u| - 1] == u[1..];
      CollapsePrefix(s[1..], u[1..]);
      assert Collapse(s) == [s[0]] + Collapse(s[1..]);
      assert u == [u[0]] + u[1..];
    }
  }

  /** Collapsing line-feed runs keeps every occurrence of a text without line feeds. */
  lemma {:induction false} CollapseHolds(s: string, u: string, p: nat)
    requires OccursAt(s, u, p) && |u| > 0
    requires forall q :: 0 <= q < |u| ==> u[q] != '\n'
    ensures Contains(Collapse(s), u)
    decreases |s|
  {
    if p == 0 {
      CollapsePrefix(s, u);
      OccursContains(Collapse(s), u, 0);
    } else if s[0] == '\n' {
      var e := NewlineEnd(s, 0);
      assert s[p] == s[p..p + |u|][0] == u[0];
      assert p >= e;
      assert s[e..][p - e..p - e + |u|] == s[p..p + |u|];
      CollapseHolds(s[e..], u, p - e);
      PartsContained(if e >= 3 then "\n\n" else s[..e], Collapse(s[e..]));
      ContainsTrans(Collapse(s), Collapse(s[e..]), u);
    } else {
      assert s[1..][p - 1..p - 1 + |u|] == s[p..p + |u|];
      CollapseHolds(s[1..], u, p - 1);
      PartsContained([s[0]], Collapse(s[1..]));
      ContainsTrans(Collapse(s), Collapse(s[1..]), u);
    }
  }

  /** A bare line holds the link. */
  lemma {:induction false} BareHolds(line: string, url: string)
    requires Bare(line, url)
    ensures Contains(line, url)
  {
    TrimmedIn(line, IsJsSpace);
  }

  /** `Panel:` holds no whitespace. */
  lemma {:induction false} PanelLabelVisible()
    ensures forall q :: 0 <= q < |"Panel:"| ==> !IsJsSpace("Panel:"[q])
  {
  }

  /**
   * Some kept line holds the first link, unless the link itself holds
   * `Panel:` and so makes its own bare line count as a `Panel:` line.
   */
  lemma {:induction false} KeptHoldsLink(lines: seq<string>, url: string, j: nat) returns (i: nat)
    requires j < |lines| && Contains(lines[j], url) && |url| > 0
    requires !Contains(url, "Panel:")
    ensures i < |Kept(lines, url, HasPanelLine(lines, url))|
    ensures Contains(Kept(lines, url, HasPanelLine(lines, url))[i], url)
  {
    if HasPanelLine(lines, url) {
      var k :| 0 <= k < |lines| && Contains(lines[k], "Panel:") && Contains(lines[k], url);
      if Bare(lines[k], url) {
        PanelLabelVisible();
        TrimKeeps(lines[k], "Panel:", IsJsSpace);
      }
      i := KeptHas(lines, url, true, k);
    } else if !Bare(lines[j], url) {
      i := KeptHas(lines, url, false, j);
    } else {
      BareCounted(lines, url, j);
      KeptFirstBare(lines, url);
      i := CountedBare(Kept(lines, url, false), url);
      BareHolds(Kept(lines, url, false)[i], url);
    }
  }

  /** The first link, when it does not hold `Panel:`, is still in the text the dedupe builds. */
  lemma {:induction false} LinkSurvives(text: string)
    requires |LoginUrls(text, 0)| > 1 && !Contains(LoginUrls(text, 0)[0], "Panel:")
    ensures var url := LoginUrls(text, 0)[0];
            var lines := SplitLines(text);
            Contains(JsTrim(Collapse(Join(Kept(lines, url, HasPanelLine(lines, url)), "\n"))), url)
  {
    var url := LoginUrls(text, 0)[0];
    var lines := SplitLines(text);
    LoginUrlsShaped(text, 0);
    assert LinkShaped(url);
    var p := FirstUrlAt(text, 0);
    var j := LineHolding(text, url, p);
    var kept := Kept(lines, url, HasPanelLine(lines, url));
    var i := KeptHoldsLink(lines, url, j);
    var joined := Join(kept, "\n");
    PieceInJoin(kept, "\n", i);
    ContainsTrans(joined, kept[i], url);
    var q := IndexOf(joined, url).value;
    CollapseHolds(joined, url, q);
    TrimKeeps(Collapse(joined), url, IsJsSpace);
  }

  /**
   * A link whose own text holds `Panel:` makes its bare line count as a
   * `Panel:` line: when that line is the only one holding the link, no kept
   * line holds it.
   */
  lemma {:induction false} PanelNamedLinkLost(lines: seq<string>, url: string, k: nat)
    requires k < |lines| && Bare(lines[k], url) && Contains(url, "Panel:")
    requires forall i :: 0 <= i < |lines| && i != k ==> !Contains(lines[i], url)
    ensures HasPanelLine(lines, url)
    ensures forall i :: 0 <= i < |Kept(lines, url, HasPanelLine(lines, url))| ==>
              !Contains(Kept(lines, url, HasPanelLine(lines, url))[i], url)
  {
    BareHolds(lines[k], url);
    ContainsTrans(lines[k], url, "Panel:");
    KeptPanelWithoutBare(lines, url);
    WithoutBareLacks(lines, url);
  }

  /** When only bare lines hold the link, no line left after dropping them does. */
  lemma {:induction false} WithoutBareLacks(lines: seq<string>, url: string)
    requires forall i :: 0 <= i < |lines| && !Bare(lines[i], url) ==> !Contains(lines[i], url)
    ensures forall i :: 0 <= i < |WithoutBare(lines, url)| ==> !Contains(WithoutBare(lines, url)[i], url)
    decreases |lines|
  {
    if |lines| > 0 {
      var pre := lines[..|lines| - 1];
      assert forall i :: 0 <= i < |pre| ==> pre[i] == lines[i];
      WithoutBareLacks(pre, url);
    }
  }

  // ---------------------------------------------------------- appendUrlFromKeyboard

  /** `btn && typeof btn.url === "string" ? btn.url : ""`. */
  function ButtonUrl(btn: Value): string
  {
    if btn.Obj? then
      match FieldValue(btn.fields, "url")
      case Some(Str(u)) => u
      case _ => ""
    else ""
  }

  predicate IsLink(u: string)
  {
    StartsWith(u, "http://") || StartsWith(u, "https://")
  }

  /** The buttons of the keyboard's rows, row after row; a row that is not an array has none. */
  function Buttons(rows: seq<Value>): seq<Value>
  {
    if |rows| == 0 then []
    else
      var last := rows[|rows| - 1];
      Buttons(rows[..|rows| - 1]) + (if last.Arr? then last.items else [])
  }

  /** The first button link that starts with `http://` or `https://`. */
  function FirstLink(btns: seq<Value>): (r: Option<string>)
    ensures r.Some? ==> IsLink(r.value)
  {
    if |btns| == 0 then None
    else if IsLink(ButtonUrl(btns[0])) then Some(ButtonUrl(btns[0]))
    else FirstLink(btns[1..])
  }

  /** The message after the append, for the keyboard `kb` (`Null` when the payload has none). */
  function WithKeyboardUrl(text: string, kb: Value): (r: string)
    ensures Contains(text, "http://") || Contains(text, "https://") ==> r == text
    ensures !kb.Arr? || FirstLink(Buttons(kb.items)).None? ==> r == text
  {
    if Contains(text, "http://") || Contains(text, "https://") then text
    else if !kb.Arr? then text
    else
      match FirstLink(Buttons(kb.items))
      case Some(u) => TrimEnd(text, IsJsSpace) + "\n" + u
      case None => text
  }

  /** `appendUrlFromKeyboard`: the loop over rows and buttons that returns at the first link. */
  method AppendUrlFromKeyboard(text: string, kb: Value) returns (r: string)
    ensures r == WithKeyboardUrl(text, kb)
  {
    if Contains(text, "http://") || Contains(text, "https://") {
      return text;
    }
    if !kb.Arr? {
      return text;
    }
    var rows := kb.items;
    var i := 0;
    while i < |rows|
      invariant i <= |rows|
      invariant FirstLink(Buttons(rows[..i])).None?
    {
      var row := rows[i];
      if row.Arr? {
        var j := 0;
        while j < |row.items|
          invariant j <= |row.items|
          invariant FirstLink(row.items[..j]).None?
        {
          var u := ButtonUrl(row.items[j]);
          if IsLink(u) {
            FoundInRow(rows, i, j);
            return TrimEnd(text, IsJsSpace) + "\n" + u;
          }
          FirstLinkStep(row.items, j);
          j := j + 1;
        }
        assert row.items[..|row.items|] == row.items;
      }
      RowWithoutLink(rows, i);
      i := i + 1;
    }
    assert rows[..|rows|] == rows;
    return text;
  }

  /** The first link of two runs of buttons is the first run's, if it has one. */
  lemma {:induction false} FirstLinkConcat(a: seq<Value>, b: seq<Value>)
    ensures FirstLink(a + b) == if FirstLink(a).Some? then FirstLink(a) else FirstLink(b)
    decreases |a|
  {
    if |a| == 0 {
      assert a + b == b;
    } else {
      assert (a + b)[0] == a[0];
      assert (a + b)[1..] == a[1..] + b;
      FirstLinkConcat(a[1..], b);
    }
  }

  lemma {:induction false} ButtonsConcat(a: seq<Value>, b: seq<Value>)
    ensures Buttons(a + b) == Buttons(a) + Buttons(b)
    decreases |b|
  {
    if |b| == 0 {
      assert a + b == a;
    } else {
      var b0 := b[..|b| - 1];
      assert (a + b)[..|a + b| - 1] == a + b0;
      assert (a + b)[|a + b| - 1] == b[|b| - 1];
      ButtonsConcat(a, b0);
    }
  }

  lemma {:induction false} FirstLinkStep(items: seq<Value>, j: nat)
    requires j < |items| && FirstLink(items[..j]).None? && !IsLink(ButtonUrl(items[j]))
    ensures FirstLink(items[..j + 1]).None?
  {
    assert items[..j + 1] == items[..j] + [items[j]];
    FirstLinkConcat(items[..j], [items[j]]);
  }

  lemma {:induction false} RowWithoutLink(rows: seq<Value>, i: nat)
    requires i < |rows| && FirstLink(Buttons(rows[..i])).None?
    requires rows[i].Arr? ==> FirstLink(rows[i].items).None?
    ensures FirstLink(Buttons(rows[..i + 1])).None?
  {
    assert rows[..i + 1][..i] == rows[..i];
    FirstLinkConcat(Buttons(rows[..i]), if rows[i].Arr? then rows[i].items else []);
  }

  /** A link at button `j` of row `i`, with none before it, is the keyboard's first link. */
  lemma {:induction false} FoundInRow(rows: seq<Value>, i: nat, j: nat)
    requires i < |rows| && rows[i].Arr? && j < |rows[i].items|
    requires FirstLink(Buttons(rows[..i])).None? && FirstLink(rows[i].items[..j]).None?
    requires IsLink(ButtonUrl(rows[i].items[j]))
    ensures FirstLink(Buttons(rows)) == Some(ButtonUrl(rows[i].items[j]))
  {
    RowFirstLink(rows[i].items, j);
    KeyboardFirstLink(rows, i);
  }

  lemma {:induction false} RowFirstLink(items: seq<Value>, j: nat)
    requires j < |items| && FirstLink(items[..j]).None? && IsLink(ButtonUrl(items[j]))
    ensures FirstLink(items) == Some(ButtonUrl(items[j]))
  {
    assert items == items[..j] + items[j..];
    FirstLinkConcat(items[..j], items[j..]);
    assert items[j..][0] == items[j];
  }

  lemma {:induction false} KeyboardFirstLink(rows: seq<Value>, i: nat)
    requires i < |rows| && rows[i].Arr? && FirstLink(rows[i].items).Some?
    requires FirstLink(Buttons(rows[..i])).None?
    ensures FirstLink(Buttons(rows)) == FirstLink(rows[i].items)
  {
    var items := rows[i].items;
    assert rows[..i + 1][..i] == rows[..i];
    assert Buttons(rows[..i + 1]) == Buttons(rows[..i]) + items;
    FirstLinkConcat(Buttons(rows[..i]), items);
    assert rows == rows[..i + 1] + rows[i + 1..];
    ButtonsConcat(rows[..i + 1], rows[i + 1..]);
    FirstLinkConcat(Buttons(rows[..i + 1]), Buttons(rows[i + 1..]));
  }

  /** Appending is done once: the appended message holds a link and is left alone next time. */
  lemma {:induction false} AppendOnce(text: string, kb: Value)
    ensures WithKeyboardUrl(WithKeyboardUrl(text, kb), kb) == WithKeyboardUrl(text, kb)
  {
    var r := WithKeyboardUrl(text, kb);
    if r != text {
      var u := FirstLink(Buttons(kb.items)).value;
      var t := TrimEnd(text, IsJsSpace);
      var pre := if StartsWith(u, "http://") then "http://" else "https://";
      assert r[|t| + 1..|t| + 1 + |pre|] == u[..|pre|];
      OccursContains(r, pre, |t| + 1);
    }
  }

  /**
   * Without a link in the text, the first keyboard link goes on a line of its
   * own after the text with its trailing whitespace taken off.
   */
  lemma {:induction false} AppendsFirstLink(text: string, kb: Value)
    requires !Contains(text, "http://") && !Contains(text, "https://")
    requires kb.Arr? && FirstLink(Buttons(kb.items)).Some?
    ensures WithKeyboardUrl(text, kb) == TrimEnd(text, IsJsSpace) + "\n" + FirstLink(Buttons(kb.items)).value
    ensures |TrimEnd(text, IsJsSpace)| <= |text| && TrimEnd(text, IsJsSpace) == text[..|TrimEnd(text, IsJsSpace)|]
    ensures |TrimEnd(text, IsJsSpace)| == 0 || !IsJsSpace(TrimEnd(text, IsJsSpace)[|TrimEnd(text, IsJsSpace)| - 1])
  {
    TrimEndShape(text, IsJsSpace);
  }
}
