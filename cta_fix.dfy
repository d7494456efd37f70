// The line-based billing page fixer: a first pass over the lines adds the
// BillingCTA import after the i18n import and drops the checkout import; a
// second pass replaces the platinum checkout block, found by its opening line
// and ended by parenthesis depth, with one BillingCTA line.

module CtaFix {
  import opened Strings
  import opened CtaPatch

  /** The lines as `readlines` gives them, each with its line break. */
  const CtaImportLine: string := CtaImport + "\n"
  const PlatinumMarker: string := "{currentPlan === \"platinum\" ?"
  const CloseMarker: string := ")}"
  const CtaLine: string := CtaElement + "\n"

  // ---------------------------------------------------------- first pass: imports

  /**
   * What the first pass appends for one line: the line, then the BillingCTA
   * import after the i18n import; a checkout import line then pops the last
   * appended entry, so a line holding both imports loses the BillingCTA line
   * instead of itself.
   */
  function ImportEmit(line: string): seq<string>
  {
    var pushed := if Contains(line, I18nImport) then [line, CtaImportLine] else [line];
    if Contains(line, CheckoutImport) then pushed[..|pushed| - 1] else pushed
  }

  /** The first pass over a whole file. */
  function ImportPass(lines: seq<string>): seq<string>
  {
    if |lines| == 0 then [] else ImportPass(lines[..|lines| - 1]) + ImportEmit(lines[|lines| - 1])
  }

  method AddCtaImport(lines: seq<string>) returns (newLines: seq<string>)
    ensures newLines == ImportPass(lines)
  {
    newLines := [];
    for i := 0 to |lines|
      invariant newLines == ImportPass(lines[..i])
    {
      var line := lines[i];
      ghost var before := newLines;
      newLines := newLines + [line];
      if Contains(line, I18nImport) {
        newLines := newLines + [CtaImportLine];
      }
      if Contains(line, CheckoutImport) {
        newLines := newLines[..|newLines| - 1];
      }
      ImportEmitAppended(before, line, newLines);
      assert lines[..i + 1][..i] == lines[..i];
    }
    assert lines[..|lines|] == lines;
  }

  /** The pushes and the pop of one step leave the earlier entries alone and add `ImportEmit`. */
  lemma {:induction false} ImportEmitAppended(before: seq<string>, line: string, after: seq<string>)
    requires var pushed := before + [line] + (if Contains(line, I18nImport) then [CtaImportLine] else []);
      after == if Contains(line, CheckoutImport) then pushed[..|pushed| - 1] else pushed
    ensures after == before + ImportEmit(line)
  {
    if Contains(line, I18nImport) {
      assert (before + [line] + [CtaImportLine])[..|before| + 1] == before + [line];
    } else {
      assert (before + [line] + [])[..|before|] == before;
    }
  }

  lemma {:induction false} ImportPassConcat(a: seq<string>, b: seq<string>)
    ensures ImportPass(a + b) == ImportPass(a) + ImportPass(b)
    decreases |b|
  {
    if |b| == 0 {
      assert a + b == a;
    } else {
      var n := |b| - 1;
      assert (a + b)[..|a + b| - 1] == a + b[..n];
      ImportPassConcat(a, b[..n]);
    }
  }

  /**
   * The BillingCTA import line comes immediately after a line holding the
   * i18n import (and not the checkout import); the lines before and after
   * are processed as if on their own.
   */
  lemma {:induction false} CtaImportFollows(lines: seq<string>, k: nat)
    requires k < |lines|
    requires Contains(lines[k], I18nImport) && !Contains(lines[k], CheckoutImport)
    ensures ImportPass(lines) == ImportPass(lines[..k]) + [lines[k], CtaImportLine] + ImportPass(lines[k + 1..])
  {
    ImportPassSplit(lines, k);
  }

  /** A line holding the checkout import and not the i18n import is dropped. */
  lemma {:induction false} CheckoutImportDropped(lines: seq<string>, k: nat)
    requires k < |lines|
    requires Contains(lines[k], CheckoutImport) && !Contains(lines[k], I18nImport)
    ensures ImportPass(lines) == ImportPass(lines[..k]) + ImportPass(lines[k + 1..])
  {
    ImportPassSplit(lines, k);
    assert ImportEmit(lines[k]) == [];
    assert ImportPass(lines[..k]) + [] == ImportPass(lines[..k]);
  }

  /** The first pass handles each line on its own. */
  lemma {:induction false} ImportPassSplit(lines: seq<string>, k: nat)
    requires k < |lines|
    ensures ImportPass(lines) == ImportPass(lines[..k]) + ImportEmit(lines[k]) + ImportPass(lines[k + 1..])
  {
    assert lines == lines[..k] + [lines[k]] + lines[k + 1..];
    ImportPassConcat(lines[..k] + [lines[k]], lines[k + 1..]);
    ImportPassConcat(lines[..k], [lines[k]]);
    assert ImportPass([lines[k]]) == ImportEmit(lines[k]) by {
      assert [lines[k]][..0] == [];
    }
  }

  /** Lines holding neither import pass through the first pass unchanged. */
  lemma {:induction false} ImportPassPlain(lines: seq<string>)
    requires forall k :: 0 <= k < |lines| ==> !Contains(lines[k], I18nImport) && !Contains(lines[k], CheckoutImport)
    ensures ImportPass(lines) == lines
  {
    if |lines| > 0 {
      var n := |lines| - 1;
      ImportPassPlain(lines[..n]);
      assert lines == lines[..n] + [lines[n]];
    }
  }

  // ---------------------------------------------------------- second pass: the block

  /** A line's contribution to the parenthesis depth. */
  function ParenBalance(line: string): int
  {
    CountChar(line, '(') as int - CountChar(line, ')') as int
  }

  /** The summed balance of `ls[lo..hi]`. */
  function ParenDepth(ls: seq<string>, lo: nat, hi: nat): int
    requires hi <= |ls|
    decreases hi
  {
    if hi <= lo then 0 else ParenDepth(ls, lo, hi - 1) + ParenBalance(ls[hi - 1])
  }

  /**
   * The second pass from line `i` on, while skipping (`skip`) with the depth
   * counted so far (`depth`). The marker test comes first, so a marker line
   * inside a skipped block starts the block afresh.
   */
  function SkipFrom(ls: seq<string>, i: nat, skip: bool, depth: int): seq<string>
    requires i <= |ls|
    decreases |ls| - i
  {
    if i == |ls| then []
    else if Contains(ls[i], PlatinumMarker) then [CtaLine] + SkipFrom(ls, i + 1, true, 0)
    else if skip then
      var d := depth + ParenBalance(ls[i]);
      if Contains(ls[i], CloseMarker) && d <= 0 then SkipFrom(ls, i + 1, false, d)
      else SkipFrom(ls, i + 1, true, d)
    else if Contains(ls[i], CheckoutImport) then SkipFrom(ls, i + 1, false, depth)
    else [ls[i]] + SkipFrom(ls, i + 1, false, depth)
  }

  method SkipCtaBlock(lines: seq<string>) returns (finalLines: seq<string>)
    ensures finalLines == SkipFrom(lines, 0, false, 0)
  {
    finalLines := [];
    var skip := false;
    var depth := 0;
    for i := 0 to |lines|
      invariant finalLines + SkipFrom(lines, i, skip, depth) == SkipFrom(lines, 0, false, 0)
    {
      var line := lines[i];
      if Contains(line, PlatinumMarker) {
        skip := true;
        depth := 0;
        assert finalLines + [CtaLine] + SkipFrom(lines, i + 1, skip, depth) == finalLines + ([CtaLine] + SkipFrom(lines, i + 1, skip, depth));
        finalLines := finalLines + [CtaLine];
        continue;
      }
      if skip {
        depth := depth + ParenBalance(line);
        if Contains(line, CloseMarker) && depth <= 0 {
          skip := false;
        }
        continue;
      }
      if Contains(line, CheckoutImport) {
        continue;
      }
      assert finalLines + [line] + SkipFrom(lines, i + 1, skip, depth) == finalLines + ([line] + SkipFrom(lines, i + 1, skip, depth));
      finalLines := finalLines + [line];
    }
    assert SkipFrom(lines, |lines|, skip, depth) == [];
  }

  /** Both passes, as the script runs them on the file's lines. */
  function FixedLines(lines: seq<string>): seq<string>
  {
    SkipFrom(ImportPass(lines), 0, false, 0)
  }

  method FixCta(lines: seq<string>) returns (finalLines: seq<string>)
    ensures finalLines == FixedLines(lines)
  {
    var newLines := AddCtaImport(lines);
    finalLines := SkipCtaBlock(newLines);
  }

  // ---------------------------------------------------------- what the second pass does

  /** The lines of `ls` that are not the checkout import, in order. */
  function Kept(ls: seq<string>): (r: seq<string>)
    ensures |r| <= |ls|
  {
    if |ls| == 0 then [] else (if Contains(ls[0], CheckoutImport) then [] else [ls[0]]) + Kept(ls[1..])
  }

  /** `ls[k]` closes a block opened at `m`: it holds `)}` and the depth counted from `m + 1` through it is at most 0. */
  predicate ClosesAt(ls: seq<string>, m: nat, k: nat)
    requires m < k < |ls|
  {
    Contains(ls[k], CloseMarker) && ParenDepth(ls, m + 1, k + 1) <= 0
  }

  /**
   * Outside a block, lines without the marker survive in their order, all
   * but the checkout import.
   */
  lemma {:induction false} PlainLinesKept(ls: seq<string>, i: nat, m: nat, depth: int)
    requires i <= m <= |ls|
    requires forall k :: i <= k < m ==> !Contains(ls[k], PlatinumMarker)
    ensures SkipFrom(ls, i, false, depth) == Kept(ls[i..m]) + SkipFrom(ls, m, false, depth)
    decreases m - i
  {
    if i < m {
      PlainLinesKept(ls, i + 1, m, depth);
      var rest := SkipFrom(ls, i + 1, false, depth);
      var head := if Contains(ls[i], CheckoutImport) then [] else [ls[i]];
      assert ls[i..m][0] == ls[i] && ls[i..m][1..] == ls[i + 1..m];
      assert Kept(ls[i..m]) == head + Kept(ls[i + 1..m]);
      assert SkipFrom(ls, i, false, depth) == head + rest;
      ConcatAssoc(head, Kept(ls[i + 1..m]), SkipFrom(ls, m, false, depth));
    } else {
      assert ls[i..m] == [];
    }
  }

  /**
   * Inside a block opened at `m`, lines are dropped up to and including the
   * first closing one, `j`, and the pass goes on after it, no longer skipping.
   */
  lemma {:induction false} SkipToClose(ls: seq<string>, m: nat, i: nat, j: nat)
    requires m < i <= j < |ls|
    requires forall k :: i <= k <= j ==> !Contains(ls[k], PlatinumMarker)
    requires ClosesAt(ls, m, j)
    requires forall k :: i <= k < j ==> !ClosesAt(ls, m, k)
    ensures SkipFrom(ls, i, true, ParenDepth(ls, m + 1, i)) == SkipFrom(ls, j + 1, false, ParenDepth(ls, m + 1, j + 1))
    decreases j - i
  {
    if i < j {
      assert !ClosesAt(ls, m, i);
      SkipToClose(ls, m, i + 1, j);
    }
  }

  /**
   * The marker line and the block after it, through the first line that
   * holds `)}` with the depth counted at most 0, become one BillingCTA line.
   */
  lemma {:induction false} BlockReplaced(ls: seq<string>, m: nat, j: nat, skip: bool, depth: int)
    requires m < j < |ls|
    requires Contains(ls[m], PlatinumMarker)
    requires forall k :: m < k <= j ==> !Contains(ls[k], PlatinumMarker)
    requires ClosesAt(ls, m, j)
    requires forall k :: m < k < j ==> !ClosesAt(ls, m, k)
    ensures SkipFrom(ls, m, skip, depth) == [CtaLine] + SkipFrom(ls, j + 1, false, ParenDepth(ls, m + 1, j + 1))
  {
    SkipToClose(ls, m, m + 1, j);
  }

  /** A block that never closes swallows the rest of the file (when no further marker occurs). */
  lemma {:induction false} UnclosedBlock(ls: seq<string>, m: nat, i: nat)
    requires m < i <= |ls|
    requires forall k :: i <= k < |ls| ==> !Contains(ls[k], PlatinumMarker)
    requires forall k :: i <= k < |ls| ==> !ClosesAt(ls, m, k)
    ensures SkipFrom(ls, i, true, ParenDepth(ls, m + 1, i)) == []
    decreases |ls| - i
  {
    if i < |ls| {
      assert !ClosesAt(ls, m, i);
      UnclosedBlock(ls, m, i + 1);
    }
  }

  /**
   * A file with one marker line at `m` whose block closes at `j`: the lines
   * before and after survive in order without the checkout import, and the
   * block becomes one BillingCTA line.
   */
  lemma {:induction false} OneBlock(ls: seq<string>, m: nat, j: nat)
    requires m < j < |ls|
    requires Contains(ls[m], PlatinumMarker)
    requires forall k :: 0 <= k < m ==> !Contains(ls[k], PlatinumMarker)
    requires forall k :: m < k < |ls| ==> !Contains(ls[k], PlatinumMarker)
    requires ClosesAt(ls, m, j)
    requires forall k :: m < k < j ==> !ClosesAt(ls, m, k)
    ensures SkipFrom(ls, 0, false, 0) == Kept(ls[..m]) + [CtaLine] + Kept(ls[j + 1..])
  {
    BlockThenRest(ls, m, j);
    PlainLinesKept(ls, 0, m, 0);
    assert ls[0..m] == ls[..m];
    SplitTwice(SkipFrom(ls, 0, false, 0), Kept(ls[..m]), SkipFrom(ls, m, false, 0), [CtaLine], Kept(ls[j + 1..]));
  }

  /** From the marker line on: the block becomes one line and the rest survives as `Kept`. */
  lemma {:induction false} BlockThenRest(ls: seq<string>, m: nat, j: nat)
    requires m < j < |ls|
    requires Contains(ls[m], PlatinumMarker)
    requires forall k :: m < k < |ls| ==> !Contains(ls[k], PlatinumMarker)
    requires ClosesAt(ls, m, j)
    requires forall k :: m < k < j ==> !ClosesAt(ls, m, k)
    ensures SkipFrom(ls, m, false, 0) == [CtaLine] + Kept(ls[j + 1..])
  {
    BlockReplaced(ls, m, j, false, 0);
    PlainLinesToEnd(ls, j + 1, ParenDepth(ls, m + 1, j + 1));
  }

  /** With no marker left, the pass keeps every remaining line but the checkout import. */
  lemma {:induction false} PlainLinesToEnd(ls: seq<string>, i: nat, depth: int)
    requires i <= |ls|
    requires forall k :: i <= k < |ls| ==> !Contains(ls[k], PlatinumMarker)
    ensures SkipFrom(ls, i, false, depth) == Kept(ls[i..])
    decreases |ls| - i
  {
    if i < |ls| {
      PlainLinesToEnd(ls, i + 1, depth);
      var head := if Contains(ls[i], CheckoutImport) then [] else [ls[i]];
      assert ls[i..][0] == ls[i] && ls[i..][1..] == ls[i + 1..];
      assert Kept(ls[i..]) == head + Kept(ls[i + 1..]);
    }
  }

  /** Every character of a text contained in `s` is a character of `s`. */
  lemma {:induction false} ContainedChars(s: string, p: string, c: char)
    ensures Contains(s, p) && c in p ==> c in s
  {
    if Contains(s, p) && c in p {
      var k := IndexOf(s, p).value;
      var j :| 0 <= j < |p| && p[j] == c;
      assert s[k..k + |p|][j] == s[k + j];
    }
  }

  /** The BillingCTA line is not the checkout import: it has no `k`. */
  lemma {:induction false} CtaLineNotCheckout()
    ensures !Contains(CtaLine, CheckoutImport)
  {
    assert CheckoutImport[18] == 'k';
    assert 'k' !in CtaElement;
    assert 'k' !in CtaLine;
    ContainedChars(CtaLine, CheckoutImport, 'k');
  }

  /** No line the second pass emits holds the checkout import. */
  lemma {:induction false} NoCheckoutLeft(ls: seq<string>, i: nat, skip: bool, depth: int)
    requires i <= |ls|
    ensures forall x :: x in SkipFrom(ls, i, skip, depth) ==> !Contains(x, CheckoutImport)
    decreases |ls| - i
  {
    if i < |ls| {
      CtaLineNotCheckout();
      var d := depth + ParenBalance(ls[i]);
      NoCheckoutLeft(ls, i + 1, true, 0);
      NoCheckoutLeft(ls, i + 1, false, d);
      NoCheckoutLeft(ls, i + 1, true, d);
      NoCheckoutLeft(ls, i + 1, false, depth);
    }
  }
}
