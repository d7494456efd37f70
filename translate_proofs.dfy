/**
 * What `translate_text` promises: `{placeholders}` come out exactly as they
 * went in, in the same order, and a language without a table gives the
 * text back unchanged.
 */
module TranslatorProofs {
  import opened Wrappers
  import opened Strings
  import opened Translator

  // ------------------------------------------------------------------ character facts

  lemma {:induction false} LowerNotUnderscore(c: char)
    requires c != '_'
    ensures LowerChar(c) != '_'
  {
  }

  /** A sentinel is made of word characters and starts with `_`; it holds no brace and no line break. */
  predicate SentinelLike(s: string)
  {
    |s| >= 4 && s[..4] == Marker
    && forall k :: 0 <= k < |s| ==> IsPyWord(s[k]) && s[k] != '{' && s[k] != '}' && s[k] != '\n'
  }

  lemma {:induction false} SentinelIsLike(i: nat)
    ensures SentinelLike(Sentinel(i))
  {
    var d := NatToString(i);
    var s := Sentinel(i);
    assert s == "__PH" + d + "__";
    forall k | 0 <= k < |s|
      ensures IsPyWord(s[k]) && s[k] != '{' && s[k] != '}' && s[k] != '\n'
    {
      if 4 <= k < 4 + |d| {
        assert s[k] == d[k - 4];
      }
    }
  }

  lemma {:induction false} SentinelsAreLike(n: nat)
    ensures forall k :: 0 <= k < n ==> SentinelLike(Sentinels(n)[k])
  {
    forall k | 0 <= k < n ensures SentinelLike(Sentinels(n)[k]) {
      SentinelIsLike(k);
    }
  }

  // ------------------------------------------------------------------ interleaving

  /** Cutting an interleaving around its i-th separator piece. */
  lemma {:induction false} InterleaveAt(g: seq<string>, f: seq<string>, i: nat)
    requires |g| == |f| + 1 && i < |f|
    ensures Interleave(g, f) == Interleave(g[..i + 1], f[..i]) + f[i] + Interleave(g[i + 1..], f[i + 1..])
  {
    if i > 0 {
      InterleaveAt(g[1..], f[1..], i - 1);
      assert g[1..][..i] == g[..i + 1][1..];
      assert f[1..][..i - 1] == f[..i][1..];
      assert g[1..][i..] == g[i + 1..];
      assert f[1..][i..] == f[i + 1..];
    }
  }

  /** Unfolding an interleaving by one gap and one piece. */
  lemma {:induction false} InterleaveCons(x: string, p: string, g: seq<string>, f: seq<string>)
    requires |g| == |f| + 1
    ensures Interleave([x] + g, [p] + f) == x + p + Interleave(g, f)
  {
    assert ([x] + g)[1..] == g;
    assert ([p] + f)[1..] == f;
  }

  /** The first gap and placeholder in front of the rest. */
  lemma {:induction false} InterleaveHead(g: seq<string>, f: seq<string>)
    requires |g| == |f| + 1 && |f| > 0
    ensures Interleave(g, f) == g[0] + f[0] + Interleave(g[1..], f[1..])
  {
  }

  // ------------------------------------------------------------------ placeholder scan

  /** What a single successful `\{[^}]+\}` match at `i` looks like. */
  lemma {:induction false} PlaceholderAt(s: string, i: nat)
    requires PlaceholderEnd(s, i).Some?
    ensures Braced(s[i..PlaceholderEnd(s, i).value])
    ensures OccursAt(s, "}", PlaceholderEnd(s, i).value - 1)
  {
    var e := PlaceholderEnd(s, i).value;
    var j := e - 1;
    assert IndexOfFrom(s, "}", i + 1) == Some(j);
    assert s[j..j + 1] == "}";
    forall k | i + 1 <= k < j ensures s[k] != '}' {
      assert !OccursAt(s, "}", k);
      assert s[k..k + 1] == [s[k]];
    }
  }

  /** A `{` where no placeholder starts is closed at once, provided some `}` follows further on. */
  lemma {:induction false} NoPlaceholderAt(s: string, q: nat, j: nat)
    requires q < |s| && s[q] == '{' && PlaceholderEnd(s, q).None?
    requires q + 1 <= j && OccursAt(s, "}", j)
    ensures q + 1 < |s| && s[q + 1] == '}'
  {
    match IndexOfFrom(s, "}", q + 1)
    case Some(k) =>
      assert k == q + 1;
      assert s[k..k + 1] == "}";
  }

  lemma {:induction false} SegmentsJoin(s: string, i: nat, g: nat)
    requires g <= i <= |s|
    ensures Interleave(Segments(s, i, g).0, Segments(s, i, g).1) == s[g..]
    decreases |s| - i
  {
    if i < |s| {
      match PlaceholderEnd(s, i)
      case Some(e) =>
        var rest := Segments(s, e, e);
        SegmentsJoin(s, e, e);
        InterleaveCons(s[g..i], s[i..e], rest.0, rest.1);
        SliceThree(s, g, i, e);
      case None =>
        SegmentsJoin(s, i + 1, g);
    }
  }

  lemma {:induction false} SegmentsShape(s: string, i: nat, g: nat)
    requires g <= i <= |s|
    requires forall q :: g <= q < i ==> PlaceholderEnd(s, q).None?
    ensures forall k :: 0 <= k < |Segments(s, i, g).1| ==> Braced(Segments(s, i, g).1[k])
    ensures forall k :: 0 <= k < |Segments(s, i, g).1| ==> BraceSafe(Segments(s, i, g).0[k])
    decreases |s| - i
  {
    if i < |s| {
      match PlaceholderEnd(s, i)
      case Some(e) =>
        var rest := Segments(s, e, e);
        SegmentsShape(s, e, e);
        PlaceholderAt(s, i);
        GapBraceSafe(s, g, i, e);
        var r := Segments(s, i, g);
        assert r.0 == [s[g..i]] + rest.0 && r.1 == [s[i..e]] + rest.1;
        ConsShape(s[g..i], s[i..e], rest.0, rest.1, r.0, r.1);
      case None =>
        SegmentsShape(s, i + 1, g);
    }
  }

  /** The text before a placeholder, in which no placeholder starts, opens no placeholder. */
  lemma {:induction false} GapBraceSafe(s: string, g: nat, i: nat, e: nat)
    requires g <= i < e <= |s|
    requires forall q :: g <= q < i ==> PlaceholderEnd(s, q).None?
    requires OccursAt(s, "}", e - 1) && s[i] == '{'
    ensures BraceSafe(s[g..i])
  {
    var gap := s[g..i];
    forall q | 0 <= q < |gap| && gap[q] == '{'
      ensures q + 1 < |gap| && gap[q + 1] == '}'
    {
      assert s[g + q] == gap[q];
      NoPlaceholderAt(s, g + q, e - 1);
      assert g + q + 1 < i;
      assert gap[q + 1] == s[g + q + 1];
    }
  }

  /** One more braced placeholder and brace-safe gap in front keep the shape. */
  lemma {:induction false} ConsShape(gap: string, ph: string, gs: seq<string>, ps: seq<string>, gs2: seq<string>, ps2: seq<string>)
    requires Braced(ph) && BraceSafe(gap)
    requires |gs| == |ps| + 1
    requires forall k :: 0 <= k < |ps| ==> Braced(ps[k])
    requires forall k :: 0 <= k < |ps| ==> BraceSafe(gs[k])
    requires gs2 == [gap] + gs && ps2 == [ph] + ps
    ensures forall k :: 0 <= k < |ps2| ==> Braced(ps2[k])
    ensures forall k :: 0 <= k < |ps2| ==> BraceSafe(gs2[k])
  {
  }

  /** The text is its gaps and placeholders interleaved; placeholders are braced and gaps open no placeholder. */
  lemma {:induction false} PlaceholderScan(text: string)
    ensures |Gaps(text)| == |Placeholders(text)| + 1
    ensures text == Interleave(Gaps(text), Placeholders(text))
    ensures forall k :: 0 <= k < |Placeholders(text)| ==> Braced(Placeholders(text)[k])
    ensures forall k :: 0 <= k < |Placeholders(text)| ==> BraceSafe(Gaps(text)[k])
  {
    SegmentsJoin(text, 0, 0);
    SegmentsShape(text, 0, 0);
  }

  // ------------------------------------------------------------------ masking

  lemma {:induction false} BraceSafeConcat(x: string, y: string)
    requires BraceSafe(x) && BraceSafe(y)
    ensures BraceSafe(x + y)
  {
    var z := x + y;
    forall q | 0 <= q < |z| && z[q] == '{' ensures q + 1 < |z| && z[q + 1] == '}' {
      if q < |x| {
        assert x[q] == '{';
      } else {
        assert y[q - |x|] == '{';
      }
    }
  }

  lemma {:induction false} InterleaveBraceSafe(g: seq<string>, f: seq<string>)
    requires |g| == |f| + 1
    requires forall k :: 0 <= k < |g| ==> BraceSafe(g[k])
    requires forall k :: 0 <= k < |f| ==> BraceSafe(f[k])
    ensures BraceSafe(Interleave(g, f))
  {
    if |f| > 0 {
      InterleaveBraceSafe(g[1..], f[1..]);
      BraceSafeConcat(g[0], f[0]);
      BraceSafeConcat(g[0] + f[0], Interleave(g[1..], f[1..]));
    }
  }

  /** A placeholder cannot occur inside a text where every `{` is closed at once. */
  lemma {:induction false} NoEarlyPlaceholder(a: string, p: string, b: string)
    requires BraceSafe(a) && Braced(p)
    ensures forall q :: 0 <= q < |a| ==> !OccursAt(a + p + b, p, q)
  {
    var x := a + p + b;
    forall q | 0 <= q < |a| ensures !OccursAt(x, p, q) {
      if q + |p| <= |x| {
        if a[q] == '{' {
          assert x[q..q + |p|][1] == x[q + 1] == '}';
        } else {
          assert x[q..q + |p|][0] == a[q];
        }
      }
    }
  }

  /** After `i` masking steps the first `i` placeholders are sentinels and the text around them is untouched. */
  lemma {:induction false} MaskShape(text: string, g: seq<string>, f: seq<string>, i: nat)
    requires |g| == |f| + 1 && text == Interleave(g, f) && i <= |f|
    requires forall k :: 0 <= k < |f| ==> Braced(f[k])
    requires forall k :: 0 <= k < |f| ==> BraceSafe(g[k])
    ensures Masked(text, f, i) == Interleave(g, Sentinels(|f|)[..i] + f[i..])
  {
    var sn := Sentinels(|f|);
    if i == 0 {
      assert sn[..0] + f[0..] == f;
    } else {
      MaskShape(text, g, f, i - 1);
      var a := Interleave(g[..i], sn[..i - 1]);
      var rest := Interleave(g[i..], f[i..]);
      MaskBefore(g, f, i);
      MaskAfter(g, f, i);
      MaskPrefixSafe(g, f, i);
      NoEarlyPlaceholder(a, f[i - 1], rest);
      ReplaceFirstAt(a, f[i - 1], rest, Sentinel(i - 1));
    }
  }

  /** Before the `i`-th masking step, the `i`-th placeholder sits between the masked front and the untouched rest. */
  lemma {:induction false} MaskBefore(g: seq<string>, f: seq<string>, i: nat)
    requires |g| == |f| + 1 && 0 < i <= |f|
    ensures Interleave(g, Sentinels(|f|)[..i - 1] + f[i - 1..]) ==
      Interleave(g[..i], Sentinels(|f|)[..i - 1]) + f[i - 1] + Interleave(g[i..], f[i..])
  {
    var sn := Sentinels(|f|);
    var h := sn[..i - 1] + f[i - 1..];
    assert h[..i - 1] == sn[..i - 1] && h[i - 1] == f[i - 1] && h[i..] == f[i..];
    InterleaveAround(g, h, i - 1, sn[..i - 1], f[i - 1], f[i..]);
  }

  /** After it, its sentinel sits in the same place. */
  lemma {:induction false} MaskAfter(g: seq<string>, f: seq<string>, i: nat)
    requires |g| == |f| + 1 && 0 < i <= |f|
    ensures Interleave(g, Sentinels(|f|)[..i] + f[i..]) ==
      Interleave(g[..i], Sentinels(|f|)[..i - 1]) + Sentinel(i - 1) + Interleave(g[i..], f[i..])
  {
    var sn := Sentinels(|f|);
    var h2 := sn[..i] + f[i..];
    assert h2[..i - 1] == sn[..i - 1] && h2[i - 1] == Sentinel(i - 1) && h2[i..] == f[i..];
    InterleaveAround(g, h2, i - 1, sn[..i - 1], Sentinel(i - 1), f[i..]);
  }

  /** `InterleaveAt` with the pieces of the separators named. */
  lemma {:induction false} InterleaveAround(g: seq<string>, h: seq<string>, j: nat, pre: seq<string>, mid: string, post: seq<string>)
    requires |g| == |h| + 1 && j < |h|
    requires h[..j] == pre && h[j] == mid && h[j + 1..] == post
    ensures Interleave(g, h) == Interleave(g[..j + 1], pre) + mid + Interleave(g[j + 1..], post)
  {
    InterleaveAt(g, h, j);
  }

  /** The text before the `i`-th placeholder, earlier ones already masked, has no stray brace pair. */
  lemma {:induction false} MaskPrefixSafe(g: seq<string>, f: seq<string>, i: nat)
    requires |g| == |f| + 1 && 0 < i <= |f|
    requires forall k :: 0 <= k < |f| ==> BraceSafe(g[k])
    ensures BraceSafe(Interleave(g[..i], Sentinels(|f|)[..i - 1]))
  {
    var sn := Sentinels(|f|);
    SentinelsAreLike(|f|);
    var done := sn[..i - 1];
    forall k | 0 <= k < |done| ensures BraceSafe(done[k]) {
      assert done[k] == sn[k];
    }
    InterleaveBraceSafe(g[..i], done);
  }

  // ------------------------------------------------------------------ substitution

  /** The output `re.sub` produces for the stretch `s[i..j]`, with matches confined to the stretch. */
  ghost function SubBetween(s: string, term: string, rep: string, i: nat, j: nat): string
    requires |term| > 0 && i <= j <= |s|
    decreases j - i
  {
    if i >= j then ""
    else if MatchAt(s, i, term) && i + |term| <= j then rep + SubBetween(s, term, rep, i + |term|, j)
    else [s[i]] + SubBetween(s, term, rep, i + 1, j)
  }

  /** A term without `_` cannot match across an `_`. */
  lemma {:induction false} NoMatchAcross(s: string, term: string, i: nat, j: nat)
    requires '_' !in term && j < |s| && s[j] == '_' && i <= j < i + |term|
    ensures !MatchAt(s, i, term)
  {
    if i + |term| <= |s| {
      assert s[i..i + |term|][j - i] == '_';
      assert term[j - i] in term;
      LowerNotUnderscore(term[j - i]);
    }
  }

  /** `re.sub` scanning up to an `_` (or the end) splits into the stretch before it and the rest. */
  lemma {:induction false} SubSplit(s: string, term: string, rep: string, i: nat, j: nat)
    requires |term| > 0 && '_' !in term && i <= j <= |s|
    requires forall q :: i <= q < j ==> s[q] != '_'
    requires j == |s| || s[j] == '_'
    ensures SubFrom(s, term, rep, i) == SubBetween(s, term, rep, i, j) + SubFrom(s, term, rep, j)
    decreases j - i
  {
    if i < j {
      if i + |term| > j && j < |s| {
        NoMatchAcross(s, term, i, j);
      }
      var n := if MatchAt(s, i, term) then i + |term| else i + 1;
      var head := if MatchAt(s, i, term) then rep else [s[i]];
      assert n <= j;
      SubSplit(s, term, rep, n, j);
      PrefixJoin(head, SubFrom(s, term, rep, n), SubBetween(s, term, rep, n, j), SubFrom(s, term, rep, j),
                 SubFrom(s, term, rep, i), SubBetween(s, term, rep, i, j));
    }
  }

  lemma {:induction false} SubBetweenFree(s: string, term: string, rep: string, i: nat, j: nat, c: char)
    requires |term| > 0 && i <= j <= |s| && c !in rep
    requires forall q :: i <= q < j ==> s[q] != c
    ensures c !in SubBetween(s, term, rep, i, j)
    decreases j - i
  {
    if i < j {
      if MatchAt(s, i, term) && i + |term| <= j {
        SubBetweenFree(s, term, rep, i + |term|, j, c);
      } else {
        SubBetweenFree(s, term, rep, i + 1, j, c);
      }
    }
  }

  /** No `_`-free term starts at an `_`, and no word boundary falls strictly inside a run of word characters. */
  lemma {:induction false} NoMatchInSentinel(s: string, term: string, j: nat, w: string, k: nat)
    requires |term| > 0 && '_' !in term && SentinelLike(w) && OccursAt(s, w, j) && k < |w|
    ensures !MatchAt(s, j + k, term)
  {
    var p := j + k;
    assert s[j..j + |w|] == w;
    if k == 0 {
      assert s[p] == w[0] == Marker[0];
      NoMatchAcross(s, term, p, p);
    } else {
      assert s[p - 1] == w[k - 1] && s[p] == w[k];
      assert WordAt(s, p - 1) && WordAt(s, p);
    }
  }

  lemma {:induction false} SubNoMatch(s: string, term: string, rep: string, p: nat)
    requires |term| > 0 && p < |s| && !MatchAt(s, p, term)
    ensures SubFrom(s, term, rep, p) == [s[p]] + SubFrom(s, term, rep, p + 1)
  {
  }

  lemma {:induction false} SentinelCharAt(s: string, j: nat, w: string, k: nat)
    requires OccursAt(s, w, j) && k < |w|
    ensures s[j + k] == w[k]
  {
    assert s[j..j + |w|] == w;
  }

  lemma {:induction false} SubInsideSentinel(s: string, term: string, rep: string, j: nat, w: string, k: nat)
    requires |term| > 0 && '_' !in term && SentinelLike(w) && OccursAt(s, w, j) && k <= |w|
    ensures SubFrom(s, term, rep, j + k) == w[k..] + SubFrom(s, term, rep, j + |w|)
    decreases |w| - k
  {
    if k < |w| {
      NoMatchInSentinel(s, term, j, w, k);
      SubNoMatch(s, term, rep, j + k);
      SentinelCharAt(s, j, w, k);
      SubInsideSentinel(s, term, rep, j, w, k + 1);
      SuffixSplit(w, k);
      PrefixJoin([w[k]], SubFrom(s, term, rep, j + k + 1), w[k + 1..], SubFrom(s, term, rep, j + |w|),
                 SubFrom(s, term, rep, j + k), w[k..]);
    }
  }

  /** Substitution over a gap followed by a sentinel: the gap is rewritten on its own and the sentinel is kept. */
  lemma {:induction false} SubGapThenSentinel(x: string, o: nat, gm: string, fm: string, term: string, rep: string)
    requires o + |gm| + |fm| <= |x| && x[o..o + |gm|] == gm && x[o + |gm|..o + |gm| + |fm|] == fm
    requires '_' !in gm && SentinelLike(fm)
    requires |term| > 0 && '_' !in term && '_' !in rep
    ensures SubFrom(x, term, rep, o) == SubBetween(x, term, rep, o, o + |gm|) + fm + SubFrom(x, term, rep, o + |gm| + |fm|)
    ensures '_' !in SubBetween(x, term, rep, o, o + |gm|)
  {
    var j := o + |gm|;
    var a := SubBetween(x, term, rep, o, j);
    GapChars(x, o, gm);
    SentinelStart(x, j, fm);
    SubSplit(x, term, rep, o, j);
    SubBetweenFree(x, term, rep, o, j, '_');
    SubInsideSentinel(x, term, rep, j, fm, 0);
    JoinThree(SubFrom(x, term, rep, o), a, SubFrom(x, term, rep, j), fm, SubFrom(x, term, rep, j + |fm|));
  }

  /** The characters of a gap found at `o` are those of the gap. */
  lemma {:induction false} GapChars(x: string, o: nat, gm: string)
    requires o + |gm| <= |x| && x[o..o + |gm|] == gm && '_' !in gm
    ensures forall q :: o <= q < o + |gm| ==> x[q] != '_'
  {
    forall q | o <= q < o + |gm| ensures x[q] != '_' {
      assert x[q] == gm[q - o];
    }
  }

  /** A sentinel found at `j` starts with `_` there. */
  lemma {:induction false} SentinelStart(x: string, j: nat, fm: string)
    requires j + |fm| <= |x| && x[j..j + |fm|] == fm && SentinelLike(fm)
    ensures j < |x| && x[j] == '_' && OccursAt(x, fm, j) && fm[0..] == fm
  {
    assert x[j] == fm[0] == '_';
  }

  /** Two splits, one inside the other, make one three-way split. */
  lemma {:induction false} JoinThree<T>(x: seq<T>, a: seq<T>, y: seq<T>, b: seq<T>, c: seq<T>)
    requires x == a + y && y == b[0..] + c
    ensures x == a + b + c
  {
    assert b[0..] == b;
    ConcatAssoc(a, b, c);
  }

  /** Substitution over a last gap rewrites it on its own. */
  lemma {:induction false} SubLastGap(x: string, o: nat, term: string, rep: string)
    requires o <= |x| && '_' !in x[o..]
    requires |term| > 0 && '_' !in term && '_' !in rep
    ensures SubFrom(x, term, rep, o) == SubBetween(x, term, rep, o, |x|)
    ensures '_' !in SubBetween(x, term, rep, o, |x|)
  {
    forall q | o <= q < |x| ensures x[q] != '_' {
      assert x[q] == x[o..][q - o];
    }
    SubSplit(x, term, rep, o, |x|);
    SubBetweenFree(x, term, rep, o, |x|, '_');
  }

  /**
   * The gaps after substitution: each gap of the shape at offset `o` of `x`
   * rewritten on its own.
   */
  ghost function SubGaps(x: string, g: seq<string>, f: seq<string>, o: nat, term: string, rep: string): seq<string>
    requires |g| == |f| + 1 && o <= |x| && |term| > 0
    decreases |f|
  {
    if |f| == 0 then [SubBetween(x, term, rep, o, |x|)]
    else if o + |g[0]| + |f[0]| <= |x| then
      [SubBetween(x, term, rep, o, o + |g[0]|)] + SubGaps(x, g[1..], f[1..], o + |g[0]| + |f[0]|, term, rep)
    else []
  }

  /** Substitution over gaps and sentinels rewrites the gaps only, leaving every sentinel in place. */
  lemma {:induction false} SubShapeFrom(x: string, g: seq<string>, f: seq<string>, o: nat, term: string, rep: string)
    requires |g| == |f| + 1 && o <= |x|
    requires x[o..] == Interleave(g, f)
    requires forall k :: 0 <= k < |g| ==> '_' !in g[k]
    requires forall k :: 0 <= k < |f| ==> SentinelLike(f[k])
    requires |term| > 0 && '_' !in term && '_' !in rep
    ensures |SubGaps(x, g, f, o, term, rep)| == |g|
    ensures forall k :: 0 <= k < |g| ==> '_' !in SubGaps(x, g, f, o, term, rep)[k]
    ensures SubFrom(x, term, rep, o) == Interleave(SubGaps(x, g, f, o, term, rep), f)
    decreases |f|
  {
    if |f| == 0 {
      SubShapeBase(x, g, f, o, term, rep);
    } else {
      var o2 := o + |g[0]| + |f[0]|;
      SubShapeNext(x, g, f, o, term, rep);
      SubShapeFrom(x, g[1..], f[1..], o2, term, rep);
      SubShapeCombine(x, g, f, o, SubGaps(x, g[1..], f[1..], o2, term, rep), term, rep);
    }
  }

  /** The last gap is rewritten on its own. */
  lemma {:induction false} SubShapeBase(x: string, g: seq<string>, f: seq<string>, o: nat, term: string, rep: string)
    requires |g| == 1 && |f| == 0 && o <= |x| && x[o..] == Interleave(g, f) && '_' !in g[0]
    requires |term| > 0 && '_' !in term && '_' !in rep
    ensures SubFrom(x, term, rep, o) == Interleave([SubBetween(x, term, rep, o, |x|)], f)
    ensures '_' !in SubBetween(x, term, rep, o, |x|)
  {
    assert x[o..] == g[0];
    SubLastGap(x, o, term, rep);
  }

  /** Past the first gap and sentinel the rest of the text is the rest of the shape. */
  lemma {:induction false} SubShapeNext(x: string, g: seq<string>, f: seq<string>, o: nat, term: string, rep: string)
    requires |g| == |f| + 1 && |f| > 0 && o <= |x|
    requires x[o..] == Interleave(g, f)
    requires forall k :: 0 <= k < |g| ==> '_' !in g[k]
    requires forall k :: 0 <= k < |f| ==> SentinelLike(f[k])
    ensures o + |g[0]| + |f[0]| <= |x|
    ensures x[o..o + |g[0]|] == g[0] && x[o + |g[0]|..o + |g[0]| + |f[0]|] == f[0]
    ensures x[o + |g[0]| + |f[0]|..] == Interleave(g[1..], f[1..])
    ensures forall k :: 0 <= k < |g[1..]| ==> '_' !in g[1..][k]
    ensures forall k :: 0 <= k < |f[1..]| ==> SentinelLike(f[1..][k])
  {
    InterleaveHead(g, f);
    ThreeParts(x, o, g[0], f[0], Interleave(g[1..], f[1..]));
    ShapeTail(g, f);
  }

  /** The rewritten first gap, the kept sentinel and the rewritten rest make up the whole result. */
  lemma {:induction false} SubShapeCombine(x: string, g: seq<string>, f: seq<string>, o: nat, g3: seq<string>, term: string, rep: string)
    requires |g| == |f| + 1 && |f| > 0
    requires o + |g[0]| + |f[0]| <= |x|
    requires x[o..o + |g[0]|] == g[0] && x[o + |g[0]|..o + |g[0]| + |f[0]|] == f[0]
    requires '_' !in g[0] && SentinelLike(f[0])
    requires |term| > 0 && '_' !in term && '_' !in rep
    requires |g3| == |f| && forall k :: 0 <= k < |g3| ==> '_' !in g3[k]
    requires SubFrom(x, term, rep, o + |g[0]| + |f[0]|) == Interleave(g3, f[1..])
    ensures SubFrom(x, term, rep, o) == Interleave([SubBetween(x, term, rep, o, o + |g[0]|)] + g3, f)
    ensures '_' !in SubBetween(x, term, rep, o, o + |g[0]|)
  {
    SubGapThenSentinel(x, o, g[0], f[0], term, rep);
    SubShapeJoin(SubBetween(x, term, rep, o, o + |g[0]|), g3, f);
  }

  /** The remaining gaps and sentinels keep their properties. */
  lemma {:induction false} ShapeTail(g: seq<string>, f: seq<string>)
    requires |g| == |f| + 1 && |f| > 0
    requires forall k :: 0 <= k < |g| ==> '_' !in g[k]
    requires forall k :: 0 <= k < |f| ==> SentinelLike(f[k])
    ensures forall k :: 0 <= k < |g[1..]| ==> '_' !in g[1..][k]
    ensures forall k :: 0 <= k < |f[1..]| ==> SentinelLike(f[1..][k])
  {
    assert forall k :: 0 <= k < |g[1..]| ==> g[1..][k] == g[k + 1];
    assert forall k :: 0 <= k < |f[1..]| ==> f[1..][k] == f[k + 1];
  }

  /** A suffix cut at two points. */
  lemma {:induction false} SliceThree(s: string, a: nat, b: nat, c: nat)
    requires a <= b <= c <= |s|
    ensures s[a..] == s[a..b] + s[b..c] + s[c..]
  {
  }

  lemma {:induction false} ThreeParts(x: string, o: nat, a: string, b: string, c: string)
    requires o <= |x| && x[o..] == a + b + c
    ensures o + |a| + |b| <= |x|
    ensures x[o..o + |a|] == a && x[o + |a|..o + |a| + |b|] == b && x[o + |a| + |b|..] == c
  {
    var y := x[o..];
    assert y[..|a|] == a && y[|a|..|a| + |b|] == b && y[|a| + |b|..] == c;
    assert x[o..o + |a|] == y[..|a|];
    assert x[o + |a|..o + |a| + |b|] == y[|a|..|a| + |b|];
    assert x[o + |a| + |b|..] == y[|a| + |b|..];
  }

  lemma {:induction false} SubShapeJoin(p: string, g3: seq<string>, f: seq<string>)
    requires |f| > 0 && |g3| == |f|
    requires '_' !in p && forall k :: 0 <= k < |g3| ==> '_' !in g3[k]
    ensures |[p] + g3| == |f| + 1 && (forall k :: 0 <= k < |[p] + g3| ==> '_' !in ([p] + g3)[k])
    ensures Interleave([p] + g3, f) == p + f[0] + Interleave(g3, f[1..])
  {
    assert ([p] + g3)[1..] == g3;
  }

  /** A table whose terms and replacements hold no `_` (so none can touch a sentinel). */
  predicate SafeTable(t: Table)
  {
    ValidTable(t) && forall k :: 0 <= k < |t| ==> '_' !in t[k].0 && '_' !in t[k].1
  }

  /** One substitution keeps a masked text's shape, gaps still free of `_`. */
  lemma {:induction false} SubKeepsShape(x: string, g1: seq<string>, f: seq<string>, term: string, rep: string)
    requires |g1| == |f| + 1 && x == Interleave(g1, f)
    requires forall k :: 0 <= k < |g1| ==> '_' !in g1[k]
    requires forall k :: 0 <= k < |f| ==> SentinelLike(f[k])
    requires |term| > 0 && '_' !in term && '_' !in rep
    ensures exists g2: seq<string> :: |g2| == |g1| && (forall k :: 0 <= k < |g2| ==> '_' !in g2[k])
                                      && Sub(x, term, rep) == Interleave(g2, f)
  {
    assert x[0..] == x;
    SubShapeFrom(x, g1, f, 0, term, rep);
    var g2 := SubGaps(x, g1, f, 0, term, rep);
    assert |g2| == |g1| && (forall k :: 0 <= k < |g2| ==> '_' !in g2[k]) && Sub(x, term, rep) == Interleave(g2, f);
  }

  /** The whole table keeps a masked text's shape. */
  lemma {:induction false} SubTableShape(s: string, g: seq<string>, f: seq<string>, t: Table, n: nat)
    requires |g| == |f| + 1 && s == Interleave(g, f)
    requires forall k :: 0 <= k < |g| ==> '_' !in g[k]
    requires forall k :: 0 <= k < |f| ==> SentinelLike(f[k])
    requires SafeTable(t) && n <= |t|
    ensures exists g2: seq<string> :: |g2| == |g| && (forall k :: 0 <= k < |g2| ==> '_' !in g2[k])
                                      && SubTable(s, t, n) == Interleave(g2, f)
  {
    if n == 0 {
      assert SubTable(s, t, 0) == Interleave(g, f);
    } else {
      SubTableShape(s, g, f, t, n - 1);
      var g1: seq<string> :| |g1| == |g| && (forall k :: 0 <= k < |g1| ==> '_' !in g1[k])
                             && SubTable(s, t, n - 1) == Interleave(g1, f);
      SubKeepsShape(SubTable(s, t, n - 1), g1, f, t[n - 1].0, t[n - 1].1);
    }
  }



  // ------------------------------------------------------------------ restoring

  lemma {:induction false} NoMarkerConcat(x: string, y: string)
    requires NoMarker(x) && NoMarker(y)
    requires (|x| > 0 && x[|x| - 1] !in Marker) || (|y| > 0 && y[0] !in Marker)
    ensures NoMarker(x + y)
  {
    var z := x + y;
    forall q ensures !OccursAt(z, Marker, q) {
      if 0 <= q && q + 4 <= |z| {
        if q + 4 <= |x| {
          assert z[q..q + 4] == x[q..q + 4];
          assert !OccursAt(x, Marker, q);
        } else if q >= |x| {
          assert z[q..q + 4] == y[q - |x|..q - |x| + 4];
          assert !OccursAt(y, Marker, q - |x|);
        } else if |x| > 0 && x[|x| - 1] !in Marker {
          assert z[q..q + 4][|x| - 1 - q] == x[|x| - 1];
        } else {
          assert z[q..q + 4][|x| - q] == y[0];
        }
      }
    }
  }

  lemma {:induction false} NoMarkerParts(x: string, y: string)
    requires NoMarker(x + y)
    ensures NoMarker(x) && NoMarker(y)
  {
    var z := x + y;
    forall q ensures !OccursAt(x, Marker, q) && !OccursAt(y, Marker, q) {
      assert !OccursAt(z, Marker, q) && !OccursAt(z, Marker, |x| + q);
      if 0 <= q && q + 4 <= |x| {
        assert z[q..q + 4] == x[q..q + 4];
      }
      if 0 <= q && q + 4 <= |y| {
        assert z[|x|..] == y;
        assert z[|x| + q..|x| + q + 4] == z[|x|..][q..q + 4];
      }
    }
  }

  lemma {:induction false} InterleaveNoMarker(g: seq<string>, f: seq<string>)
    requires |g| == |f| + 1
    requires forall k :: 0 <= k < |g| ==> NoMarker(g[k])
    requires forall k :: 0 <= k < |f| ==> NoMarker(f[k]) && Braced(f[k])
    ensures NoMarker(Interleave(g, f))
  {
    if |f| > 0 {
      var rest := Interleave(g[1..], f[1..]);
      InterleaveNoMarker(g[1..], f[1..]);
      NoMarkerConcat(f[0], rest);
      assert (f[0] + rest)[0] == '{';
      NoMarkerConcat(g[0], f[0] + rest);
      assert g[0] + f[0] + rest == g[0] + (f[0] + rest);
    }
  }

  lemma {:induction false} InterleaveNoMarkerPieces(g: seq<string>, f: seq<string>)
    requires |g| == |f| + 1 && NoMarker(Interleave(g, f))
    ensures forall k :: 0 <= k < |g| ==> NoMarker(g[k])
    ensures forall k :: 0 <= k < |f| ==> NoMarker(f[k])
  {
    if |f| > 0 {
      var rest := Interleave(g[1..], f[1..]);
      assert Interleave(g, f) == g[0] + (f[0] + rest);
      NoMarkerParts(g[0], f[0] + rest);
      NoMarkerParts(f[0], rest);
      InterleaveNoMarkerPieces(g[1..], f[1..]);
      assert forall k :: 1 <= k < |g| ==> g[k] == g[1..][k - 1];
      assert forall k :: 1 <= k < |f| ==> f[k] == f[1..][k - 1];
    }
  }

  lemma {:induction false} NoUnderscoreNoMarker(x: string)
    requires '_' !in x
    ensures NoMarker(x)
  {
    forall q | 0 <= q && q + 4 <= |x| ensures !OccursAt(x, Marker, q) {
      assert x[q..q + 4][0] == x[q];
    }
  }

  /** A sentinel cannot occur inside a text holding no `__PH`, nor straddle its end. */
  lemma {:induction false} NoEarlySentinel(a: string, w: string, b: string)
    requires NoMarker(a) && |w| >= 4 && w[..4] == Marker
    ensures forall q :: 0 <= q < |a| ==> !OccursAt(a + w + b, w, q)
  {
    var x := a + w + b;
    forall q | 0 <= q < |a| ensures !OccursAt(x, w, q) {
      if q + |w| <= |x| {
        if q + 4 <= |a| {
          assert !OccursAt(a, Marker, q);
          assert x[q..q + |w|][..4] == x[q..q + 4];
          assert x[q..q + 4] == a[q..q + 4] by {
            assert x == a + (w + b);
          }
        } else if q + 3 == |a| {
          assert x[q..q + |w|][3] == w[0];
        } else {
          assert x[q + 2] == w[2 - (|a| - q)];
          assert x[q..q + |w|][2] == x[q + 2];
        }
      }
    }
  }

  /** After `i` restoring steps the first `i` sentinels are placeholders again. */
  lemma {:induction false} RestoreShape(g: seq<string>, f: seq<string>, i: nat)
    requires |g| == |f| + 1 && i <= |f|
    requires forall k :: 0 <= k < |g| ==> NoMarker(g[k])
    requires forall k :: 0 <= k < |f| ==> NoMarker(f[k]) && Braced(f[k])
    ensures Restored(Interleave(g, Sentinels(|f|)), f, i) == Interleave(g, f[..i] + Sentinels(|f|)[i..])
  {
    var sn := Sentinels(|f|);
    if i == 0 {
      assert f[..0] + sn[0..] == sn;
    } else {
      RestoreShape(g, f, i - 1);
      RestoreStep(g, f, i);
    }
  }

  /** Swapping back sentinel `i - 1` after the first `i - 1` were. */
  lemma {:induction false} RestoreStep(g: seq<string>, f: seq<string>, i: nat)
    requires |g| == |f| + 1 && 0 < i <= |f|
    requires forall k :: 0 <= k < |g| ==> NoMarker(g[k])
    requires forall k :: 0 <= k < |f| ==> NoMarker(f[k]) && Braced(f[k])
    requires Restored(Interleave(g, Sentinels(|f|)), f, i - 1) == Interleave(g, f[..i - 1] + Sentinels(|f|)[i - 1..])
    ensures Restored(Interleave(g, Sentinels(|f|)), f, i) == Interleave(g, f[..i] + Sentinels(|f|)[i..])
  {
    var sn := Sentinels(|f|);
    var w := Sentinel(i - 1);
    var h := f[..i - 1] + sn[i - 1..];
    var h2 := f[..i] + sn[i..];
    var a := Interleave(g[..i], f[..i - 1]);
    var b := Interleave(g[i..], sn[i..]);
    HoleSlices(f, sn, i);
    InterleaveAt(g, h, i - 1);
    InterleaveAt(g, h2, i - 1);
    assert Interleave(g, h) == a + w + b;
    assert Interleave(g, h2) == a + f[i - 1] + b;
    RestoreFront(g[..i], f[..i - 1]);
    NoEarlySentinel(a, w, b);
    ReplaceFirstAt(a, w, b, f[i - 1]);
  }

  /** The pieces before and after the hole at `i - 1`, seen from both fillings. */
  lemma {:induction false} HoleSlices<T>(f: seq<T>, sn: seq<T>, i: nat)
    requires 0 < i <= |f| == |sn|
    ensures var h, h2 := f[..i - 1] + sn[i - 1..], f[..i] + sn[i..];
            h[..i - 1] == f[..i - 1] == h2[..i - 1] && h[i..] == sn[i..] == h2[i..]
            && h[i - 1] == sn[i - 1] && h2[i - 1] == f[i - 1]
  {
    var h, h2 := f[..i - 1] + sn[i - 1..], f[..i] + sn[i..];
    assert h[i..] == sn[i..] by {
      forall k | 0 <= k < |sn| - i ensures h[i..][k] == sn[i..][k] {
        assert h[i + k] == sn[i - 1..][k + 1];
      }
    }
    assert h2[i..] == sn[i..];
  }

  /** The restored front, before sentinel `i - 1`, holds no marker. */
  lemma {:induction false} RestoreFront(g: seq<string>, done: seq<string>)
    requires |g| == |done| + 1
    requires forall k :: 0 <= k < |g| ==> NoMarker(g[k])
    requires forall k :: 0 <= k < |done| ==> NoMarker(done[k]) && Braced(done[k])
    ensures NoMarker(Interleave(g, done))
  {
    InterleaveNoMarker(g, done);
  }

  // ------------------------------------------------------------------ translate_text

  /** A language without a table gives any text holding no `__PH` back unchanged. */
  lemma {:induction false} UnsupportedLanguageUnchanged(text: string, tables: map<string, Table>, lang: string)
    requires ValidTables(tables) && lang !in tables && NoMarker(text)
    ensures TranslateValue(text, tables, lang) == text
  {
    if !IsCommand(PyStrip(text)) {
      var g, f := Gaps(text), Placeholders(text);
      PlaceholderScan(text);
      MaskShape(text, g, f, |f|);
      assert Sentinels(|f|)[..|f|] + f[|f|..] == Sentinels(|f|);
      InterleaveNoMarkerPieces(g, f);
      RestoreShape(g, f, |f|);
      assert f[..|f|] + Sentinels(|f|)[|f|..] == f;
    }
  }

  /**
   * Every placeholder of the text comes out verbatim and in order: the result is
   * the text's own placeholders with (possibly translated) text between them.
   * Holds when the text contains no `__PH`, no `_` outside its placeholders, and
   * no table term or replacement contains `_`.
   */
  lemma {:induction false} PlaceholdersPreserved(text: string, tables: map<string, Table>, lang: string)
    requires ValidTables(tables) && NoMarker(text)
    requires forall k :: 0 <= k < |Gaps(text)| ==> '_' !in Gaps(text)[k]
    requires lang in tables ==> SafeTable(tables[lang])
    ensures exists g2: seq<string> :: |g2| == |Placeholders(text)| + 1
                                      && TranslateValue(text, tables, lang) == Interleave(g2, Placeholders(text))
  {
    var g, f := Gaps(text), Placeholders(text);
    PlaceholderScan(text);
    if IsCommand(PyStrip(text)) {
      assert TranslateValue(text, tables, lang) == Interleave(g, f);
    } else {
      var sn := Sentinels(|f|);
      MaskShape(text, g, f, |f|);
      assert sn[..|f|] + f[|f|..] == sn;
      InterleaveNoMarkerPieces(g, f);
      var temp := Masked(text, f, |f|);
      var g2 := g;
      if lang in tables {
        var t := tables[lang];
        SentinelsAreLike(|f|);
        SubTableShape(temp, g, sn, t, |t|);
        g2 :| |g2| == |g| && (forall k :: 0 <= k < |g2| ==> '_' !in g2[k])
              && SubTable(temp, t, |t|) == Interleave(g2, sn);
        forall k | 0 <= k < |g2| ensures NoMarker(g2[k]) {
          NoUnderscoreNoMarker(g2[k]);
        }
      }
      RestoreShape(g2, f, |f|);
      assert f[..|f|] + sn[|f|..] == f;
      assert TranslateValue(text, tables, lang) == Interleave(g2, f);
    }
  }

  // ------------------------------------------------------------------ generate_translation

  /** No replacement of any table introduces a line break. */
  predicate NewlineFreeTables(tables: map<string, Table>)
  {
    forall l, k :: l in tables && 0 <= k < |tables[l]| ==> '\n' !in tables[l][k].1
  }

  lemma {:induction false} ReplaceFirstFree(s: string, pat: string, rep: string, c: char)
    requires c !in s && c !in rep
    ensures c !in ReplaceFirst(s, pat, rep)
  {
    match IndexOf(s, pat)
    case None =>
    case Some(k) =>
      assert s == s[..k] + s[k..];
      assert s[k + |pat|..] == s[k..][|pat|..];
  }

  lemma {:induction false} MaskedFree(text: string, phs: seq<string>, n: nat)
    requires n <= |phs| && '\n' !in text
    ensures '\n' !in Masked(text, phs, n)
  {
    if n > 0 {
      MaskedFree(text, phs, n - 1);
      SentinelIsLike(n - 1);
      ReplaceFirstFree(Masked(text, phs, n - 1), phs[n - 1], Sentinel(n - 1), '\n');
    }
  }

  lemma {:induction false} RestoredFree(r: string, phs: seq<string>, n: nat)
    requires n <= |phs| && '\n' !in r && forall k :: 0 <= k < |phs| ==> '\n' !in phs[k]
    ensures '\n' !in Restored(r, phs, n)
  {
    if n > 0 {
      RestoredFree(r, phs, n - 1);
      ReplaceFirstFree(Restored(r, phs, n - 1), Sentinel(n - 1), phs[n - 1], '\n');
    }
  }

  lemma {:induction false} SubFromFree(s: string, term: string, rep: string, i: nat, c: char)
    requires |term| > 0 && c !in s && c !in rep
    ensures c !in SubFrom(s, term, rep, i)
    decreases |s| - i
  {
    if i < |s| {
      if MatchAt(s, i, term) {
        SubFromFree(s, term, rep, i + |term|, c);
      } else {
        SubFromFree(s, term, rep, i + 1, c);
      }
    }
  }

  lemma {:induction false} SubTableFree(s: string, t: Table, n: nat)
    requires ValidTable(t) && n <= |t| && '\n' !in s
    requires forall k :: 0 <= k < |t| ==> '\n' !in t[k].1
    ensures '\n' !in SubTable(s, t, n)
  {
    if n > 0 {
      SubTableFree(s, t, n - 1);
      SubFromFree(SubTable(s, t, n - 1), t[n - 1].0, t[n - 1].1, 0, '\n');
    }
  }

  lemma {:induction false} InterleavePiecesFree(g: seq<string>, f: seq<string>, c: char)
    requires |g| == |f| + 1 && c !in Interleave(g, f)
    ensures forall k :: 0 <= k < |f| ==> c !in f[k]
  {
    if |f| > 0 {
      InterleavePiecesFree(g[1..], f[1..], c);
      assert forall k :: 1 <= k < |f| ==> f[k] == f[1..][k - 1];
    }
  }

  /** A text on one line is translated into a text on one line when no replacement holds a line break. */
  lemma {:induction false} TranslateValueOneLine(text: string, tables: map<string, Table>, lang: string)
    requires ValidTables(tables) && NewlineFreeTables(tables) && '\n' !in text
    ensures '\n' !in TranslateValue(text, tables, lang)
  {
    if !IsCommand(PyStrip(text)) {
      var phs := Placeholders(text);
      PlaceholderScan(text);
      InterleavePiecesFree(Gaps(text), phs, '\n');
      MaskedFree(text, phs, |phs|);
      var temp := Masked(text, phs, |phs|);
      var result := if lang in tables then SubTable(temp, tables[lang], |tables[lang]|) else temp;
      if lang in tables {
        SubTableFree(temp, tables[lang], |tables[lang]|);
      }
      RestoredFree(result, phs, |phs|);
    }
  }

  lemma {:induction false} NoCharFromNoContains(s: string, c: char)
    requires !Contains(s, [c])
    ensures c !in s
  {
    forall i | 0 <= i < |s| ensures s[i] != c {
      assert !OccursAt(s, [c], i);
      assert s[i..i + 1] == [s[i]];
    }
  }

  lemma {:induction false} TranslateLineOneLine(line: string, tables: map<string, Table>, lang: string)
    requires ValidTables(tables) && NewlineFreeTables(tables) && '\n' !in line
    ensures '\n' !in TranslateLine(line, tables, lang)
  {
    var st := PyStrip(line);
    if !(st == "" || StartsWith(st, "//")) {
      match ParseEntry(line)
      case None =>
      case Some(e) =>
        EntryOneLine(line, e);
        TranslateValueOneLine(e.value, tables, lang);
        var v := TranslateValue(e.value, tables, lang);
        EntryLineFree(e.indent, e.key, v, e.comma, e.trailing);
        assert TranslateLine(line, tables, lang) == e.indent + e.key + ": \"" + v + "\"" + e.comma + e.trailing;
    }
  }

  lemma {:induction false} EntryLineFree(indent: string, key: string, v: string, comma: string, trailing: string)
    requires '\n' !in indent && '\n' !in key && '\n' !in v && '\n' !in comma && '\n' !in trailing
    ensures '\n' !in indent + key + ": \"" + v + "\"" + comma + trailing
  {
  }

  lemma {:induction false} EntryOneLine(line: string, e: Entry)
    requires ParseEntry(line) == Some(e) && '\n' !in line
    ensures '\n' !in e.indent && '\n' !in e.key && '\n' !in e.value && '\n' !in e.comma && '\n' !in e.trailing
  {
    var pre := e.indent + e.key + ":" + e.sep + [e.open] + e.value + [e.close] + e.comma + e.trailing;
    assert line[..|pre|] == pre;
    forall c | c in pre ensures c != '\n' {
      var i :| 0 <= i < |pre| && pre[i] == c;
      assert line[i] == c;
    }
  }

  /**
   * `generate_translation` keeps the block's line structure: its output splits
   * into exactly as many lines as its input, the k-th being the k-th input line
   * translated.
   */
  lemma {:induction false} GenerateTranslationLines(enText: string, tables: map<string, Table>, lang: string)
    requires ValidTables(tables) && NewlineFreeTables(tables)
    ensures var out := TranslateLines(Split(enText, "\n"), tables, lang);
            Split(Join(out, "\n"), "\n") == out && |out| == |Split(enText, "\n")|
  {
    var lines := Split(enText, "\n");
    var out := TranslateLines(lines, tables, lang);
    SplitPiecesFree(enText, "\n");
    forall k | 0 <= k < |out| ensures '\n' !in out[k] {
      TranslateLinesAt(lines, tables, lang, k);
      NoCharFromNoContains(lines[k], '\n');
      TranslateLineOneLine(lines[k], tables, lang);
    }
    SplitJoin(out, '\n');
  }

  /** A text starting with `a + b` starts with `a`. */
  lemma {:induction false} StartsWithFront(s: string, a: string, b: string)
    requires StartsWith(s, a + b)
    ensures StartsWith(s, a)
  {
    assert s[..|a|] == (a + b)[..|a|];
  }

  /** The greedy `\s*` from `i` stops at the first non-space. */
  lemma {:induction false} SpaceEndIs(s: string, i: nat, j: nat)
    requires i <= j <= |s| && forall q :: i <= q < j ==> IsPySpace(s[q])
    requires j == |s| || !IsPySpace(s[j])
    ensures SpaceEnd(s, i) == j
    decreases j - i
  {
    if i < j {
      SpaceEndIs(s, i + 1, j);
    }
  }

  /** The greedy `[a-z_]+` from `i` stops at the first non-key character. */
  lemma {:induction false} KeyEndIs(s: string, i: nat, j: nat)
    requires i <= j <= |s| && forall q :: i <= q < j ==> IsKeyChar(s[q])
    requires j == |s| || !IsKeyChar(s[j])
    ensures KeyEnd(s, i) == j
    decreases j - i
  {
    if i < j {
      KeyEndIs(s, i + 1, j);
    }
  }

  /** The closing quote is the first quote, when no line break comes before it. */
  lemma {:induction false} ClosingQuoteIs(s: string, p: nat, e: nat)
    requires p <= e < |s| && IsQuote(s[e])
    requires forall q :: p <= q < e ==> !IsQuote(s[q]) && s[q] != '\n'
    ensures ClosingQuote(s, p) == Some(e)
    decreases e - p
  {
    if p < e {
      ClosingQuoteIs(s, p + 1, e);
    }
  }

  /** A line whose characters sit where the pattern wants them matches with exactly those spans. */
  lemma {:induction false} MatchSpansIs(line: string, p: Spans)
    requires ValidSpans(line, p)
    requires p.t == |line| || !IsPySpace(line[p.t])
    ensures MatchSpans(line) == Some(p)
  {
    SpaceEndIs(line, 0, p.w);
    KeyEndIs(line, p.w, p.k);
    SpaceEndIs(line, p.k + 1, p.v0);
    ClosingQuoteIs(line, p.v0 + 2, p.e);
    SpaceEndIs(line, p.c, p.t);
    MatchSpansFrom(line, p);
  }

  /** `MatchSpans` once its scans are known. */
  lemma {:induction false} MatchSpansFrom(line: string, p: Spans)
    requires Scanned(line, p)
    ensures MatchSpans(line) == Some(p)
  {
  }

  /** `b` sits in `s` right after `a`. */
  lemma {:induction false} PieceAt(s: string, a: string, b: string)
    requires StartsWith(s, a + b)
    ensures s[|a|..|a| + |b|] == b
    ensures forall q :: 0 <= q < |b| ==> s[|a| + q] == b[q]
  {
    assert s[..|a| + |b|] == a + b;
    assert s[|a|..|a| + |b|] == (a + b)[|a|..];
  }

  /**
   * Every line of the pattern's shape matches, with exactly its parts as the
   * groups: the indent and the spaces are taken greedily, so what follows the
   * match must not extend them (another space, or a comma where none was
   * taken).
   */
  lemma {:induction false} ParseEntryBuilt(indent: string, key: string, sep: string, open: char, value: string,
                                           close: char, comma: string, trailing: string, rest: string)
    requires Spaces(indent) && Spaces(sep) && Spaces(trailing)
    requires |key| > 0 && forall i :: 0 <= i < |key| ==> IsKeyChar(key[i])
    requires IsQuote(open) && IsQuote(close) && LazyValue(value)
    requires comma in {"", ","}
    requires rest == "" || !IsPySpace(rest[0])
    requires comma == "" && trailing == "" && rest != "" ==> rest[0] != ','
    ensures ParseEntry(indent + key + ":" + sep + [open] + value + [close] + comma + trailing + rest)
            == Some(Entry(indent, key, sep, open, value, close, comma, trailing))
  {
    var line := indent + key + ":" + sep + [open] + value + [close] + comma + trailing + rest;
    var w := |indent|;
    var k := w + |key|;
    var v0 := k + 1 + |sep|;
    var e := v0 + 1 + |value|;
    var c := e + 1 + |comma|;
    var p := Spans(w, k, v0, e, c, c + |trailing|);
    BuiltSlices(line, indent, key, sep, open, value, close, comma, trailing, rest);
    ParseEntrySliced(line, p, indent, key, sep, open, value, close, comma, trailing, rest);
  }

  /** `ParseEntryBuilt` with the line given by where its parts sit. */
  lemma {:induction false} ParseEntrySliced(line: string, p: Spans, indent: string, key: string, sep: string, open: char,
                                            value: string, close: char, comma: string, trailing: string, rest: string)
    requires Spaces(indent) && Spaces(sep) && Spaces(trailing)
    requires |key| > 0 && forall i :: 0 <= i < |key| ==> IsKeyChar(key[i])
    requires IsQuote(open) && IsQuote(close) && LazyValue(value) && comma in {"", ","}
    requires rest == "" || !IsPySpace(rest[0])
    requires comma == "" && trailing == "" && rest != "" ==> rest[0] != ','
    requires p.w == |indent| && p.k == p.w + |key| && p.v0 == p.k + 1 + |sep| && p.e == p.v0 + 1 + |value|
    requires p.c == p.e + 1 + |comma| && p.t == p.c + |trailing| && |line| == p.t + |rest|
    requires line[..p.w] == indent && line[p.w..p.k] == key && line[p.k] == ':' && line[p.k + 1..p.v0] == sep
    requires line[p.v0] == open && line[p.v0 + 1..p.e] == value && line[p.e] == close
    requires line[p.e + 1..p.c] == comma && line[p.c..p.t] == trailing && line[p.t..] == rest
    ensures ParseEntry(line) == Some(Entry(indent, key, sep, open, value, close, comma, trailing))
  {
    SlicedSpansValid(line, p, indent, key, sep, value, comma, trailing, rest);
    MatchSpansIs(line, p);
    ParseEntryOfSpans(line, p);
    GroupsAt(line, p);
  }

  /** The groups are the slices between the spans. */
  lemma {:induction false} GroupsAt(line: string, p: Spans)
    requires ValidSpans(line, p)
    ensures Groups(line, p) == Entry(line[..p.w], line[p.w..p.k], line[p.k + 1..p.v0], line[p.v0], line[p.v0 + 1..p.e],
                                     line[p.e], line[p.e + 1..p.c], line[p.c..p.t])
  {
    var comma := if p.c == p.e + 2 then "," else "";
    assert line[p.e + 1..p.c] == comma;
  }

  /** Where each part of a line built from the pattern's parts sits. */
  lemma {:induction false} BuiltSlices(line: string, indent: string, key: string, sep: string, open: char, value: string,
                                       close: char, comma: string, trailing: string, rest: string)
    requires line == indent + key + ":" + sep + [open] + value + [close] + comma + trailing + rest
    ensures var w := |indent|; var k := w + |key|; var v0 := k + 1 + |sep|; var e := v0 + 1 + |value|;
            var c := e + 1 + |comma|; var t := c + |trailing|;
            |line| == t + |rest| && line[..w] == indent && line[w..k] == key && line[k] == ':'
            && line[k + 1..v0] == sep && line[v0] == open && line[v0 + 1..e] == value && line[e] == close
            && line[e + 1..c] == comma && line[c..t] == trailing && line[t..] == rest
  {
    var p1 := indent + key;
    var p2 := p1 + ":";
    var p3 := p2 + sep;
    var p4 := p3 + [open];
    var p5 := p4 + value;
    var p6 := p5 + [close];
    var p7 := p6 + comma;
    var p8 := p7 + trailing;
    assert line == p8 + rest;
    assert line[|p8|..] == rest;
    StartsWithFront(line, p8, rest);
    PieceAt(line, p7, trailing);
    StartsWithFront(line, p7, trailing);
    PieceAt(line, p6, comma);
    StartsWithFront(line, p6, comma);
    PieceAt(line, p5, [close]);
    StartsWithFront(line, p5, [close]);
    PieceAt(line, p4, value);
    StartsWithFront(line, p4, value);
    PieceAt(line, p3, [open]);
    StartsWithFront(line, p3, [open]);
    PieceAt(line, p2, sep);
    StartsWithFront(line, p2, sep);
    PieceAt(line, p1, ":");
    StartsWithFront(line, p1, ":");
    PieceAt(line, indent, key);
    StartsWithFront(line, indent, key);
  }

  /** Spans around parts of the pattern's shapes are valid, and the spaces end where the parts do. */
  lemma {:induction false} SlicedSpansValid(line: string, p: Spans, indent: string, key: string, sep: string,
                                            value: string, comma: string, trailing: string, rest: string)
    requires Spaces(indent) && Spaces(sep) && Spaces(trailing)
    requires |key| > 0 && forall i :: 0 <= i < |key| ==> IsKeyChar(key[i])
    requires LazyValue(value) && comma in {"", ","}
    requires rest == "" || !IsPySpace(rest[0])
    requires comma == "" && trailing == "" && rest != "" ==> rest[0] != ','
    requires p.w == |indent| && p.k == p.w + |key| && p.v0 == p.k + 1 + |sep| && p.e == p.v0 + 1 + |value|
    requires p.c == p.e + 1 + |comma| && p.t == p.c + |trailing| && |line| == p.t + |rest|
    requires line[..p.w] == indent && line[p.w..p.k] == key && line[p.k] == ':' && line[p.k + 1..p.v0] == sep
    requires IsQuote(line[p.v0]) && line[p.v0 + 1..p.e] == value && IsQuote(line[p.e])
    requires line[p.e + 1..p.c] == comma && line[p.c..p.t] == trailing && line[p.t..] == rest
    ensures ValidSpans(line, p)
    ensures p.t == |line| || !IsPySpace(line[p.t])
  {
    assert forall q :: 0 <= q < p.w ==> line[q] == indent[q];
    assert forall q :: p.w <= q < p.k ==> line[q] == key[q - p.w];
    assert forall q :: p.k + 1 <= q < p.v0 ==> line[q] == sep[q - p.k - 1];
    assert forall q :: p.v0 + 1 <= q < p.e ==> line[q] == value[q - p.v0 - 1];
    assert forall q :: p.c <= q < p.t ==> line[q] == trailing[q - p.c];
    assert p.t < |line| ==> line[p.t] == rest[0];
    if comma == "," {
      assert line[p.e + 1] == comma[0];
    } else if p.e + 1 < |line| {
      assert trailing != "" ==> line[p.e + 1] == trailing[0];
    }
  }

  /** `ParseEntry` takes the groups at the spans `MatchSpans` finds. */
  lemma {:induction false} ParseEntryOfSpans(line: string, p: Spans)
    requires MatchSpans(line) == Some(p) && ValidSpans(line, p)
    ensures ParseEntry(line) == Some(Groups(line, p))
  {
  }

  /** Blank lines, `//` comment lines and lines the entry pattern does not match come out verbatim. */
  lemma {:induction false} TranslateLineKept(line: string, tables: map<string, Table>, lang: string)
    requires ValidTables(tables)
    requires PyStrip(line) == "" || StartsWith(PyStrip(line), "//") || ParseEntry(line).None?
    ensures TranslateLine(line, tables, lang) == line
  {
  }

  /**
   * A matching line keeps its indent, key, comma and trailing spaces; the
   * value, translated, is put between double quotes, and whatever followed
   * the match on the line is dropped.
   */
  lemma {:induction false} TranslateLineRequoted(line: string, tables: map<string, Table>, lang: string, e: Entry)
    requires ValidTables(tables)
    requires PyStrip(line) != "" && !StartsWith(PyStrip(line), "//") && ParseEntry(line) == Some(e)
    ensures var n := |e.indent| + |e.key| + 1;
            var m := n + |e.sep| + |e.value| + 2;
            m + |e.comma| + |e.trailing| <= |line| && line[n - 1] == ':'
            && TranslateLine(line, tables, lang)
               == line[..n] + " \"" + TranslateValue(line[n + |e.sep| + 1..m - 1], tables, lang) + "\""
                  + line[m..m + |e.comma| + |e.trailing|]
  {
    TranslateLineOfEntry(line, tables, lang, e);
    EntrySlices(line, e);
    RequoteAssoc(e.indent + e.key, TranslateValue(e.value, tables, lang), e.comma, e.trailing);
  }

  /** `TranslateLine` on a matched line rebuilds it from the groups. */
  lemma {:induction false} TranslateLineOfEntry(line: string, tables: map<string, Table>, lang: string, e: Entry)
    requires ValidTables(tables)
    requires PyStrip(line) != "" && !StartsWith(PyStrip(line), "//") && ParseEntry(line) == Some(e)
    ensures TranslateLine(line, tables, lang) ==
              e.indent + e.key + ": \"" + TranslateValue(e.value, tables, lang) + "\"" + e.comma + e.trailing
  {
  }

  /** Where the groups of a match sit in the line. */
  lemma {:induction false} EntrySlices(line: string, e: Entry)
    requires StartsWith(line, e.indent + e.key + ":" + e.sep + [e.open] + e.value + [e.close] + e.comma + e.trailing)
    ensures var n := |e.indent| + |e.key| + 1;
            var m := n + |e.sep| + |e.value| + 2;
            m + |e.comma| + |e.trailing| <= |line| && line[n - 1] == ':' && line[..n] == e.indent + e.key + ":"
            && line[n + |e.sep| + 1..m - 1] == e.value && line[m..m + |e.comma| + |e.trailing|] == e.comma + e.trailing
  {
    var head := e.indent + e.key + ":";
    var quoted := head + e.sep + [e.open] + e.value + [e.close];
    StartsWithFront(line, quoted + e.comma, e.trailing);
    PieceAt(line, quoted + e.comma, e.trailing);
    StartsWithFront(line, quoted, e.comma);
    PieceAt(line, quoted, e.comma);
    StartsWithFront(line, head + e.sep + [e.open] + e.value, [e.close]);
    PieceAt(line, head + e.sep + [e.open], e.value);
    StartsWithFront(line, head + e.sep + [e.open], e.value);
    StartsWithFront(line, head + e.sep, [e.open]);
    StartsWithFront(line, head, e.sep);
    var n := |head|;
    var m := |quoted|;
    assert line[..n] == head;
    assert line[n - 1] == head[n - 1];
    assert line[m..m + |e.comma| + |e.trailing|] == line[m..m + |e.comma|] + line[m + |e.comma|..m + |e.comma| + |e.trailing|];
  }

  /** The rebuilt line, regrouped as head, re-quoted value and tail. */
  lemma {:induction false} RequoteAssoc(ik: string, v: string, comma: string, trailing: string)
    ensures ik + ": \"" + v + "\"" + comma + trailing == (ik + ":") + " \"" + v + "\"" + (comma + trailing)
  {
    assert ik + ": \"" == (ik + ":") + " \"";
    var x := (ik + ":") + " \"" + v + "\"";
    assert x + comma + trailing == x + (comma + trailing);
  }

  /**
   * A line already in the form `generate_translation` writes (one space after
   * the colon, double quotes, no text after the match) comes back unchanged
   * for a language without a table.
   */
  lemma {:induction false} CanonicalLineKept(indent: string, key: string, value: string, comma: string, trailing: string,
                                             tables: map<string, Table>, lang: string)
    requires ValidTables(tables) && lang !in tables && NoMarker(value)
    requires Spaces(indent) && Spaces(trailing) && comma in {"", ","}
    requires |key| > 0 && forall i :: 0 <= i < |key| ==> IsKeyChar(key[i])
    requires LazyValue(value)
    ensures TranslateLine(indent + key + ": \"" + value + "\"" + comma + trailing, tables, lang)
            == indent + key + ": \"" + value + "\"" + comma + trailing
  {
    var line := indent + key + ": \"" + value + "\"" + comma + trailing;
    CanonicalAssoc(indent + key, value, comma, trailing);
    assert Spaces(" ") by {
      assert IsPySpace(" "[0]);
    }
    ParseEntryBuilt(indent, key, " ", '"', value, '"', comma, trailing, "");
    var st := PyStrip(line);
    if st == "" || StartsWith(st, "//") {
      TranslateLineKept(line, tables, lang);
    } else {
      TranslateLineOfEntry(line, tables, lang, Entry(indent, key, " ", '"', value, '"', comma, trailing));
      UnsupportedLanguageUnchanged(value, tables, lang);
    }
  }

  /** The canonical line, split into the parts of the entry pattern. */
  lemma {:induction false} CanonicalAssoc(ik: string, v: string, comma: string, trailing: string)
    ensures ik + ": \"" + v + "\"" + comma + trailing == ik + ":" + " " + ['"'] + v + ['"'] + comma + trailing + ""
  {
    assert ik + ": \"" == ik + ":" + " " + ['"'];
  }

  /** `.+?` takes at least one character and `.` matches a quote, so a value may open with a quote. */
  lemma {:induction false} ValueMayOpenWithQuote()
    ensures ParseEntry("k: \"\"\"") == Some(Entry("", "k", " ", '"', "\"", '"', "", ""))
  {
    assert Spaces(" ") by {
      assert IsPySpace(" "[0]);
    }
    assert "k: \"\"\"" == "" + "k" + ":" + " " + ['"'] + "\"" + ['"'] + "" + "" + "";
    ParseEntryBuilt("", "k", " ", '"', "\"", '"', "", "", "");
  }
}
