// The API worker's own helpers: item-key normalisation (a Vinted item URL
// becomes `vinted:<id>`, an OLX offer URL `olx:<id>`, any other link loses
// its query and fragment), the batch message under Telegram's length cap,
// and the price bounds read from a search URL.

module ApiWorker {
  import opened Wrappers
  import opened Strings
  import opened Feed

  // ---------------------------------------------------------- regular-expression pieces

  /** The end of the run of ASCII digits starting at `i` (`\d+` is greedy). */
  function DigitsEnd(s: string, i: nat): (r: nat)
    requires i <= |s|
    ensures i <= r <= |s|
    ensures forall q :: i <= q < r ==> IsAsciiDigit(s[q])
    ensures r < |s| ==> !IsAsciiDigit(s[r])
    decreases |s| - i
  {
    if i < |s| && IsAsciiDigit(s[i]) then DigitsEnd(s, i + 1) else i
  }

  /** The end of the run of ASCII letters and digits starting at `i`. */
  function AlnumEnd(s: string, i: nat): (r: nat)
    requires i <= |s|
    ensures i <= r <= |s|
    ensures forall q :: i <= q < r ==> IsAsciiLetter(s[q]) || IsAsciiDigit(s[q])
    ensures r < |s| ==> !(IsAsciiLetter(s[r]) || IsAsciiDigit(s[r]))
    decreases |s| - i
  {
    if i < |s| && (IsAsciiLetter(s[i]) || IsAsciiDigit(s[i])) then AlnumEnd(s, i + 1) else i
  }

  const ItemsPath: string := "/items/"

  /**
   * `pat` (lower case) followed by a digit matches at `p`, ignoring ASCII
   * case: for `pat` = `/items/` this is `/\/items\/(\d+)/i`.
   */
  predicate IdAfterAt(s: string, pat: string, p: int)
  {
    CiOccursAt(s, pat, p) && p + |pat| < |s| && IsAsciiDigit(s[p + |pat|])
  }

  /** The leftmost match of `pat` and a digit at or after `from`. */
  function IdAfterFrom(s: string, pat: string, from: nat): (r: Option<nat>)
    ensures r.Some? ==> from <= r.value && IdAfterAt(s, pat, r.value)
    ensures r.None? ==> forall q :: from <= q ==> !IdAfterAt(s, pat, q)
    decreases |s| - from
  {
    if from >= |s| then None
    else if IdAfterAt(s, pat, from) then Some(from)
    else IdAfterFrom(s, pat, from + 1)
  }

  /**
   * `/-ID([0-9A-Za-z]+)\.html/i` matches at `p`. The letters and digits
   * cannot contain the `.`, so only the longest run can be followed by it.
   */
  predicate OlxIdAt(s: string, p: int)
  {
    CiOccursAt(s, "-id", p) && AlnumEnd(s, p + 3) > p + 3 && CiOccursAt(s, ".html", AlnumEnd(s, p + 3))
  }

  /** The leftmost match of the OLX offer pattern at or after `from`. */
  function OlxIdFrom(s: string, from: nat): (r: Option<nat>)
    ensures r.Some? ==> from <= r.value && OlxIdAt(s, r.value)
    ensures r.None? ==> forall q :: from <= q ==> !OlxIdAt(s, q)
    decreases |s| - from
  {
    if from >= |s| then None
    else if OlxIdAt(s, from) then Some(from)
    else OlxIdFrom(s, from + 1)
  }

  /** The characters `.` does not match. */
  predicate IsLineBreak(c: char)
  {
    c == '\n' || c == '\r' || c == '\U{2028}' || c == '\U{2029}'
  }

  /** `/[?#].*$/` matches at `p`: a `?` or `#` with no line break after it. */
  predicate QueryAt(s: string, p: int)
  {
    0 <= p < |s| && (s[p] == '?' || s[p] == '#') && forall q :: p < q < |s| ==> !IsLineBreak(s[q])
  }

  function QueryFrom(s: string, from: nat): (r: Option<nat>)
    ensures r.Some? ==> from <= r.value && QueryAt(s, r.value)
    ensures r.Some? ==> forall q :: from <= q < r.value ==> !QueryAt(s, q)
    ensures r.None? ==> forall q :: from <= q ==> !QueryAt(s, q)
    decreases |s| - from
  {
    if from >= |s| then None
    else if QueryAt(s, from) then Some(from)
    else QueryFrom(s, from + 1)
  }

  /** `s.replace(/[?#].*$/, "")`: the text before the leftmost match, or all of it. */
  function StripQueryHash(s: string): (r: string)
    ensures StartsWith(s, r)
  {
    match QueryFrom(s, 0)
    case None => s
    case Some(p) => s[..p]
  }

  // ---------------------------------------------------------- __fydNormalizeKey

  /** A key of the form `<prefix><run>` whose run is nonempty and made of characters satisfying `ok`. */
  predicate IdKey(r: string, prefix: string, ok: char -> bool)
  {
    StartsWith(r, prefix) && |r| > |prefix| && forall i :: |prefix| <= i < |r| ==> ok(r[i])
  }

  predicate IsAsciiAlnum(c: char) { IsAsciiLetter(c) || IsAsciiDigit(c) }

  /** A key already in canonical form, judged on the lower-cased text. */
  predicate IsPrefixedKey(lower: string)
  {
    StartsWith(lower, "vinted:") || StartsWith(lower, "olx:")
  }

  /**
   * The key built from the leftmost match of `pat` and a digit: `tag` and
   * the digits; with `pat` = `/items/` and `tag` = `vinted:` it is the
   * Vinted item key.
   */
  function DigitsKey(s: string, pat: string, tag: string): (r: Option<string>)
    ensures r.Some? ==> IdKey(r.value, tag, IsAsciiDigit)
  {
    match IdAfterFrom(s, pat, 0)
    case None => None
    case Some(p) => Some(tag + s[p + |pat|..DigitsEnd(s, p + |pat|)])
  }

  /** The key built from the leftmost OLX offer match: `olx:` and its letters and digits. */
  function OlxKey(s: string): (r: Option<string>)
    ensures r.Some? ==> IdKey(r.value, "olx:", IsAsciiAlnum)
  {
    match OlxIdFrom(s, 0)
    case None => None
    case Some(p) => Some("olx:" + s[p + 3..AlnumEnd(s, p + 3)])
  }

  /** The normalisation of text that is already trimmed. */
  function KeyOfTrimmed(s: string): string
  {
    if s == "" then ""
    else if IsPrefixedKey(Lower(s)) then s
    else if Contains(Lower(s), "vinted.") && Contains(Lower(s), ItemsPath) && DigitsKey(s, ItemsPath, "vinted:").Some? then DigitsKey(s, ItemsPath, "vinted:").value
    else if Contains(Lower(s), "olx.") && Contains(Lower(s), "-id") && OlxKey(s).Some? then OlxKey(s).value
    else StripQueryHash(s)
  }

  /**
   * `__fydNormalizeKey`; `raw` is the text of the argument, empty for a
   * missing one. The key is empty, a prefix of the trimmed input, or a Vinted
   * or OLX id key.
   */
  function NormalizeKey(raw: string): (r: string)
    ensures r == "" || StartsWith(JsTrim(raw), r) || IdKey(r, "vinted:", IsAsciiDigit) || IdKey(r, "olx:", IsAsciiAlnum)
  {
    var s := JsTrim(raw);
    assert s[..|s|] == s;
    KeyOfTrimmed(s)
  }

  /** Whitespace around the argument makes no difference. */
  lemma {:induction false} KeyIgnoresSpace(raw: string)
    ensures NormalizeKey(JsTrim(raw)) == NormalizeKey(raw)
  {
    TrimIdempotent(raw, IsJsSpace);
  }

  /** A key that already carries a `vinted:` or `olx:` prefix (in any case) is kept, trimmed. */
  lemma {:induction false} KeyPrefixed(raw: string)
    requires IsPrefixedKey(Lower(JsTrim(raw)))
    ensures NormalizeKey(raw) == JsTrim(raw)
  {
  }

  /**
   * A Vinted item link: the digits right after the first `/items/` become the
   * key, whatever follows them (a slug, a query).
   */
  lemma {:induction false} KeyVintedUrl(pre: string, id: string, post: string)
    requires StartsWith(Lower(pre), "http") && Contains(Lower(pre), "vinted.")
    requires !Contains(AsciiLower(pre), ItemsPath)
    requires |id| > 0 && forall i :: 0 <= i < |id| ==> IsAsciiDigit(id[i])
    requires post == "" || !IsAsciiDigit(post[0])
    requires post == "" || !IsJsSpace(post[|post| - 1])
    ensures NormalizeKey(pre + (ItemsPath + (id + post))) == "vinted:" + id
  {
    var rest := ItemsPath + (id + post);
    ItemsPathChars(ItemsPath);
    PatternMentioned(pre, ItemsPath, id + post);
    VintedMatch(pre, id, post);
    LastSolid(ItemsPath, id, post);
    HttpLink(pre, rest);
    HostMentioned(pre, rest, "vinted.");
    VintedBranch(pre + rest);
  }

  /** A link starting with `http` and ending in a non-space is trimmed and unprefixed. */
  lemma {:induction false} HttpLink(pre: string, rest: string)
    requires StartsWith(Lower(pre), "http") && |rest| > 0 && !IsJsSpace(rest[|rest| - 1])
    ensures pre + rest != "" && JsTrim(pre + rest) == pre + rest && !IsPrefixedKey(Lower(pre + rest))
  {
    UrlUntrimmed(pre, rest);
    NotPrefixed(pre, rest);
  }

  /** The leftmost item match yields the key of `id`. */
  lemma {:induction false} VintedMatch(pre: string, id: string, post: string)
    requires !Contains(AsciiLower(pre), ItemsPath)
    requires |id| > 0 && forall i :: 0 <= i < |id| ==> IsAsciiDigit(id[i])
    requires post == "" || !IsAsciiDigit(post[0])
    ensures DigitsKey(pre + (ItemsPath + (id + post)), ItemsPath, "vinted:") == Some("vinted:" + id)
  {
    ItemsPathChars(ItemsPath);
    DigitsKeyAt(pre, ItemsPath, id, post, "vinted:");
  }

  /** The key of `pre + (pat + (id + post))` is `tag + id`. */
  lemma {:induction false} DigitsKeyAt(pre: string, pat: string, id: string, post: string, tag: string)
    requires PlainPattern(pat) && |pat| > 0
    requires !Contains(AsciiLower(pre), pat)
    requires |id| > 0 && forall i :: 0 <= i < |id| ==> IsAsciiDigit(id[i])
    requires post == "" || !IsAsciiDigit(post[0])
    ensures DigitsKey(pre + (pat + (id + post)), pat, tag) == Some(tag + id)
  {
    IdMatch(pre, pat, id, post);
    DigitsKeyIs(pre + (pat + (id + post)), |pre|, pat, id, tag);
  }

  /** The key taken from the leftmost match at `n` whose digit run is `id`. */
  lemma {:induction false} DigitsKeyIs(s: string, n: nat, pat: string, id: string, tag: string)
    requires IdAfterFrom(s, pat, 0) == Some(n)
    requires DigitsEnd(s, n + |pat|) == n + |pat| + |id|
    requires s[n + |pat|..n + |pat| + |id|] == id
    ensures DigitsKey(s, pat, tag) == Some(tag + id)
  {
  }

  /**
   * In `pre + (pat + (id + post))` the leftmost match of the plain
   * pattern with a digit is right after `pre`, and the digit run there is
   * `id`.
   */
  lemma {:induction false} IdMatch(pre: string, pat: string, id: string, post: string)
    requires PlainPattern(pat) && |pat| > 0
    requires !Contains(AsciiLower(pre), pat)
    requires |id| > 0 && forall i :: 0 <= i < |id| ==> IsAsciiDigit(id[i])
    requires post == "" || !IsAsciiDigit(post[0])
    ensures IdAfterFrom(pre + (pat + (id + post)), pat, 0) == Some(|pre|)
    ensures DigitsEnd(pre + (pat + (id + post)), |pre| + |pat|) == |pre| + |pat| + |id|
    ensures (pre + (pat + (id + post)))[|pre| + |pat|..|pre| + |pat| + |id|] == id
  {
    LinkFramed(pre, pat, id, post);
    FirstMatch(pre + (pat + (id + post)), pre, pat);
    IdRun(pre, pat, id, post);
  }

  /** The digit run after `pre + pat` is exactly `id`. */
  lemma {:induction false} IdRun(pre: string, pat: string, id: string, post: string)
    requires forall i :: 0 <= i < |id| ==> IsAsciiDigit(id[i])
    requires post == "" || !IsAsciiDigit(post[0])
    ensures DigitsEnd(pre + (pat + (id + post)), |pre| + |pat|) == |pre| + |pat| + |id|
    ensures (pre + (pat + (id + post)))[|pre| + |pat|..|pre| + |pat| + |id|] == id
  {
    ConcatAssoc(pre, pat, id + post);
    DigitRun(pre + pat, id, post);
  }

  /** A trimmed, unprefixed Vinted item link takes the Vinted branch. */
  lemma {:induction false} VintedBranch(s: string)
    requires s != "" && JsTrim(s) == s && !IsPrefixedKey(Lower(s))
    requires Contains(Lower(s), "vinted.") && Contains(Lower(s), ItemsPath) && DigitsKey(s, ItemsPath, "vinted:").Some?
    ensures NormalizeKey(s) == DigitsKey(s, ItemsPath, "vinted:").value
  {
  }

  /** The end of `pat + (id + post)` is no space when `id` is digits and `post` ends in no space. */
  lemma {:induction false} LastSolid(pat: string, id: string, post: string)
    requires |id| > 0 && forall i :: 0 <= i < |id| ==> IsAsciiDigit(id[i])
    requires post == "" || !IsJsSpace(post[|post| - 1])
    ensures |pat + (id + post)| > 0 && !IsJsSpace((pat + (id + post))[|pat + (id + post)| - 1])
  {
    var t := pat + (id + post);
    if post == "" {
      assert t[|t| - 1] == id[|id| - 1];
    } else {
      assert t[|t| - 1] == post[|post| - 1];
    }
  }

  /** A text starting with `http` and ending in a non-space is its own trim. */
  lemma {:induction false} UrlUntrimmed(a: string, b: string)
    requires StartsWith(Lower(a), "http") && |b| > 0 && !IsJsSpace(b[|b| - 1])
    ensures JsTrim(a + b) == a + b
  {
    var s := a + b;
    var l := Lower(a);
    assert l[..4][0] == 'h';
    assert l[0] == LowerChar(a[0]);
    assert s[0] == a[0];
    assert s[|s| - 1] == b[|b| - 1];
    TrimNoop(s, IsJsSpace);
  }

  /** A text starting with `http` carries no canonical prefix. */
  lemma {:induction false} NotPrefixed(a: string, b: string)
    requires StartsWith(Lower(a), "http")
    ensures !IsPrefixedKey(Lower(a + b))
  {
    var l := Lower(a);
    assert l[..4][0] == 'h';
    var m := Lower(a + b);
    assert m[0] == LowerChar((a + b)[0]);
    assert (a + b)[0] == a[0];
    assert m[0] == 'h';
    StartsWithHead(m, "vinted:");
    StartsWithHead(m, "olx:");
  }

  /** A text starting with `p` starts with its first character. */
  lemma {:induction false} StartsWithHead(s: string, p: string)
    requires |p| > 0
    ensures StartsWith(s, p) ==> s[0] == p[0]
  {
    if StartsWith(s, p) {
      assert s[..|p|][0] == s[0];
    }
  }

  /** What occurs in the lower-cased front part occurs in the lower-cased whole. */
  lemma {:induction false} HostMentioned(a: string, b: string, host: string)
    requires Contains(Lower(a), host)
    ensures Contains(Lower(a + b), host)
  {
    LowerConcat(a, b);
    ContainsOccurs(Lower(a), host);
    var k :| OccursAt(Lower(a), host, k);
    OccursInPrefix(Lower(a), Lower(b), host, k);
    OccursContains(Lower(a + b), host, k);
  }

  /** The characters of a pattern that are ASCII, fold to themselves and are no digits. */
  predicate PlainPattern(pat: string)
  {
    forall k :: 0 <= k < |pat| ==> pat[k] < '\U{80}' && AsciiLowerChar(pat[k]) == pat[k] && !IsAsciiDigit(pat[k])
  }

  /** The characters of `/items/`. */
  lemma {:induction false} ItemsPathChars(p: string)
    requires p == ItemsPath
    ensures |p| == 7 && PlainPattern(p)
  {
    forall k | 0 <= k < |p|
      ensures p[k] < '\U{80}' && AsciiLowerChar(p[k]) == p[k] && !IsAsciiDigit(p[k])
    {
      if k == 0 || k == 6 {
        assert p[k] == '/';
      } else if k == 1 {
        assert p[k] == 'i';
      } else if k == 2 {
        assert p[k] == 't';
      } else if k == 3 {
        assert p[k] == 'e';
      } else if k == 4 {
        assert p[k] == 'm';
      } else {
        assert p[k] == 's';
      }
    }
  }

  /** ASCII case folding and `Lower` agree on a character whose fold is ASCII. */
  lemma {:induction false} FoldAgrees(c: char, d: char)
    requires AsciiLowerChar(c) == d && d < '\U{80}'
    ensures LowerChar(c) == d
  {
  }

  /** A plain pattern is its own lower case. */
  lemma {:induction false} LowerPlain(pat: string)
    requires PlainPattern(pat)
    ensures Lower(pat) == pat
  {
    forall k | 0 <= k < |pat|
      ensures LowerChar(pat[k]) == pat[k]
    {
      FoldAgrees(pat[k], pat[k]);
    }
    LowerFixed(pat);
  }

  /** The lower-cased text holds the plain pattern placed after `pre`. */
  lemma {:induction false} PatternMentioned(pre: string, pat: string, rest: string)
    requires PlainPattern(pat)
    ensures Contains(Lower(pre + (pat + rest)), pat)
  {
    LowerConcat(pre, pat + rest);
    LowerConcat(pat, rest);
    LowerPlain(pat);
    PrefixContained(pat, Lower(rest));
    var t := pat + Lower(rest);
    assert OccursAt(t, pat, 0);
    OccursInSuffix(Lower(pre), t, pat, 0);
    OccursContains(Lower(pre) + t, pat, |Lower(pre)|);
  }

  /** An exact occurrence of a plain pattern is a case-insensitive one. */
  lemma {:induction false} ExactIsCi(s: string, p: string, n: nat)
    requires PlainPattern(p) && OccursAt(s, p, n)
    ensures CiOccursAt(s, p, n)
  {
    AsciiLowerPlain(p);
  }

  /** A plain pattern is its own ASCII lower case. */
  lemma {:induction false} AsciiLowerPlain(p: string)
    requires PlainPattern(p)
    ensures AsciiLower(p) == p
  {
    assert forall k :: 0 <= k < |p| ==> AsciiLower(p)[k] == p[k];
  }

  /**
   * The leftmost match of the pattern and a digit is the one right after
   * `pre` when the lower case of `pre` lacks the pattern.
   */
  lemma {:induction false} FirstMatch(s: string, pre: string, pat: string)
    requires PlainPattern(pat) && |pat| > 0 && Framed(s, pre, pat)
    requires !Contains(AsciiLower(pre), pat)
    requires |pre| + |pat| < |s| && IsAsciiDigit(s[|pre| + |pat|])
    ensures IdAfterFrom(s, pat, 0) == Some(|pre|)
  {
    SkipPre(s, pre, pat, 0);
    ExactIsCi(s, pat, |pre|);
    assert IdAfterAt(s, pat, |pre|);
  }

  /** A link `pre + (pat + (id + post))` begins with `pre` and then `pat`, and a digit follows. */
  lemma {:induction false} LinkFramed(pre: string, pat: string, id: string, post: string)
    requires |id| > 0 && IsAsciiDigit(id[0])
    ensures Framed(pre + (pat + (id + post)), pre, pat)
    ensures |pre| + |pat| < |pre + (pat + (id + post))|
    ensures IsAsciiDigit((pre + (pat + (id + post)))[|pre| + |pat|])
  {
    var s := pre + (pat + (id + post));
    assert s[..|pre|] == pre;
    assert s[|pre|..|pre| + |pat|] == pat;
    assert s[|pre| + |pat|] == id[0];
  }

  /** The digits `id` placed after `u` form the whole digit run there when `post` does not go on with a digit. */
  lemma {:induction false} DigitRun(u: string, id: string, post: string)
    requires forall i :: 0 <= i < |id| ==> IsAsciiDigit(id[i])
    requires post == "" || !IsAsciiDigit(post[0])
    ensures DigitsEnd(u + (id + post), |u|) == |u| + |id|
    ensures (u + (id + post))[|u|..|u| + |id|] == id
  {
    var s := u + (id + post);
    var e := |u| + |id|;
    forall q | |u| <= q < e
      ensures IsAsciiDigit(s[q])
    {
      assert s[q] == (id + post)[q - |u|] == id[q - |u|];
    }
    assert e < |s| ==> s[e] == post[0];
    DigitsEndAt(s, |u|, e);
    assert s[|u|..e] == id;
  }

  /** `s` begins with `pre` and then `pat`. */
  predicate Framed(s: string, pre: string, pat: string)
  {
    |pre| + |pat| <= |s| && s[..|pre|] == pre && s[|pre|..|pre| + |pat|] == pat
  }

  /**
   * The scan for a match goes past `pre` without a hit when the lower case
   * of `pre` lacks the pattern.
   */
  lemma {:induction false} SkipPre(s: string, pre: string, pat: string, from: nat)
    requires PlainPattern(pat) && |pat| > 0 && Framed(s, pre, pat)
    requires !Contains(AsciiLower(pre), pat) && from <= |pre|
    ensures IdAfterFrom(s, pat, from) == IdAfterFrom(s, pat, |pre|)
    decreases |pre| - from
  {
    if from < |pre| {
      AbsentAt(AsciiLower(pre), pat, from);
      NoIdAt(s, pre, pat, from);
      SkipOne(s, pat, from);
      SkipPre(s, pre, pat, from + 1);
      assert IdAfterFrom(s, pat, from) == IdAfterFrom(s, pat, from + 1);
      assert IdAfterFrom(s, pat, from + 1) == IdAfterFrom(s, pat, |pre|);
    }
  }

  /** A position without a match is passed over. */
  lemma {:induction false} SkipOne(s: string, pat: string, from: nat)
    requires from < |s| && !IdAfterAt(s, pat, from)
    ensures IdAfterFrom(s, pat, from) == IdAfterFrom(s, pat, from + 1)
  {
  }

  /** Where `p` is not contained, it occurs nowhere. */
  lemma {:induction false} AbsentAt(s: string, p: string, k: int)
    requires !Contains(s, p)
    ensures !OccursAt(s, p, k)
  {
    if OccursAt(s, p, k) {
      OccursContains(s, p, k);
    }
  }

  /** No match starts at `q` inside `pre` unless the pattern occurs there in its lower case. */
  lemma {:induction false} NoIdAt(s: string, pre: string, pat: string, q: nat)
    requires PlainPattern(pat) && |pat| > 0 && Framed(s, pre, pat)
    requires q < |pre| && !OccursAt(AsciiLower(pre), pat, q)
    ensures !IdAfterAt(s, pat, q)
  {
    if q + |pat| <= |pre| {
      if CiOccursAt(s, pat, q) {
        PatternInPre(s, pre, pat, q);
      }
    } else {
      BoundaryNoDigit(s, pre, pat, q);
    }
  }

  /** A match that would start inside `pre` and end inside `pat` is followed by a pattern character, no digit. */
  lemma {:induction false} BoundaryNoDigit(s: string, pre: string, pat: string, q: nat)
    requires PlainPattern(pat) && Framed(s, pre, pat)
    requires q < |pre| < q + |pat|
    ensures !IsAsciiDigit(s[q + |pat|])
  {
    var j := q + |pat| - |pre|;
    assert s[q + |pat|] == s[|pre|..|pre| + |pat|][j];
  }

  /** A case-insensitive match lying wholly inside `pre` is an occurrence of the pattern in its ASCII fold. */
  lemma {:induction false} PatternInPre(s: string, pre: string, pat: string, q: nat)
    requires |pre| <= |s| && s[..|pre|] == pre
    requires q + |pat| <= |pre| && CiOccursAt(s, pat, q)
    ensures OccursAt(AsciiLower(pre), pat, q)
  {
    PrefixSlice(s, pre, q, q + |pat|);
    AsciiLowerSlice(pre, q, q + |pat|);
  }

  /** A slice inside the prefix `pre` of `s` is the same slice of `pre`. */
  lemma {:induction false} PrefixSlice(s: string, pre: string, i: nat, j: nat)
    requires |pre| <= |s| && s[..|pre|] == pre && i <= j <= |pre|
    ensures s[i..j] == pre[i..j]
  {
    assert s[..|pre|][i..j] == s[i..j];
  }

  /** Folding a slice is slicing the folded text. */
  lemma {:induction false} AsciiLowerSlice(s: string, i: nat, j: nat)
    requires i <= j <= |s|
    ensures AsciiLower(s)[i..j] == AsciiLower(s[i..j])
  {
    forall k | 0 <= k < j - i
      ensures AsciiLower(s)[i..j][k] == AsciiLower(s[i..j])[k]
    {
      assert s[i..j][k] == s[i + k];
    }
  }

  /** The leftmost match is found where it is. */
  lemma {:induction false} IdAfterFromAt(s: string, pat: string, from: nat, p: nat)
    requires from <= p && IdAfterAt(s, pat, p)
    requires forall q :: from <= q < p ==> !IdAfterAt(s, pat, q)
    ensures IdAfterFrom(s, pat, from) == Some(p)
    decreases p - from
  {
    if from < p {
      IdAfterFromAt(s, pat, from + 1, p);
    }
  }

  /** The digit run ends exactly at the first non-digit. */
  lemma {:induction false} DigitsEndAt(s: string, i: nat, e: nat)
    requires i <= e <= |s|
    requires forall q :: i <= q < e ==> IsAsciiDigit(s[q])
    requires e == |s| || !IsAsciiDigit(s[e])
    ensures DigitsEnd(s, i) == e
    decreases e - i
  {
    if i < e {
      DigitsEndAt(s, i + 1, e);
    }
  }

  /**
   * Any other link loses everything from its first `?` or `#` on, when
   * nothing after that is a line break.
   */
  lemma {:induction false} KeyStripsQuery(base: string, tail: string)
    requires StartsWith(Lower(base), "http")
    requires '?' !in base && '#' !in base
    requires |tail| > 0 && (tail[0] == '?' || tail[0] == '#') && !IsJsSpace(tail[|tail| - 1])
    requires forall i :: 0 <= i < |tail| ==> !IsLineBreak(tail[i])
    requires !Contains(Lower(base + tail), "vinted.") && !Contains(Lower(base + tail), "olx.")
    ensures NormalizeKey(base + tail) == base
  {
    var s := base + tail;
    UrlUntrimmed(base, tail);
    NotPrefixed(base, tail);
    StripAt(base, tail);
  }

  /** The leftmost `?` or `#` is the first character of `tail`. */
  lemma {:induction false} StripAt(base: string, tail: string)
    requires '?' !in base && '#' !in base
    requires |tail| > 0 && (tail[0] == '?' || tail[0] == '#')
    requires forall i :: 0 <= i < |tail| ==> !IsLineBreak(tail[i])
    ensures StripQueryHash(base + tail) == base
  {
    var s := base + tail;
    assert forall q :: |base| < q < |s| ==> s[q] == tail[q - |base|];
    assert QueryAt(s, |base|);
    forall q | 0 <= q < |base| ensures !QueryAt(s, q) {
      assert s[q] == base[q];
    }
    QueryFromAt(s, 0, |base|);
    assert s[..|base|] == base;
  }

  lemma {:induction false} QueryFromAt(s: string, from: nat, p: nat)
    requires from <= p && QueryAt(s, p)
    requires forall q :: from <= q < p ==> !QueryAt(s, q)
    ensures QueryFrom(s, from) == Some(p)
    decreases p - from
  {
    if from < p {
      QueryFromAt(s, from + 1, p);
    }
  }

  /** `__fydNormalizeKeys`: every key normalised, the empty results dropped, the order kept. */
  function NormalizeKeys(keys: seq<string>): (r: seq<string>)
    ensures |r| <= |keys|
    ensures forall i :: 0 <= i < |r| ==> r[i] != ""
  {
    if |keys| == 0 then []
    else if NormalizeKey(keys[0]) == "" then NormalizeKeys(keys[1..])
    else [NormalizeKey(keys[0])] + NormalizeKeys(keys[1..])
  }

  /** Exactly the nonempty normal forms of the keys are in the result. */
  lemma {:induction false} NormalizeKeysMembers(keys: seq<string>, k: string)
    ensures k in NormalizeKeys(keys) <==> k != "" && exists j :: 0 <= j < |keys| && NormalizeKey(keys[j]) == k
  {
    if |keys| > 0 {
      NormalizeKeysMembers(keys[1..], k);
      if k != "" && NormalizeKey(keys[0]) != k && exists j :: 0 <= j < |keys| && NormalizeKey(keys[j]) == k {
        var j :| 0 <= j < |keys| && NormalizeKey(keys[j]) == k;
        assert keys[1..][j - 1] == keys[j];
      }
      if exists j :: 0 <= j < |keys[1..]| && NormalizeKey(keys[1..][j]) == k {
        var j :| 0 <= j < |keys[1..]| && NormalizeKey(keys[1..][j]) == k;
        assert keys[j + 1] == keys[1..][j];
      }
    }
  }

  /** Keys that all normalise to something are kept one for one. */
  lemma {:induction false} NormalizeKeysAll(keys: seq<string>)
    requires forall j :: 0 <= j < |keys| ==> NormalizeKey(keys[j]) != ""
    ensures |NormalizeKeys(keys)| == |keys|
    ensures forall j :: 0 <= j < |keys| ==> NormalizeKeys(keys)[j] == NormalizeKey(keys[j])
  {
    if |keys| > 0 {
      assert NormalizeKey(keys[0]) != "";
      assert forall j :: 0 <= j < |keys[1..]| ==> keys[1..][j] == keys[j + 1];
      NormalizeKeysAll(keys[1..]);
    }
  }

  // ---------------------------------------------------------- buildBatchMessage (capped)

  /** The safe length limit under Telegram's 4096-character message limit. */
  const Max: nat := 3900

  /** The footer: the extra line when offers are left out, then the history line. */
  function SafeFooter(extra: int, linkId: string): string
  {
    (if extra > 0 then ExtraLine(extra) else "") + Footer(linkId)
  }

  /** The block of the item numbered `n`; the link is trimmed and escaped. */
  function ApiBlock(n: nat, it: Item): string
  {
    var priceLine := if PriceText(it) != "" then "💰 " + EscapeHtml(PriceText(it)) + "\n" else "";
    NatToString(n) + ". " + EscapeHtml(it.title) + "\n" + priceLine + EscapeHtml(JsTrim(it.url)) + "\n\n"
  }

  /** The rendered blocks of `items`, item `q` numbered `q + 1`. */
  function RenderBlocks(items: seq<Item>): (r: seq<string>)
    ensures |r| == |items|
  {
    seq(|items|, q requires 0 <= q < |items| => ApiBlock(q + 1, items[q]))
  }

  /** The blocks one after the other. */
  function Concat(bs: seq<string>): string
  {
    if |bs| == 0 then "" else Concat(bs[..|bs| - 1]) + bs[|bs| - 1]
  }

  /**
   * The message tried with blocks `0..i` kept and the rest counted as extra;
   * `head` is the title line and link header above the items.
   */
  function Candidate(head: string, linkId: string, blocks: seq<string>, skipped: int, i: nat): string
    requires i < |blocks|
  {
    JsTrim(head + Concat(blocks[..i + 1]) + SafeFooter(|blocks| - (i + 1) + skipped, linkId))
  }

  /** The lengths of the candidates, block by block. */
  function CandidateLens(head: string, linkId: string, blocks: seq<string>, skipped: int): (r: seq<nat>)
    ensures |r| == |blocks|
  {
    seq(|blocks|, q requires 0 <= q < |blocks| => Utf16Len(Candidate(head, linkId, blocks, skipped, q)))
  }

  /** Where the scan that starts at `i` stops: the first length over the limit, or the end. */
  function FirstOver(lens: seq<nat>, i: nat): (k: nat)
    requires i <= |lens|
    ensures i <= k <= |lens|
    decreases |lens| - i
  {
    if i == |lens| then i
    else if lens[i] > Max then i
    else FirstOver(lens, i + 1)
  }

  /** The number of blocks kept. */
  function Kept(head: string, linkId: string, blocks: seq<string>, skipped: int): nat
  {
    FirstOver(CandidateLens(head, linkId, blocks, skipped), 0)
  }

  /** The head and footer alone, with all `n` items counted as extra. */
  function Fallback(head: string, linkId: string, n: nat, skipped: int): string
  {
    JsTrim(head + SafeFooter(n + skipped, linkId))
  }

  /**
   * The message: the kept blocks and the count of the rest, or the fallback
   * when even that is too long. Unless the fallback is used, the message is
   * at most the limit long and is the head, the kept initial run of blocks
   * and a footer counting the dropped items plus the skipped ones.
   */
  function CappedBatch(head: string, linkId: string, blocks: seq<string>, skipped: int): (r: string)
    ensures var k := Kept(head, linkId, blocks, skipped);
      r == Fallback(head, linkId, |blocks|, skipped) ||
      (Utf16Len(r) <= Max && r == JsTrim(head + Concat(blocks[..k]) + SafeFooter((|blocks| - k) + skipped, linkId)))
  {
    var k := Kept(head, linkId, blocks, skipped);
    var t := JsTrim(head + Concat(blocks[..k]) + SafeFooter(|blocks| - k + skipped, linkId));
    if Utf16Len(t) > Max then Fallback(head, linkId, |blocks|, skipped) else t
  }

  /**
   * `buildBatchMessage` on items already in newest-first order: the head
   * built from the rendered link header, then the capped fill.
   */
  method BuildBatchMessage(header: string, linkId: string, items: seq<Item>, skipped: int) returns (r: string)
    ensures r == CappedBatch(BatchHead(header), linkId, RenderBlocks(items), skipped)
    ensures Utf16Len(r) <= Max || r == Fallback(BatchHead(header), linkId, |items|, skipped)
  {
    r := FillUnderCap(BatchHead(header), linkId, items, skipped);
  }

  /** The source's function after the head is built: the capped fill, then the footer and the fallback. */
  method FillUnderCap(head: string, linkId: string, items: seq<Item>, skipped: int) returns (r: string)
    ensures r == CappedBatch(head, linkId, RenderBlocks(items), skipped)
    ensures Utf16Len(r) <= Max || r == Fallback(head, linkId, |items|, skipped)
  {
    var text, kept := KeepFitting(head, linkId, items, skipped);
    var extraCount := (|items| - kept) + skipped;
    text := JsTrim(text + SafeFooter(extraCount, linkId));
    if Utf16Len(text) > Max {
      text := JsTrim(head + SafeFooter(|items| + skipped, linkId));
    }
    r := text;
  }

  /** The source's loop, keeping a block only while the message with it still fits. */
  method KeepFitting(head: string, linkId: string, items: seq<Item>, skipped: int) returns (text: string, kept: nat)
    ensures kept == Kept(head, linkId, RenderBlocks(items), skipped) && kept <= |items|
    ensures text == head + Concat(RenderBlocks(items)[..kept])
  {
    ghost var blocks := RenderBlocks(items);
    ghost var lens := CandidateLens(head, linkId, blocks, skipped);
    text := head;
    kept := 0;
    assert blocks[..0] == [];
    assert text == head + Concat(blocks[..0]);
    var i := 0;
    while i < |items|
      invariant 0 <= i <= |items| && kept == i
      invariant text == head + Concat(blocks[..i])
      invariant FirstOver(lens, 0) == FirstOver(lens, i)
    {
      var block := ApiBlock(i + 1, items[i]);
      assert block == blocks[i];
      var remaining := (|items| - (i + 1)) + skipped;
      ConcatStep(blocks, i);
      ConcatAssoc(head, Concat(blocks[..i]), block);
      var candidate := JsTrim(text + block + SafeFooter(remaining, linkId));
      assert candidate == Candidate(head, linkId, blocks, skipped, i);
      assert lens[i] == Utf16Len(candidate);
      if Utf16Len(candidate) > Max {
        break;
      }
      text := text + block;
      kept := kept + 1;
      i := i + 1;
    }
  }

  /** One more block goes at the end. */
  lemma {:induction false} ConcatStep(bs: seq<string>, i: nat)
    requires i < |bs|
    ensures Concat(bs[..i + 1]) == Concat(bs[..i]) + bs[i]
  {
    assert bs[..i + 1][..i] == bs[..i];
  }

  /** The scan stops at the first length over the limit: every length before it fits. */
  lemma {:induction false} FirstOverSpec(lens: seq<nat>, i: nat)
    requires i <= |lens|
    ensures forall q :: i <= q < FirstOver(lens, i) ==> lens[q] <= Max
    ensures FirstOver(lens, i) < |lens| ==> lens[FirstOver(lens, i)] > Max
    decreases |lens| - i
  {
    if i < |lens| && lens[i] <= Max {
      FirstOverSpec(lens, i + 1);
    }
  }

  /** Conversely, when every length from `i` on fits, the scan runs to the end. */
  lemma {:induction false} AllFitAllKept(lens: seq<nat>, i: nat)
    requires i <= |lens|
    requires forall q :: i <= q < |lens| ==> lens[q] <= Max
    ensures FirstOver(lens, i) == |lens|
    decreases |lens| - i
  {
    if i < |lens| {
      AllFitAllKept(lens, i + 1);
    }
  }

  /**
   * The kept blocks are an initial run: every one of them fitted when it was
   * tried, and the first block left out did not.
   */
  lemma {:induction false} KeptFits(head: string, linkId: string, blocks: seq<string>, skipped: int, q: nat)
    requires q <= Kept(head, linkId, blocks, skipped) && q < |blocks|
    ensures q < Kept(head, linkId, blocks, skipped) ==> Utf16Len(Candidate(head, linkId, blocks, skipped, q)) <= Max
    ensures q == Kept(head, linkId, blocks, skipped) ==> Utf16Len(Candidate(head, linkId, blocks, skipped, q)) > Max
  {
    var lens := CandidateLens(head, linkId, blocks, skipped);
    FirstOverSpec(lens, 0);
    assert lens[q] == Utf16Len(Candidate(head, linkId, blocks, skipped, q));
  }

  /** The kept blocks are those of the first items, numbered from 1. */
  lemma {:induction false} KeptNumbered(items: seq<Item>, k: nat, q: nat)
    requires q < k <= |items|
    ensures RenderBlocks(items)[..k][q] == ApiBlock(q + 1, items[q])
  {
  }

  // ---------------------------------------------------------- __fydApplyUrlPriceBounds

  /** The price bounds read from a search URL; missing bounds are `None`. */
  datatype PriceBounds = PriceBounds(priceFrom: Option<int>, priceTo: Option<int>)

  /** An item passes the bounds unless its known price lies below the lower or above the upper one. */
  predicate WithinBounds(it: Item, from: Option<int>, to: Option<int>)
  {
    !(from.Some? && it.price.Some? && it.price.value < from.value) &&
    !(to.Some? && it.price.Some? && it.price.value > to.value)
  }

  /** The items passing the bounds, in order. */
  function FilterBounds(items: seq<Item>, from: Option<int>, to: Option<int>): (r: seq<Item>)
    ensures |r| <= |items|
    ensures forall it :: it in r <==> it in items && WithinBounds(it, from, to)
  {
    if |items| == 0 then []
    else if WithinBounds(items[0], from, to) then [items[0]] + FilterBounds(items[1..], from, to)
    else FilterBounds(items[1..], from, to)
  }

  /**
   * `__fydApplyUrlPriceBounds`: the items unchanged without bounds, otherwise
   * those within them; an item without a price always passes.
   */
  function ApplyUrlPriceBounds(items: seq<Item>, pb: Option<PriceBounds>): (r: seq<Item>)
    ensures (pb.None? || (pb.value.priceFrom.None? && pb.value.priceTo.None?)) ==> r == items
    ensures forall it :: it in r ==> it in items
    ensures forall it :: it in items && it.price.None? ==> it in r
  {
    var from := if pb.Some? then pb.value.priceFrom else None;
    var to := if pb.Some? then pb.value.priceTo else None;
    if from.None? && to.None? then items else FilterBounds(items, from, to)
  }

  /** With a bound given, exactly the items within the bounds are kept. */
  lemma {:induction false} BoundsKeep(items: seq<Item>, b: PriceBounds, it: Item)
    requires b.priceFrom.Some? || b.priceTo.Some?
    ensures it in ApplyUrlPriceBounds(items, Some(b)) <==> it in items && WithinBounds(it, b.priceFrom, b.priceTo)
  {
  }
}
