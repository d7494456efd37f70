// The completeness checker run before deploying the bot's translation table:
// it counts the leaf keys of a language, lists the keys one language has and
// another lacks, flags a few English phrases left in a translation, and
// compares the `{placeholders}` and the HTML tags of each translated string
// with the English one.

module I18nCheck {
  import opened Wrappers
  import opened Strings
  import opened Json
  import Templates
  import Translator

  /** The dotted path of `key` under `path` (`path ? path.key : key`). */
  function FullPath(path: string, key: string): string
  {
    if |path| == 0 then key else path + "." + key
  }

  // ------------------------------------------------------------------ countKeys

  /** The leaves a value adds: the leaves of an object literal, one for anything else. */
  function LeafCount(v: Value): nat
    decreases v, 2
  {
    if v.Obj? then Leaves(v.fields) else 1
  }

  /** The number of non-object values at every depth below the fields `fs`. */
  function Leaves(fs: seq<Field>): nat
    decreases fs, 1
  {
    if |fs| == 0 then 0 else Leaves(fs[..|fs| - 1]) + LeafCount(fs[|fs| - 1].value)
  }

  /** `countKeys`: a counter bumped once per leaf, walking nested objects recursively. */
  method CountKeys(fs: seq<Field>) returns (count: nat)
    ensures count == Leaves(fs)
    decreases fs
  {
    count := 0;
    var i := 0;
    while i < |fs|
      invariant i <= |fs|
      invariant count == Leaves(fs[..i])
    {
      var val := fs[i].value;
      assert fs[..i + 1][..i] == fs[..i];
      if val.Obj? {
        var c := CountKeys(val.fields);
        count := count + c;
      } else {
        count := count + 1;
      }
      i := i + 1;
    }
    assert fs[..|fs|] == fs;
  }

  /** The leaves of two runs of fields written one after the other add up. */
  lemma {:induction false} LeavesConcat(a: seq<Field>, b: seq<Field>)
    ensures Leaves(a + b) == Leaves(a) + Leaves(b)
    decreases |b|
  {
    if |b| == 0 {
      assert a + b == a;
    } else {
      var b0 := b[..|b| - 1];
      assert (a + b)[..|a + b| - 1] == a + b0;
      assert (a + b)[|a + b| - 1] == b[|b| - 1];
      LeavesConcat(a, b0);
    }
  }

  /** A table without nested objects has one leaf per field. */
  lemma {:induction false} FlatLeaves(fs: seq<Field>)
    requires forall i :: 0 <= i < |fs| ==> !fs[i].value.Obj?
    ensures Leaves(fs) == |fs|
    decreases |fs|
  {
    if |fs| > 0 {
      FlatLeaves(fs[..|fs| - 1]);
    }
  }

  // ------------------------------------------------------------------ findMissingKeys

  /** What one source field contributes to `findMissingKeys(source, target, path)`. */
  function MissingField(f: Field, target: Value, path: string): seq<string>
    requires IsObjectLike(target)
    decreases f, 2
  {
    var fp := FullPath(path, f.key);
    match Member(target, f.key)
    case None => [fp]
    case Some(t) =>
      if f.value.Obj? then
        (if IsObjectLike(t) then Missing(f.value.fields, t, fp) else [fp])
      else []
  }

  /**
   * The dotted paths of the source keys the target lacks, in source order: a
   * key absent from the target, or an object the target holds as a plain value,
   * is listed; an object both hold is compared key by key.
   */
  function Missing(fs: seq<Field>, target: Value, path: string): seq<string>
    requires IsObjectLike(target)
    decreases fs, 1
  {
    if |fs| == 0 then []
    else Missing(fs[..|fs| - 1], target, path) + MissingField(fs[|fs| - 1], target, path)
  }

  /** `findMissingKeys`: the loop over the source keys pushing onto `missing`. */
  method FindMissingKeys(fs: seq<Field>, target: Value, path: string) returns (missing: seq<string>)
    requires IsObjectLike(target)
    ensures missing == Missing(fs, target, path)
    decreases fs
  {
    missing := [];
    var i := 0;
    while i < |fs|
      invariant i <= |fs|
      invariant missing == Missing(fs[..i], target, path)
    {
      var f := fs[i];
      assert fs[..i + 1][..i] == fs[..i];
      var fullPath := FullPath(path, f.key);
      var t := Member(target, f.key);
      if t.None? {
        missing := missing + [fullPath];
      } else if f.value.Obj? {
        if IsObjectLike(t.value) {
          var nested := FindMissingKeys(f.value.fields, t.value, fullPath);
          missing := missing + nested;
        } else {
          missing := missing + [fullPath];
        }
      }
      i := i + 1;
    }
    assert fs[..|fs|] == fs;
  }

  /** A table compared with itself misses nothing, at any depth. */
  lemma {:induction false} MissingSelf(fs: seq<Field>, path: string)
    requires DistinctFieldKeys(fs)
    ensures Missing(fs, Obj(fs), path) == []
    decreases fs, 1
  {
    MissingSelfPrefix(fs, |fs|, path);
    assert fs[..|fs|] == fs;
  }

  lemma {:induction false} MissingSelfPrefix(fs: seq<Field>, n: nat, path: string)
    requires DistinctFieldKeys(fs) && n <= |fs|
    ensures Missing(fs[..n], Obj(fs), path) == []
    decreases fs, 0, n
  {
    if n > 0 {
      var f := fs[n - 1];
      assert fs[..n][..n - 1] == fs[..n - 1];
      assert fs[..n][n - 1] == f;
      MissingSelfPrefix(fs, n - 1, path);
      FieldValueAt(fs, n - 1);
      if f.value.Obj? {
        assert DistinctKeys(f.value);
        MissingSelf(f.value.fields, FullPath(path, f.key));
      }
    }
  }

  /** Against an empty table every top-level key is missing, and nothing deeper is listed. */
  lemma {:induction false} MissingFromEmpty(fs: seq<Field>, path: string)
    ensures |Missing(fs, Obj([]), path)| == |fs|
    ensures forall i :: 0 <= i < |fs| ==> Missing(fs, Obj([]), path)[i] == FullPath(path, fs[i].key)
    decreases |fs|
  {
    if |fs| > 0 {
      var pre := fs[..|fs| - 1];
      MissingFromEmpty(pre, path);
      assert forall i :: 0 <= i < |pre| ==> pre[i] == fs[i];
    }
  }

  // ------------------------------------------------------------------ findEnglishPhrases

  /** The English phrases no other language should contain, in the order they are tried. */
  const Phrases: seq<string> := ["Quiet hours", "Mode set", "Unknown command"]

  /** One report: the dotted key and the phrase found in its value. */
  datatype Hit = Hit(key: string, phrase: string)

  /** `s.replace(/\{[^}]+\}/g, '')`: every `{...}` span removed, scanning left to right. */
  function Cleaned(s: string): string
    decreases |s|
  {
    if |s| == 0 then ""
    else
      match Translator.PlaceholderEnd(s, 0)
      case Some(e) => Cleaned(s[e..])
      case None => [s[0]] + Cleaned(s[1..])
  }

  /** The index of the first phrase of `ps`, from `i` on, that the text contains. */
  function FirstPhrase(clean: string, ps: seq<string>, i: nat): (r: Option<nat>)
    requires i <= |ps|
    ensures r.Some? ==> i <= r.value < |ps| && Contains(clean, ps[r.value])
    ensures r.Some? ==> forall q :: i <= q < r.value ==> !Contains(clean, ps[q])
    ensures r.None? ==> forall q :: i <= q < |ps| ==> !Contains(clean, ps[q])
    decreases |ps| - i
  {
    if i == |ps| then None
    else if Contains(clean, ps[i]) then Some(i)
    else FirstPhrase(clean, ps, i + 1)
  }

  /** The inner `for (const phrase of suspiciousPhrases)` loop, which stops at the first match. */
  method FindPhrase(clean: string, ps: seq<string>) returns (r: Option<nat>)
    ensures r == FirstPhrase(clean, ps, 0)
  {
    var k := 0;
    while k < |ps|
      invariant k <= |ps|
      invariant FirstPhrase(clean, ps, 0) == FirstPhrase(clean, ps, k)
    {
      if Contains(clean, ps[k]) {
        return Some(k);
      }
      k := k + 1;
    }
    return None;
  }

  /** What one field contributes: a hit for a string, the hits beneath for an object. */
  function EnglishField(f: Field, path: string): seq<Hit>
    decreases f, 2
  {
    var fp := FullPath(path, f.key);
    match f.value
    case Str(s) =>
      (match FirstPhrase(Cleaned(s), Phrases, 0)
       case Some(k) => [Hit(fp, Phrases[k])]
       case None => [])
    case Obj(gs) => English(gs, fp)
    case _ => []
  }

  /** `findEnglishPhrases(dict, lang, path)` (the language argument is not used). */
  function English(fs: seq<Field>, path: string): seq<Hit>
    decreases fs, 1
  {
    if |fs| == 0 then [] else English(fs[..|fs| - 1], path) + EnglishField(fs[|fs| - 1], path)
  }

  /** `findEnglishPhrases`: the loop over the keys, with the phrase loop inside. */
  method FindEnglishPhrases(fs: seq<Field>, path: string) returns (found: seq<Hit>)
    ensures found == English(fs, path)
    decreases fs
  {
    found := [];
    var i := 0;
    while i < |fs|
      invariant i <= |fs|
      invariant found == English(fs[..i], path)
    {
      var f := fs[i];
      assert fs[..i + 1][..i] == fs[..i];
      var fullPath := FullPath(path, f.key);
      if f.value.Str? {
        var k := FindPhrase(Cleaned(f.value.s), Phrases);
        if k.Some? {
          found := found + [Hit(fullPath, Phrases[k.value])];
        }
      } else if f.value.Obj? {
        var nested := FindEnglishPhrases(f.value.fields, fullPath);
        found := found + nested;
      }
      i := i + 1;
    }
    assert fs[..|fs|] == fs;
  }

  /** At most one phrase is reported per key: never more hits than leaves. */
  lemma {:induction false} EnglishBound(fs: seq<Field>, path: string)
    ensures |English(fs, path)| <= Leaves(fs)
    decreases fs, 1
  {
    if |fs| > 0 {
      EnglishBound(fs[..|fs| - 1], path);
      EnglishFieldBound(fs[|fs| - 1], path);
    }
  }

  lemma {:induction false} EnglishFieldBound(f: Field, path: string)
    ensures |EnglishField(f, path)| <= LeafCount(f.value)
    decreases f, 2
  {
    if f.value.Obj? {
      EnglishBound(f.value.fields, FullPath(path, f.key));
    }
  }

  /** Text without `{` is searched as it is. */
  lemma {:induction false} CleanedNoBrace(s: string)
    requires '{' !in s
    ensures Cleaned(s) == s
    decreases |s|
  {
    if |s| > 0 {
      assert s[0] != '{';
      CleanedNoBrace(s[1..]);
      assert s == [s[0]] + s[1..];
    }
  }

  /** A `{...}` span at the front is dropped before the search. */
  lemma {:induction false} CleanedDropsPlaceholder(p: string, b: string)
    requires |p| > 0 && '}' !in p
    ensures Cleaned("{" + p + "}" + b) == Cleaned(b)
  {
    var s := "{" + p + "}" + b;
    var e := |p| + 1;
    assert forall q :: 1 <= q < e ==> s[q] == p[q - 1];
    assert s[e] == '}';
    assert forall q :: 1 <= q < e ==> !OccursAt(s, "}", q);
    assert OccursAt(s, "}", e);
    IndexOfFromAt(s, "}", 1, e);
    assert s[e + 1..] == b;
  }

  /** A value that is a single `{...}` span is never reported, whatever it holds. */
  lemma {:induction false} PlaceholderNotEnglish(key: string, p: string, path: string)
    requires |p| > 0 && '}' !in p
    ensures EnglishField(Field(key, Str("{" + p + "}")), path) == []
  {
    CleanedDropsPlaceholder(p, "");
    assert "{" + p + "}" + "" == "{" + p + "}";
  }

  /** A brace-free translation mentioning "Quiet hours" is reported with that phrase. */
  lemma {:induction false} QuietHoursReported(key: string, s: string, path: string)
    requires '{' !in s && Contains(s, "Quiet hours")
    ensures EnglishField(Field(key, Str(s)), path) == [Hit(FullPath(path, key), "Quiet hours")]
  {
    CleanedNoBrace(s);
    assert Phrases[0] == "Quiet hours";
  }

  // ------------------------------------------------------------------ token extraction

  /** The two token patterns compared: `/\{(\w+)\}/g` and `/<[^>]+>|&[a-z]+;/g`. */
  datatype Pattern = Placeholder | Markup

  /** The end of the run of lower-case ASCII letters starting at `i`. */
  function LetterEnd(s: string, i: nat): (r: nat)
    requires i <= |s|
    ensures i <= r <= |s| && forall q :: i <= q < r ==> 'a' <= s[q] <= 'z'
    ensures r < |s| ==> !('a' <= s[r] <= 'z')
    decreases |s| - i
  {
    if i < |s| && 'a' <= s[i] <= 'z' then LetterEnd(s, i + 1) else i
  }

  /** The length of the token matching at the front of `s`, if one does. */
  function TokenAt(kind: Pattern, s: string): (r: Option<nat>)
    ensures r.Some? ==> 3 <= r.value <= |s|
  {
    match kind
    case Placeholder =>
      (match Templates.PlaceholderEnd(s)
       case Some(j) => Some(j + 1)
       case None => None)
    case Markup =>
      if |s| > 0 && s[0] == '<' then
        (match IndexOfFrom(s, ">", 1)
         case Some(j) => if j > 1 then Some(j + 1) else None
         case None => None)
      else if |s| > 0 && s[0] == '&' then
        var j := LetterEnd(s, 1);
        if j > 1 && j < |s| && s[j] == ';' then Some(j + 1) else None
      else None
  }

  /** `s.match(re) || []` for a global pattern: the leftmost matches, one after another. */
  function Tokens(kind: Pattern, s: string): seq<string>
    decreases |s|
  {
    if |s| == 0 then []
    else
      match TokenAt(kind, s)
      case Some(n) => [s[..n]] + Tokens(kind, s[n..])
      case None => Tokens(kind, s[1..])
  }

  /** A text with no character that can open a token has none. */
  lemma {:induction false} NoOpenerNoTokens(kind: Pattern, s: string)
    requires kind.Placeholder? ==> '{' !in s
    requires kind.Markup? ==> '<' !in s && '&' !in s
    ensures Tokens(kind, s) == []
    decreases |s|
  {
    if |s| > 0 {
      assert s[0] in s;
      NoOpenerNoTokens(kind, s[1..]);
    }
  }

  /** A `{name}` placeholder at the front is the first token, and the scan goes on after it. */
  lemma {:induction false} PlaceholderToken(k: string, b: string)
    requires |k| > 0 && forall c :: c in k ==> IsJsWord(c)
    ensures Tokens(Placeholder, "{" + k + "}" + b) == ["{" + k + "}"] + Tokens(Placeholder, b)
  {
    var s := "{" + k + "}" + b;
    var e := |k| + 1;
    assert forall q :: 1 <= q < e ==> s[q] == k[q - 1];
    assert s[e] == '}' && !IsJsWord('}');
    Templates.WordEndAt(s, 1, e);
    assert Templates.PlaceholderEnd(s) == Some(e);
    assert s[..e + 1] == "{" + k + "}";
    assert s[e + 1..] == b;
  }

  // ------------------------------------------------------------------ sorting

  /** The default order of `Array.prototype.sort` on strings: lexicographic by character. */
  predicate StrLeq(a: string, b: string)
    decreases |a|
  {
    |a| == 0 || (|b| > 0 && (a[0] < b[0] || (a[0] == b[0] && StrLeq(a[1..], b[1..]))))
  }

  lemma {:induction false} StrLeqTotal(a: string, b: string)
    ensures StrLeq(a, b) || StrLeq(b, a)
    decreases |a|
  {
    if |a| > 0 && |b| > 0 && a[0] == b[0] {
      StrLeqTotal(a[1..], b[1..]);
    }
  }

  lemma {:induction false} StrLeqAntisymmetric(a: string, b: string)
    requires StrLeq(a, b) && StrLeq(b, a)
    ensures a == b
    decreases |a|
  {
    if |a| > 0 {
      StrLeqAntisymmetric(a[1..], b[1..]);
      assert a == [a[0]] + a[1..] && b == [b[0]] + b[1..];
    }
  }

  lemma {:induction false} StrLeqTransitive(a: string, b: string, c: string)
    requires StrLeq(a, b) && StrLeq(b, c)
    ensures StrLeq(a, c)
    decreases |a|
  {
    if |a| > 0 && a[0] == b[0] && b[0] == c[0] {
      StrLeqTransitive(a[1..], b[1..], c[1..]);
    }
  }

  predicate SortedStrings(s: seq<string>)
  {
    forall i, j :: 0 <= i < j < |s| ==> StrLeq(s[i], s[j])
  }

  /** `x` placed into a sorted list in front of the first element it does not follow. */
  function InsertString(x: string, s: seq<string>): (r: seq<string>)
    requires SortedStrings(s)
    ensures SortedStrings(r) && multiset(r) == multiset(s) + multiset{x}
    decreases |s|
  {
    if |s| == 0 then [x]
    else if StrLeq(x, s[0]) then
      InsertFront(x, s);
      [x] + s
    else
      var t := InsertString(x, s[1..]);
      InsertBehind(x, s, t);
      [s[0]] + t
  }

  lemma {:induction false} InsertFront(x: string, s: seq<string>)
    requires SortedStrings(s) && |s| > 0 && StrLeq(x, s[0])
    ensures SortedStrings([x] + s)
  {
    forall j | 0 < j <= |s| ensures StrLeq(x, ([x] + s)[j]) {
      if j > 1 {
        StrLeqTransitive(x, s[0], s[j - 1]);
      }
    }
  }

  lemma {:induction false} InsertBehind(x: string, s: seq<string>, t: seq<string>)
    requires SortedStrings(s) && |s| > 0 && !StrLeq(x, s[0])
    requires SortedStrings(t) && multiset(t) == multiset(s[1..]) + multiset{x}
    ensures SortedStrings([s[0]] + t)
    ensures multiset([s[0]] + t) == multiset(s) + multiset{x}
  {
    StrLeqTotal(x, s[0]);
    assert s == [s[0]] + s[1..];
    forall j | 0 <= j < |t| ensures StrLeq(s[0], t[j]) {
      assert t[j] in multiset(t);
      if t[j] != x {
        assert t[j] in multiset(s[1..]);
        var q :| 0 <= q < |s[1..]| && s[1..][q] == t[j];
        assert s[q + 1] == t[j];
      }
    }
  }

  /** `.sort()`: the same strings, in order. */
  function SortStrings(s: seq<string>): (r: seq<string>)
    ensures SortedStrings(r) && multiset(r) == multiset(s)
    decreases |s|
  {
    if |s| == 0 then []
    else
      assert s == s[..|s| - 1] + [s[|s| - 1]];
      InsertString(s[|s| - 1], SortStrings(s[..|s| - 1]))
  }

  /** The head of a sorted list comes before every string in it. */
  lemma {:induction false} SortedHead(a: seq<string>, x: string)
    requires SortedStrings(a) && x in multiset(a)
    ensures |a| > 0 && StrLeq(a[0], x)
  {
    var p :| 0 <= p < |a| && a[p] == x;
    if p == 0 {
      StrLeqTotal(x, x);
    }
  }

  /** Dropping the head of a list drops one copy of it from its strings. */
  lemma {:induction false} DropHead(a: seq<string>)
    requires |a| > 0
    ensures multiset(a[1..]) == multiset(a) - multiset{a[0]}
    ensures SortedStrings(a) ==> SortedStrings(a[1..])
  {
    assert a == [a[0]] + a[1..];
  }

  /** Two sorted lists of the same strings are the same list. */
  lemma {:induction false} SortedUnique(a: seq<string>, b: seq<string>)
    requires SortedStrings(a) && SortedStrings(b) && multiset(a) == multiset(b)
    ensures a == b
    decreases |a|
  {
    if |a| == 0 {
      assert |b| == |multiset(b)| == 0;
    } else {
      SameHead(a, b);
      DropHead(a);
      DropHead(b);
      SortedUnique(a[1..], b[1..]);
      assert a == [a[0]] + a[1..] && b == [b[0]] + b[1..];
    }
  }

  /** Two nonempty sorted lists of the same strings start with the same string. */
  lemma {:induction false} SameHead(a: seq<string>, b: seq<string>)
    requires SortedStrings(a) && SortedStrings(b) && multiset(a) == multiset(b) && |a| > 0
    ensures |b| > 0 && a[0] == b[0]
  {
    assert a[0] in multiset(a);
    SortedHead(b, a[0]);
    assert b[0] in multiset(b);
    SortedHead(a, b[0]);
    StrLeqAntisymmetric(a[0], b[0]);
  }

  /** The sorted lists differ exactly when the strings, counted with repetition, differ. */
  lemma {:induction false} SortedEqualIff(a: seq<string>, b: seq<string>)
    ensures SortStrings(a) == SortStrings(b) <==> multiset(a) == multiset(b)
  {
    if multiset(a) == multiset(b) {
      SortedUnique(SortStrings(a), SortStrings(b));
    }
  }

  // ------------------------------------------------------------------ checkPlaceholders / checkHtmlTags

  /** One report: the dotted key and the sorted English and translated token lists. */
  datatype Mismatch = Mismatch(key: string, expected: seq<string>, actual: seq<string>)

  /** The report for one key holding the string `en` in English and `tr` in the translation. */
  function Compare(kind: Pattern, key: string, en: string, tr: string): seq<Mismatch>
  {
    var expected := SortStrings(Tokens(kind, en));
    var actual := SortStrings(Tokens(kind, tr));
    if expected != actual then [Mismatch(key, expected, actual)] else []
  }

  /** What one English field contributes, given the translation table `target`. */
  function CheckField(kind: Pattern, f: Field, target: Value, path: string): seq<Mismatch>
    requires IsObjectLike(target)
    decreases f, 2
  {
    var fp := FullPath(path, f.key);
    var tv := Member(target, f.key);
    if f.value.Str? && tv.Some? && tv.value.Str? then Compare(kind, fp, f.value.s, tv.value.s)
    else if f.value.Obj? && tv.Some? && IsObjectLike(tv.value) then
      Check(kind, f.value.fields, tv.value, fp)
    else []
  }

  /**
   * `checkPlaceholders` (kind `Placeholder`) and `checkHtmlTags` (kind
   * `Markup`): the keys holding a string in both tables whose sorted token
   * lists differ, walking the objects both tables hold.
   */
  function Check(kind: Pattern, fs: seq<Field>, target: Value, path: string): seq<Mismatch>
    requires IsObjectLike(target)
    decreases fs, 1
  {
    if |fs| == 0 then []
    else Check(kind, fs[..|fs| - 1], target, path) + CheckField(kind, fs[|fs| - 1], target, path)
  }

  /** The loop both checkers run over the English keys, pushing onto `errors`. */
  method CheckTokens(kind: Pattern, fs: seq<Field>, target: Value, path: string) returns (errors: seq<Mismatch>)
    requires IsObjectLike(target)
    ensures errors == Check(kind, fs, target, path)
    decreases fs, 1
  {
    errors := [];
    var i := 0;
    while i < |fs|
      invariant i <= |fs|
      invariant errors == Check(kind, fs[..i], target, path)
    {
      var reported := CheckKey(kind, fs[i], target, path);
      CheckStep(kind, fs, i, target, path);
      errors := errors + reported;
      i := i + 1;
    }
    assert fs[..|fs|] == fs;
  }

  /** The body of that loop for one English key. */
  method CheckKey(kind: Pattern, f: Field, target: Value, path: string) returns (reported: seq<Mismatch>)
    requires IsObjectLike(target)
    ensures reported == CheckField(kind, f, target, path)
    decreases f, 2
  {
    var fullPath := FullPath(path, f.key);
    var tv := Member(target, f.key);
    if f.value.Str? && tv.Some? && tv.value.Str? {
      reported := Compare(kind, fullPath, f.value.s, tv.value.s);
    } else if f.value.Obj? && tv.Some? && IsObjectLike(tv.value) {
      reported := CheckTokens(kind, f.value.fields, tv.value, fullPath);
    } else {
      reported := [];
    }
  }

  /** One more English field adds its own reports behind the earlier ones. */
  lemma {:induction false} CheckStep(kind: Pattern, fs: seq<Field>, i: nat, target: Value, path: string)
    requires IsObjectLike(target) && i < |fs|
    ensures Check(kind, fs[..i + 1], target, path) == Check(kind, fs[..i], target, path) + CheckField(kind, fs[i], target, path)
  {
    assert fs[..i + 1][..i] == fs[..i];
  }

  /**
   * For a key holding a string in both tables, a mismatch is reported exactly
   * when the two strings hold different tokens, counted with repetition: the
   * order the tokens appear in does not matter.
   */
  lemma {:induction false} MismatchIff(kind: Pattern, key: string, en: string, target: Value, path: string)
    requires IsObjectLike(target)
    requires Member(target, key).Some? && Member(target, key).value.Str?
    ensures CheckField(kind, Field(key, Str(en)), target, path) != [] <==>
      multiset(Tokens(kind, en)) != multiset(Tokens(kind, Member(target, key).value.s))
  {
    SortedEqualIff(Tokens(kind, en), Tokens(kind, Member(target, key).value.s));
  }

  /** A table checked against itself reports nothing, at any depth. */
  lemma {:induction false} CheckSelf(kind: Pattern, fs: seq<Field>, path: string)
    requires DistinctFieldKeys(fs)
    ensures Check(kind, fs, Obj(fs), path) == []
    decreases fs, 1
  {
    CheckSelfPrefix(kind, fs, |fs|, path);
    assert fs[..|fs|] == fs;
  }

  lemma {:induction false} CheckSelfPrefix(kind: Pattern, fs: seq<Field>, n: nat, path: string)
    requires DistinctFieldKeys(fs) && n <= |fs|
    ensures Check(kind, fs[..n], Obj(fs), path) == []
    decreases fs, 0, n
  {
    if n > 0 {
      var f := fs[n - 1];
      assert fs[..n][..n - 1] == fs[..n - 1];
      assert fs[..n][n - 1] == f;
      CheckSelfPrefix(kind, fs, n - 1, path);
      FieldValueAt(fs, n - 1);
      if f.value.Obj? {
        assert DistinctKeys(f.value);
        CheckSelf(kind, f.value.fields, FullPath(path, f.key));
      }
    }
  }
}
