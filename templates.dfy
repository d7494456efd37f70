// `{name}` placeholder substitution, the `/\{(\w+)\}/g` replace that the
// three translation front ends (bot, unified bot table, panel) share.

module Templates {
  import opened Wrappers
  import opened Strings

  /**
   * When the text starts with a placeholder `{w}` (`w` one or more
   * JavaScript word characters), the index of its closing brace.
   */
  function PlaceholderEnd(s: string): (r: Option<nat>)
    ensures r.Some? ==> 1 < r.value < |s| && s[0] == '{' && s[r.value] == '}'
  {
    if |s| > 0 && s[0] == '{' then
      var j := WordEnd(s, 1);
      if j > 1 && j < |s| && s[j] == '}' then Some(j) else None
    else None
  }

  /** The end of the run of word characters starting at `i`. */
  function WordEnd(s: string, i: nat): (r: nat)
    requires i <= |s|
    ensures i <= r <= |s|
    decreases |s| - i
  {
    if i < |s| && IsJsWord(s[i]) then WordEnd(s, i + 1) else i
  }

  /** The replacement for the placeholder named `k`: its value, or the placeholder itself. */
  function Fill(k: string, vars: map<string, string>): string
  {
    if k in vars then vars[k] else "{" + k + "}"
  }

  /**
   * The substitution, for a table holding only the defined (not `undefined`,
   * not `null`) values, scanning left to right: a placeholder at the front is
   * replaced, any other character is copied, and the scan goes on after it.
   */
  function Interpolate(s: string, vars: map<string, string>): (r: string)
    ensures '{' !in s ==> r == s
    decreases |s|
  {
    if |s| == 0 then ""
    else
      match PlaceholderEnd(s)
      case Some(j) => Fill(s[1..j], vars) + Interpolate(s[j + 1..], vars)
      case None =>
        assert s == [s[0]] + s[1..];
        [s[0]] + Interpolate(s[1..], vars)
  }

  /** Per-language tables of texts: language code, then key, then text. */
  type Dict = map<string, map<string, string>>

  /** The text filed under `key` for `lang`, if any. */
  function Entry(dict: Dict, lang: string, key: string): (r: Option<string>)
    ensures r.Some? <==> lang in dict && key in dict[lang]
    ensures r.Some? ==> r.value == dict[lang][key]
  {
    if lang in dict && key in dict[lang] then Some(dict[lang][key]) else None
  }

  /** With no values, every placeholder is written back as it was: the text is unchanged. */
  lemma {:induction false} NoVars(s: string)
    ensures Interpolate(s, map[]) == s
    decreases |s|
  {
    if |s| > 0 {
      match PlaceholderEnd(s)
      case Some(j) =>
        NoVars(s[j + 1..]);
        Rejoin(s, j);
        assert Fill(s[1..j], map[]) == "{" + s[1..j] + "}";
      case None =>
        NoVars(s[1..]);
        assert s == [s[0]] + s[1..];
    }
  }

  /** A placeholder at the front, closing at `j`, and the text after it make up the whole text. */
  lemma {:induction false} Rejoin(s: string, j: nat)
    requires PlaceholderEnd(s) == Some(j)
    ensures s == "{" + s[1..j] + "}" + s[j + 1..]
  {
    assert s == [s[0]] + s[1..j] + [s[j]] + s[j + 1..];
  }

  /**
   * A placeholder at the front becomes its value when there is one and stays
   * as it is otherwise; the scan goes on right after its closing brace.
   */
  lemma {:induction false} Front(k: string, b: string, vars: map<string, string>)
    requires |k| > 0 && forall c :: c in k ==> IsJsWord(c)
    ensures Interpolate("{" + k + "}" + b, vars) ==
      (if k in vars then vars[k] else "{" + k + "}") + Interpolate(b, vars)
  {
    var s := "{" + k + "}" + b;
    var e := |k| + 1;
    assert forall q :: 1 <= q < e ==> s[q] == k[q - 1];
    assert s[e] == '}' && !IsJsWord('}');
    WordEndAt(s, 1, e);
    assert PlaceholderEnd(s) == Some(e);
    assert s[1..e] == k;
    assert s[e + 1..] == b;
  }

  /** A lone placeholder is the special case with nothing after it. */
  lemma {:induction false} Single(k: string, vars: map<string, string>)
    requires |k| > 0 && forall c :: c in k ==> IsJsWord(c)
    ensures Interpolate("{" + k + "}", vars) == (if k in vars then vars[k] else "{" + k + "}")
  {
    Front(k, "", vars);
    assert "{" + k + "}" + "" == "{" + k + "}";
    assert Interpolate("", vars) == "";
    assert Fill(k, vars) + "" == Fill(k, vars);
  }

  /** `WordEnd` stops exactly at the first non-word character. */
  lemma {:induction false} WordEndAt(s: string, i: nat, e: nat)
    requires i <= e < |s|
    requires forall q :: i <= q < e ==> IsJsWord(s[q])
    requires !IsJsWord(s[e])
    ensures WordEnd(s, i) == e
    decreases e - i
  {
    if i < e {
      WordEndAt(s, i + 1, e);
    }
  }

  /** A brace-free prefix is copied as it is, in front of the substituted rest. */
  lemma {:induction false} PlainPrefix(a: string, b: string, vars: map<string, string>)
    requires '{' !in a
    ensures Interpolate(a + b, vars) == a + Interpolate(b, vars)
    decreases |a|
  {
    if |a| > 0 {
      var s := a + b;
      assert s[0] == a[0] && a[0] != '{';
      assert s[1..] == a[1..] + b;
      PlainPrefix(a[1..], b, vars);
      assert a == [a[0]] + a[1..];
      ConcatAssoc([a[0]], a[1..], Interpolate(b, vars));
    } else {
      assert a + b == b;
    }
  }
}
