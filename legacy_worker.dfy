// The legacy worker's own helpers: key cleaning, the per-user filters, the
// batch message of the `/zbiorcze` mode and the Vinted notification order.

module LegacyWorker {
  import opened Wrappers
  import opened Strings
  import opened Feed

  // ---------------------------------------------------------- cleanKey

  /** `cleanKey`: `None` for a missing, blank, `"null"` or `"undefined"` key (in any case); the trimmed key otherwise. */
  function CleanKey(v: Option<string>): (r: Option<string>)
    ensures r.Some? ==> r.value != "" && JsTrim(r.value) == r.value
    ensures r.Some? ==> Lower(r.value) != "null" && Lower(r.value) != "undefined"
  {
    match v
    case None => None
    case Some(x) =>
      var s := JsTrim(x);
      TrimIdempotent(x, IsJsSpace);
      if s == "" then None
      else
        var low := Lower(s);
        if low == "null" || low == "undefined" then None else Some(s)
  }

  /** Cleaning a cleaned key changes nothing. */
  lemma {:induction false} CleanKeyIdempotent(v: Option<string>)
    ensures CleanKey(CleanKey(v)) == CleanKey(v)
  {
  }

  /** Surrounding whitespace never matters. */
  lemma {:induction false} CleanKeyIgnoresSpace(x: string)
    ensures CleanKey(Some(JsTrim(x))) == CleanKey(Some(x))
  {
    TrimIdempotent(x, IsJsSpace);
  }

  // ---------------------------------------------------------- matchFilters

  /**
   * A user's filters; an empty list stands for a filter that is absent or
   * not an array.
   */
  datatype Filters = Filters(
    minPrice: Option<int>, maxPrice: Option<int>,
    brand: seq<string>, sizes: seq<string>, conditions: seq<string>)

  /** A known price below the minimum or above the maximum excludes the item. */
  predicate PriceOk(item: Item, f: Filters)
  {
    !(f.minPrice.Some? && item.price.Some? && item.price.value < f.minPrice.value) &&
    !(f.maxPrice.Some? && item.price.Some? && item.price.value > f.maxPrice.value)
  }

  /** Some listed brand occurs in the item's brand, case aside. */
  predicate BrandOk(item: Item, f: Filters)
  {
    |f.brand| == 0 || exists b :: b in f.brand && Contains(Lower(item.brand), Lower(b))
  }

  /** Some listed size is the item's size, case aside. */
  predicate SizeOk(item: Item, f: Filters)
  {
    |f.sizes| == 0 || exists s :: s in f.sizes && Lower(item.size) == Lower(s)
  }

  /** Some listed condition occurs in the item's condition, case aside. */
  predicate ConditionOk(item: Item, f: Filters)
  {
    |f.conditions| == 0 || exists c :: c in f.conditions && Contains(Lower(item.condition), Lower(c))
  }

  /** `matchFilters`: `None` stands for missing or empty filters; filters that set nothing pass every item. */
  function MatchFilters(item: Item, filters: Option<Filters>): (r: bool)
    ensures filters == Some(NoFilters) ==> r
  {
    match filters
    case None => true
    case Some(f) => PriceOk(item, f) && BrandOk(item, f) && SizeOk(item, f) && ConditionOk(item, f)
  }

  const NoFilters: Filters := Filters(None, None, [], [], [])

  /**
   * Each filter decides on its own: an item passes all of them exactly when
   * it passes each of them set alone.
   */
  lemma {:induction false} FiltersIndependent(item: Item, f: Filters)
    ensures MatchFilters(item, Some(f)) <==>
      MatchFilters(item, Some(NoFilters.(minPrice := f.minPrice, maxPrice := f.maxPrice))) &&
      MatchFilters(item, Some(NoFilters.(brand := f.brand))) &&
      MatchFilters(item, Some(NoFilters.(sizes := f.sizes))) &&
      MatchFilters(item, Some(NoFilters.(conditions := f.conditions)))
  {
  }

  /** A known price outside the bounds excludes the item whatever the other filters say. */
  lemma {:induction false} PriceOutsideExcluded(item: Item, f: Filters)
    requires item.price.Some?
    requires (f.minPrice.Some? && item.price.value < f.minPrice.value) ||
             (f.maxPrice.Some? && item.price.value > f.maxPrice.value)
    ensures !MatchFilters(item, Some(f))
  {
  }

  /** An item without a known price is never excluded by the price bounds. */
  lemma {:induction false} UnknownPriceKept(item: Item, f: Filters)
    requires item.price.None?
    ensures MatchFilters(item, Some(f)) == MatchFilters(item, Some(f.(minPrice := None, maxPrice := None)))
  {
  }

  // ---------------------------------------------------------- buildBatchMessage

  /** The block of the item numbered `n`: number and title, the price when there is one, the link. */
  function Block(n: nat, it: Item): string
  {
    var priceLine := if PriceText(it) != "" then "💰 " + EscapeHtml(PriceText(it)) + "\n" else "";
    NatToString(n) + ". " + EscapeHtml(it.title) + "\n" + priceLine + it.url + "\n\n"
  }

  /** The blocks of `items`, numbered from 1. */
  function Blocks(items: seq<Item>): string
  {
    if |items| == 0 then "" else Blocks(items[..|items| - 1]) + Block(|items|, items[|items| - 1])
  }

  /** The whole message before trimming. */
  function BatchRaw(header: string, linkId: string, items: seq<Item>, skippedExtra: int): string
  {
    BatchHead(header) + Blocks(items) + (if skippedExtra > 0 then ExtraLine(skippedExtra) else "") + Footer(linkId)
  }

  /** The source's loop, appending one block per item, then the extra line and the footer. */
  method BuildBatchMessage(header: string, linkId: string, items: seq<Item>, skippedExtra: int) returns (r: string)
    ensures r == JsTrim(BatchRaw(header, linkId, items, skippedExtra))
  {
    var text := BatchHead(header);
    for idx := 0 to |items|
      invariant text == BatchHead(header) + Blocks(items[..idx])
    {
      BlocksStep(items, idx);
      ConcatAssoc(BatchHead(header), Blocks(items[..idx]), Block(idx + 1, items[idx]));
      text := text + Block(idx + 1, items[idx]);
    }
    assert items[..|items|] == items;
    if skippedExtra > 0 {
      text := text + ExtraLine(skippedExtra);
    } else {
      assert text + "" == text;
    }
    text := text + Footer(linkId);
    assert text == BatchRaw(header, linkId, items, skippedExtra);
    r := JsTrim(text);
  }

  /** One more item adds its block at the end. */
  lemma {:induction false} BlocksStep(items: seq<Item>, i: nat)
    requires i < |items|
    ensures Blocks(items[..i + 1]) == Blocks(items[..i]) + Block(i + 1, items[i])
  {
    assert items[..i + 1][..i] == items[..i];
  }

  /** The blocks of a prefix of the items open the blocks of all of them. */
  lemma {:induction false} BlocksPrefix(items: seq<Item>, i: nat)
    requires i <= |items|
    ensures StartsWith(Blocks(items), Blocks(items[..i]))
    decreases |items| - i
  {
    if i < |items| {
      BlocksPrefix(items[..|items| - 1], i);
      assert items[..|items| - 1][..i] == items[..i];
    } else {
      assert items[..i] == items;
    }
  }

  /**
   * Item `i` gets number `i + 1`: its block follows the blocks of the items
   * before it.
   */
  lemma {:induction false} BlockNumbered(items: seq<Item>, i: nat)
    requires i < |items|
    ensures StartsWith(Blocks(items), Blocks(items[..i]) + Block(i + 1, items[i]))
  {
    BlocksPrefix(items, i + 1);
    BlocksStep(items, i);
  }

  /**
   * With a link id that does not end in whitespace the final trim removes
   * nothing: the message is the head, the blocks, the extra line exactly
   * when offers were skipped, and the footer last.
   */
  lemma {:induction false} BatchUntrimmed(header: string, linkId: string, items: seq<Item>, skippedExtra: int)
    requires linkId != "" && !IsJsSpace(linkId[|linkId| - 1])
    ensures JsTrim(BatchRaw(header, linkId, items, skippedExtra)) == BatchRaw(header, linkId, items, skippedExtra)
    ensures EndsWith(JsTrim(BatchRaw(header, linkId, items, skippedExtra)), Footer(linkId))
  {
    var raw := BatchRaw(header, linkId, items, skippedExtra);
    var f := Footer(linkId);
    assert raw[0] == '🆕';
    assert raw[|raw| - 1] == linkId[|linkId| - 1];
    TrimNoop(raw, IsJsSpace);
    assert raw[|raw| - |f|..] == f;
  }

  // ---------------------------------------------------------- sortItemsForNotify

  /** The Vinted id used for ordering; -1 when there is none. */
  function SortId(it: Item): int
  {
    match it.vintedId
    case Some(n) => n
    case None => -1
  }

  predicate SortedByIdDesc(s: seq<Item>)
  {
    forall i, j :: 0 <= i < j < |s| ==> SortId(s[i]) >= SortId(s[j])
  }

  /** Inserts `x` before the first item whose id is not larger, so that earlier items stay first among equals. */
  function Insert(x: Item, s: seq<Item>): (r: seq<Item>)
    requires SortedByIdDesc(s)
    ensures SortedByIdDesc(r)
    ensures multiset(r) == multiset(s) + multiset{x}
    ensures |r| == |s| + 1 && (r[0] == x || (|s| > 0 && r[0] == s[0]))
  {
    if |s| == 0 then [x]
    else if SortId(s[0]) <= SortId(x) then
      SortedCons(x, s);
      [x] + s
    else
      var t := Insert(x, s[1..]);
      InsertBehind(x, s, t);
      [s[0]] + t
  }

  /** An item going after the head: the head stays in front of the rest with the item put in. */
  lemma {:induction false} InsertBehind(x: Item, s: seq<Item>, t: seq<Item>)
    requires |s| > 0 && SortedByIdDesc(s) && SortId(s[0]) > SortId(x)
    requires SortedByIdDesc(t) && multiset(t) == multiset(s[1..]) + multiset{x}
    requires |t| == |s| && (t[0] == x || (|s| > 1 && t[0] == s[1]))
    ensures SortedByIdDesc([s[0]] + t)
    ensures multiset([s[0]] + t) == multiset(s) + multiset{x}
  {
    assert s == [s[0]] + s[1..];
    assert SortId(s[0]) >= SortId(t[0]);
    SortedCons(s[0], t);
  }

  /** An item no smaller than the head of a sorted list can go in front of it. */
  lemma {:induction false} SortedCons(h: Item, t: seq<Item>)
    requires SortedByIdDesc(t) && (|t| > 0 ==> SortId(h) >= SortId(t[0]))
    ensures SortedByIdDesc([h] + t)
  {
    var r := [h] + t;
    forall i, j | 0 <= i < j < |r| ensures SortId(r[i]) >= SortId(r[j]) {
      assert r[j] == t[j - 1];
      if i > 0 {
        assert r[i] == t[i - 1];
      } else if j > 1 {
        assert SortId(t[0]) >= SortId(t[j - 1]);
      }
    }
  }

  /** The items newest first by Vinted id. */
  function SortByIdDesc(items: seq<Item>): (r: seq<Item>)
    ensures SortedByIdDesc(r)
    ensures multiset(r) == multiset(items)
  {
    if |items| == 0 then []
    else
      assert items == [items[0]] + items[1..];
      Insert(items[0], SortByIdDesc(items[1..]))
  }

  /** `sortItemsForNotify`: Vinted lists are ordered by id, newest first; any other list is kept as it is. */
  function SortItemsForNotify(source: string, items: seq<Item>): (r: seq<Item>)
    ensures Lower(source) == "vinted" ==> SortedByIdDesc(r) && multiset(r) == multiset(items)
    ensures Lower(source) != "vinted" ==> r == items
  {
    if Lower(source) == "vinted" then SortByIdDesc(items) else items
  }
}
