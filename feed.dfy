// The item and schedule helpers that the legacy worker and the API worker
// share, line for line: item keys, the scan for items newer than the last
// seen key, quiet hours across midnight, HTML escaping and the batch key.

module Feed {
  import opened Wrappers
  import opened Strings

  /**
   * A scraped offer. Empty text stands for a missing field; `title` is the
   * first present of the title fields (the API worker also tries `name` and
   * `itemTitle`).
   */
  datatype Item = Item(
    itemKey: string, itemKeySnake: string, itemKeyNormalized: string,
    title: string, price: Option<int>, currency: string, url: string,
    brand: string, size: string, condition: string, vintedId: Option<int>)

  /** `getItemKey`: the first nonempty key field; empty when there is none. */
  function GetItemKey(it: Item): (r: string)
    ensures r == it.itemKey || r == it.itemKeySnake || r == it.itemKeyNormalized
    ensures r == "" <==> it.itemKey == "" && it.itemKeySnake == "" && it.itemKeyNormalized == ""
  {
    if it.itemKey != "" then it.itemKey
    else if it.itemKeySnake != "" then it.itemKeySnake
    else it.itemKeyNormalized
  }

  /** The price text of a batch entry: the price and currency, trimmed; empty without a price. */
  function PriceText(it: Item): string
  {
    match it.price
    case None => ""
    case Some(p) => JsTrim(IntToString(p) + " " + it.currency)
  }

  // ---------------------------------------------------------- batch message texts

  const BatchTitle: string := "🆕 Nowe ogłoszenia\n"

  /** The message head above the items; `header` is the rendered link header. */
  function BatchHead(header: string): string
  {
    BatchTitle + header + "\n\n"
  }

  /** The line about offers left out of the batch. */
  function ExtraLine(extra: int): string
  {
    "+ " + IntToString(extra) + " dodatkowych ofert.\n\n"
  }

  /** The closing line pointing to the full history of the link. */
  function Footer(linkId: string): string
  {
    "Pełną historię zobaczysz w /najnowsze " + linkId
  }

  // ---------------------------------------------------------- items newer than the last key

  /** The items that have a key, in order. */
  function Keyed(items: seq<Item>): (r: seq<Item>)
    ensures |r| <= |items|
    ensures forall i :: 0 <= i < |r| ==> GetItemKey(r[i]) != "" && r[i] in items
  {
    if |items| == 0 then []
    else if GetItemKey(items[0]) == "" then Keyed(items[1..])
    else [items[0]] + Keyed(items[1..])
  }

  /** The scan of a newest-first list: keyed items up to the one holding `lastKey`, and whether it was met. */
  function ScanUntil(items: seq<Item>, lastKey: string): (seq<Item>, bool)
  {
    if |items| == 0 then ([], false)
    else
      var k := GetItemKey(items[0]);
      if k == "" then ScanUntil(items[1..], lastKey)
      else if k == lastKey then ([], true)
      else
        var rest := ScanUntil(items[1..], lastKey);
        ([items[0]] + rest.0, rest.1)
  }

  /** `takeNewItemsUntilLastKey`: nothing, not found, without a last key. */
  function TakeNew(items: seq<Item>, lastKey: string): (seq<Item>, bool)
  {
    if lastKey == "" then ([], false) else ScanUntil(items, lastKey)
  }

  /** The source's loop, which stops at the last key. */
  method TakeNewItemsUntilLastKey(items: seq<Item>, lastKey: string) returns (newer: seq<Item>, found: bool)
    ensures (newer, found) == TakeNew(items, lastKey)
  {
    if lastKey == "" {
      return [], false;
    }
    newer, found := [], false;
    var i := 0;
    assert items[0..] == items;
    assert [] + ScanUntil(items, lastKey).0 == ScanUntil(items, lastKey).0;
    while i < |items|
      invariant 0 <= i <= |items|
      invariant ScanUntil(items, lastKey) == (newer + ScanUntil(items[i..], lastKey).0, ScanUntil(items[i..], lastKey).1)
    {
      assert items[i..][1..] == items[i + 1..];
      var k := GetItemKey(items[i]);
      if k == "" {
        i := i + 1;
        continue;
      }
      if k == lastKey {
        found := true;
        assert newer + [] == newer;
        return;
      }
      ConcatAssoc(newer, [items[i]], ScanUntil(items[i + 1..], lastKey).0);
      newer := newer + [items[i]];
      i := i + 1;
    }
    assert newer + [] == newer;
  }

  /**
   * With a last key that occurs, first at `j`: the new items are the keyed
   * items before it, and it was found.
   */
  lemma {:induction false} TakeNewHit(items: seq<Item>, lastKey: string, j: nat)
    requires lastKey != "" && j < |items| && GetItemKey(items[j]) == lastKey
    requires forall q :: 0 <= q < j ==> GetItemKey(items[q]) != lastKey
    ensures TakeNew(items, lastKey) == (Keyed(items[..j]), true)
    decreases j
  {
    if j > 0 {
      assert items[1..][..j - 1] == items[1..j];
      assert items[..j][1..] == items[1..j];
      TakeNewHit(items[1..], lastKey, j - 1);
    }
  }

  /** With a last key that does not occur: every keyed item, and not found. */
  lemma {:induction false} TakeNewMiss(items: seq<Item>, lastKey: string)
    requires lastKey != ""
    requires forall q :: 0 <= q < |items| ==> GetItemKey(items[q]) != lastKey
    ensures TakeNew(items, lastKey) == (Keyed(items), false)
    decreases |items|
  {
    if |items| > 0 {
      TakeNewMiss(items[1..], lastKey);
    }
  }

  // ---------------------------------------------------------- quiet hours

  /** JavaScript's `%` on integers: the remainder takes the sign of the dividend. */
  function JsRem(a: int, b: int): (r: int)
    requires b > 0
    ensures -b < r < b
    ensures a >= 0 ==> r >= 0
  {
    if a >= 0 then a % b else -((-a) % b)
  }

  /** `((x % 24) + 24) % 24`. */
  function Hour24(x: int): int
  {
    JsRem(JsRem(x, 24) + 24, 24)
  }

  /** The normalisation is the mathematical remainder, whatever the sign. */
  lemma {:induction false} Hour24Mod(x: int)
    ensures Hour24(x) == x % 24
  {
    var r := JsRem(x, 24);
    assert x >= 0 ==> r == x % 24;
    if x < 0 {
      var m := (-x) % 24;
      var d := (-x) / 24;
      assert -x == 24 * d + m;
      assert x == 24 * (-d - 1) + (24 - m) || m == 0;
      if m == 0 {
        assert x == 24 * (-d);
      }
    }
  }

  /**
   * `isHourInQuietRange`; `None` for a value that is not a number (fractional
   * hours are not modelled).
   */
  function IsHourInQuietRange(hour: Option<int>, from: Option<int>, to: Option<int>): (r: bool)
    ensures r ==> hour.Some? && from.Some? && to.Some? && from.value % 24 != to.value % 24
  {
    if hour.None? || from.None? || to.None? then false
    else
      var h, f, t := Hour24(hour.value), Hour24(from.value), Hour24(to.value);
      Hour24Mod(from.value);
      Hour24Mod(to.value);
      if f == t then false
      else if f < t then h >= f && h < t
      else h >= f || h < t
  }

  /**
   * Quiet hours in terms of the clock: never for an empty window, the hours
   * `[from, to)` for a same-day window, and the hours from `from` to
   * midnight and from midnight to `to` for one across midnight.
   */
  lemma {:induction false} QuietHours(hour: int, from: int, to: int)
    ensures from % 24 == to % 24 ==> !IsHourInQuietRange(Some(hour), Some(from), Some(to))
    ensures from % 24 < to % 24 ==>
      (IsHourInQuietRange(Some(hour), Some(from), Some(to)) <==> from % 24 <= hour % 24 < to % 24)
    ensures from % 24 > to % 24 ==>
      (IsHourInQuietRange(Some(hour), Some(from), Some(to)) <==> hour % 24 >= from % 24 || hour % 24 < to % 24)
  {
    Hour24Mod(hour);
    Hour24Mod(from);
    Hour24Mod(to);
  }

  /** Swapping the ends of a nonempty window gives exactly the other hours of the day. */
  lemma {:induction false} QuietComplement(hour: int, from: int, to: int)
    requires from % 24 != to % 24
    ensures IsHourInQuietRange(Some(hour), Some(to), Some(from)) == !IsHourInQuietRange(Some(hour), Some(from), Some(to))
  {
    QuietHours(hour, from, to);
    QuietHours(hour, to, from);
  }

  /** Whole days do not matter. */
  lemma {:induction false} QuietPeriodic(hour: int, from: int, to: int, days: int)
    ensures IsHourInQuietRange(Some(hour + 24 * days), Some(from), Some(to)) ==
      IsHourInQuietRange(Some(hour), Some(from), Some(to))
  {
    Hour24Mod(hour + 24 * days);
    Hour24Mod(hour);
    DayShift(hour, days);
  }

  /** Adding whole days keeps the hour of the day. */
  lemma {:induction false} DayShift(hour: int, days: int)
    ensures (hour + 24 * days) % 24 == hour % 24
  {
    var r := hour % 24;
    var q := hour / 24;
    assert hour == 24 * q + r;
    assert hour + 24 * days == 24 * (q + days) + r;
  }

  // ---------------------------------------------------------- escaping and keys

  /**
   * `escapeHtml`: `&`, then `<`, then `>`, each everywhere; the result holds
   * no angle bracket, so it cannot open or close a tag.
   */
  function EscapeHtml(s: string): (r: string)
    ensures '<' !in r && '>' !in r
  {
    var a := ReplaceAll(s, "&", "&amp;");
    var b := ReplaceAll(a, "<", "&lt;");
    assert "<" == ['<'] && ">" == ['>'];
    ReplaceAllRemoves(a, '<', "&lt;");
    ReplaceAllKeepsOut(b, ">", "&gt;", '<');
    ReplaceAllRemoves(b, '>', "&gt;");
    ReplaceAll(b, ">", "&gt;")
  }

  /** Text without the three special characters is not changed. */
  lemma {:induction false} EscapePlain(s: string)
    requires '&' !in s && '<' !in s && '>' !in s
    ensures EscapeHtml(s) == s
  {
    NoCharNoOccurrence(s, '&');
    NoCharNoOccurrence(s, '<');
    NoCharNoOccurrence(s, '>');
    assert "&" == ['&'] && "<" == ['<'] && ">" == ['>'];
  }

  /**
   * `makeBatchKey(chatId, userId, linkId)`: the user comes first, and the key
   * splits back into its parts when none of them holds a colon.
   */
  function MakeBatchKey(chatId: string, userId: string, linkId: string): (r: string)
    ensures ':' !in chatId && ':' !in userId && ':' !in linkId ==> Split(r, ":") == [userId, chatId, linkId]
  {
    var parts := [userId, chatId, linkId];
    assert Join(parts[2..], ":") == linkId;
    assert Join(parts[1..], ":") == chatId + ":" + linkId;
    assert Join(parts, ":") == userId + ":" + chatId + ":" + linkId;
    if ':' !in chatId && ':' !in userId && ':' !in linkId then
      SplitJoin(parts, ':');
      userId + ":" + chatId + ":" + linkId
    else userId + ":" + chatId + ":" + linkId
  }
}
