// The panel's billing page: which plan a stored plan code stands for, which
// plans it can be changed to, and the link limit, use and add-on packs it
// shows, worked out from the entitlement view and the latest subscription.

module BillingPage {
  import opened Strings

  /** The plans the page knows (`free` for none). */
  datatype Plan = Free | Trial | Starter | Growth | Platinum

  /** The code the page uses for each plan. */
  function PlanCode(p: Plan): string
  {
    match p
    case Free => "free"
    case Trial => "trial"
    case Starter => "starter"
    case Growth => "growth"
    case Platinum => "platinum"
  }

  /** The plans in the order they allow more links. */
  function Rank(p: Plan): nat
  {
    match p
    case Free => 0
    case Trial => 1
    case Starter => 2
    case Growth => 3
    case Platinum => 4
  }

  /** The plans one can buy. */
  predicate IsPaid(p: Plan)
  {
    p == Starter || p == Growth || p == Platinum
  }

  /**
   * `normalizePlan`: the lower-cased code, `free` when it is missing or
   * empty; the old names `basic` and `pro` are the new `starter` and
   * `growth`, and an unknown code is `free`.
   */
  function NormalizePlan(code: string): (r: Plan)
    ensures var c := Lower(code);
      (r == Starter <==> c == "starter" || c == "basic") &&
      (r == Growth <==> c == "growth" || c == "pro") &&
      (r == Trial <==> c == "trial") &&
      (r == Platinum <==> c == "platinum")
  {
    var c := if code == "" then "free" else Lower(code);
    if c == "basic" then Starter
    else if c == "pro" then Growth
    else if c == "trial" then Trial
    else if c == "starter" then Starter
    else if c == "growth" then Growth
    else if c == "platinum" then Platinum
    else Free
  }

  /** Every plan's own code stands for the plan. */
  lemma {:induction false} CodeRoundTrip(p: Plan)
    ensures NormalizePlan(PlanCode(p)) == p
  {
    var c := PlanCode(p);
    assert forall i :: 0 <= i < |c| ==> 'a' <= c[i] <= 'z';
    LowerFixed(c);
  }

  /** `allowedUpgrades`: the plans one can change to, cheapest first. */
  function AllowedUpgrades(current: Plan): (r: seq<Plan>)
    ensures forall q :: q in r <==> IsPaid(q) && Rank(q) > Rank(current)
    ensures forall i, j :: 0 <= i < j < |r| ==> Rank(r[i]) < Rank(r[j])
  {
    if current == Trial || current == Free then [Starter, Growth, Platinum]
    else if current == Starter then [Growth, Platinum]
    else if current == Growth then [Platinum]
    else []
  }

  /** Platinum can only add packs: no plan is above it. */
  lemma {:induction false} PlatinumTop(p: Plan)
    ensures AllowedUpgrades(p) == [] <==> p == Platinum
  {
    if p != Platinum {
      assert Platinum in AllowedUpgrades(p);
    }
  }

  /** A plan one can change to has fewer choices left, so changing plans always ends. */
  lemma {:induction false} UpgradesShrink(p: Plan, q: Plan)
    requires q in AllowedUpgrades(p)
    ensures |AllowedUpgrades(q)| < |AllowedUpgrades(p)|
  {
  }

  /** What `Number(x)` gives for a column: a finite whole number, or `NaN` or an infinity. */
  datatype Num = Finite(value: int) | NotFinite

  /** `clampInt(n, def)`: the number itself when it is finite, the default otherwise. */
  function ClampInt(n: Num, def: int): (r: int)
    ensures n.NotFinite? ==> r == def
    ensures n.Finite? ==> r == n.value
  {
    match n
    case Finite(x) => x
    case NotFinite => def
  }

  /** JavaScript `Math.round(num / den * 100)`, for a positive `den`: the nearest whole percentage, halves up. */
  function RoundPercent(num: int, den: int): (r: int)
    requires den > 0
    ensures 2 * den * r <= 200 * num + den < 2 * den * (r + 1)
  {
    (200 * num + den) / (2 * den)
  }

  /** What the page shows of the link limit. */
  datatype Limits = Limits(
    baseLinks: int,
    extraLinks: int,
    limitTotal: int,
    remaining: int,
    pct: int,
    addonPacks: int)

  /** The links each add-on pack adds. */
  const PackLinks: int := 10

  /** The base limit: the view's, or else its total. */
  function BaseOf(entBase: int, entTotal: int): int
  {
    if entBase == 0 && entTotal != 0 then entTotal else entBase
  }

  /** The add-on links are used when the view has no extra links and the subscription has packs. */
  predicate UsesAddon(entExtra: int, addonQty: int)
  {
    entExtra == 0 && addonQty * PackLinks != 0
  }

  /** The total limit: the view's when positive, base and extra otherwise, the add-on added when the total left it out. */
  function TotalOf(entBase: int, entExtra: int, entTotal: int, addonQty: int): int
  {
    var base := BaseOf(entBase, entTotal);
    var extra := if UsesAddon(entExtra, addonQty) then addonQty * PackLinks else entExtra;
    var total := if entTotal <= 0 then base + extra else entTotal;
    if UsesAddon(entExtra, addonQty) && total == base then base + addonQty * PackLinks else total
  }

  /** The share of the limit in use, as `Math.min(100, Math.max(0, Math.round(…)))`, and 0 without a limit. */
  function Percent(enabled: int, total: int): (r: int)
  {
    if total > 0 then
      var p := RoundPercent(enabled, total);
      if p < 0 then 0 else if p > 100 then 100 else p
    else 0
  }

  /** The whole block, on the numbers already clamped. */
  function LimitsOf(entBase: int, entExtra: int, entTotal: int, addonQty: int, enabled: int): Limits
  {
    var base := BaseOf(entBase, entTotal);
    var extra := if UsesAddon(entExtra, addonQty) then addonQty * PackLinks else entExtra;
    var total := TotalOf(entBase, entExtra, entTotal, addonQty);
    Limits(base, extra, total,
      if total - enabled > 0 then total - enabled else 0,
      Percent(enabled, total),
      if extra > 0 then extra / PackLinks else 0)
  }

  /**
   * The limit block of the page: the view's base, extra and total links, the
   * subscription's add-on packs and the number of enabled links, each read
   * with `clampInt(·, 0)`, give the limit shown, what remains of it, the
   * share used and the packs bought.
   */
  method BillingLimits(entBaseCol: Num, entExtraCol: Num, entTotalCol: Num, addonQtyCol: Num, enabledCol: Num)
    returns (l: Limits)
    ensures l == LimitsOf(ClampInt(entBaseCol, 0), ClampInt(entExtraCol, 0), ClampInt(entTotalCol, 0),
      ClampInt(addonQtyCol, 0), ClampInt(enabledCol, 0))
  {
    var enabledCount := ClampInt(enabledCol, 0);
    var entBase := ClampInt(entBaseCol, 0);
    var entExtra := ClampInt(entExtraCol, 0);
    var entTotal := ClampInt(entTotalCol, 0);
    var addonQty := ClampInt(addonQtyCol, 0);
    var addonExtraLinks := addonQty * PackLinks;

    var baseLinks := entBase;
    var extraLinks := entExtra;
    var limitTotal := entTotal;

    if baseLinks == 0 && limitTotal != 0 {
      baseLinks := limitTotal;
    }
    var usedAddonExtra := extraLinks == 0 && addonExtraLinks != 0;
    if usedAddonExtra {
      extraLinks := addonExtraLinks;
    }
    if limitTotal <= 0 {
      limitTotal := baseLinks + extraLinks;
    }
    if usedAddonExtra && limitTotal == baseLinks {
      limitTotal := baseLinks + addonExtraLinks;
    }

    var remaining := if limitTotal - enabledCount > 0 then limitTotal - enabledCount else 0;
    var pct := Percent(enabledCount, limitTotal);
    var addonPacks := if extraLinks > 0 then extraLinks / PackLinks else 0;
    assert baseLinks == BaseOf(entBase, entTotal);
    assert usedAddonExtra == UsesAddon(entExtra, addonQty);
    assert limitTotal == TotalOf(entBase, entExtra, entTotal, addonQty);
    l := Limits(baseLinks, extraLinks, limitTotal, remaining, pct, addonPacks);
  }

  // ---------------------------------------------------------- properties

  /** What remains is never negative, and is the limit less the enabled links while they fit. */
  lemma {:induction false} RemainingBounds(entBase: int, entExtra: int, entTotal: int, addonQty: int, enabled: int)
    ensures var l := LimitsOf(entBase, entExtra, entTotal, addonQty, enabled);
      l.remaining >= 0 && (enabled <= l.limitTotal ==> l.remaining == l.limitTotal - enabled)
  {
  }

  /** Multiplying by one more adds the factor once more. */
  lemma {:induction false} MulStep(d: int, x: int)
    ensures d * (x + 1) == d * x + d
  {
  }

  /** Multiplying by a non-negative factor keeps order. */
  lemma {:induction false} MulLe(d: int, x: int, y: int)
    requires d >= 0 && x <= y
    ensures d * x <= d * y
    decreases y - x
  {
    if x < y {
      MulLe(d, x + 1, y);
      MulStep(d, x);
    }
  }

  /**
   * The share used is a percentage: none without a limit or with no links
   * enabled, and all of it once the enabled links fill the limit.
   */
  lemma {:induction false} PercentBounds(enabled: int, total: int)
    ensures 0 <= Percent(enabled, total) <= 100
    ensures total <= 0 || enabled <= 0 ==> Percent(enabled, total) == 0
    ensures 0 < total <= enabled ==> Percent(enabled, total) == 100
  {
    if total > 0 {
      var p := RoundPercent(enabled, total);
      if enabled <= 0 && p >= 1 {
        MulLe(2 * total, 1, p);
        assert false;
      }
      if total <= enabled && p + 1 <= 100 {
        MulLe(2 * total, p + 1, 100);
        MulLe(200, total, enabled);
        assert false;
      }
    }
  }

  /** Integer division by a positive number keeps order. */
  lemma {:induction false} DivMonotone(a: int, b: int, d: int)
    requires a <= b && d > 0
    ensures a / d <= b / d
  {
    var qa, qb := a / d, b / d;
    assert a == d * qa + a % d && 0 <= a % d;
    assert b == d * qb + b % d && b % d < d;
    if qa > qb {
      MulLe(d, qb + 1, qa);
      MulStep(d, qb);
      assert false;
    }
  }

  /** More enabled links never show a smaller share used. */
  lemma {:induction false} PercentMonotone(e1: int, e2: int, total: int)
    requires e1 <= e2
    ensures Percent(e1, total) <= Percent(e2, total)
  {
    if total > 0 {
      DivMonotone(200 * e1 + total, 200 * e2 + total, 2 * total);
    }
  }

  /**
   * The view's positive total is the limit unless the add-on links were
   * used and the total is just the base; without a total the limit is base
   * plus extra.
   */
  lemma {:induction false} TotalSources(entBase: int, entExtra: int, entTotal: int, addonQty: int)
    ensures var l := LimitsOf(entBase, entExtra, entTotal, addonQty, 0);
      (entTotal > 0 && !(UsesAddon(entExtra, addonQty) && entTotal == l.baseLinks) ==> l.limitTotal == entTotal) &&
      (entTotal <= 0 ==> l.limitTotal == l.baseLinks + l.extraLinks)
  {
  }

  /** When the subscription's packs stand in for the view's extra links, the page shows exactly those packs. */
  lemma {:induction false} AddonPacksRoundTrip(entBase: int, entTotal: int, addonQty: int, enabled: int)
    requires addonQty > 0
    ensures LimitsOf(entBase, 0, entTotal, addonQty, enabled).addonPacks == addonQty
    ensures LimitsOf(entBase, 0, entTotal, addonQty, enabled).extraLinks == addonQty * PackLinks
  {
    assert (addonQty * PackLinks) / PackLinks == addonQty;
  }

  /** With the view's numbers consistent (base, extra and total, no missing base), the add-on changes nothing. */
  lemma {:induction false} ConsistentView(entBase: int, entExtra: int, addonQty: int, enabled: int)
    requires entBase > 0 && entExtra > 0
    ensures var l := LimitsOf(entBase, entExtra, entBase + entExtra, addonQty, enabled);
      l.baseLinks == entBase && l.extraLinks == entExtra && l.limitTotal == entBase + entExtra &&
      l.addonPacks == entExtra / PackLinks
  {
  }
}
