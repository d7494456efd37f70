// The plan limits the bot's JavaScript code reads from the user record
// without touching the database: the total number of watched links, the
// number of items per link, and whether the plan is still running.

module PlansJs {
  import opened Wrappers
  import opened Strings

  /**
   * What the helpers are given: a user record or, in development and tests,
   * a bare id. In a record the plan name is empty when it is missing or falsy,
   * the extra packs are the number `Number(extra_link_packs || 0)`, and the
   * expiry is a time in milliseconds when it is set.
   */
  datatype Account =
    | Id(id: int)
    | Record(planName: string, extraLinkPacks: int, planExpiresAt: Option<int>)

  /** The links every plan allows before extra packs. */
  const BaseLinkLimits: map<string, nat> := map["trial" := 5, "basic" := 10, "pro" := 50, "platinum" := 200]

  /** The links each extra pack adds to a platinum plan. */
  const PackSize: nat := 10

  /** The items each watched link may report. */
  const PerLinkLimit: nat := 20

  /** `getPlanName`: lower-cased, `none` when missing, `platinum` for a bare id. */
  function PlanName(u: Account): string
  {
    match u
    case Id(_) => "platinum"
    case Record(n, _, _) => if n == "" then "none" else Lower(n)
  }

  /** `getExtraLinkPacks`: none for a bare id. */
  function Packs(u: Account): int
  {
    if u.Id? then 0 else u.extraLinkPacks
  }

  /** `getEffectiveLinkLimit`: the plan's base limit (0 for an unknown plan), plus the packs on platinum. */
  function EffectiveLinkLimit(u: Account): (r: int)
    ensures Packs(u) >= 0 ==> r >= 0
    ensures PlanName(u) != "platinum" ==> r == (if PlanName(u) in BaseLinkLimits then BaseLinkLimits[PlanName(u)] else 0)
  {
    var plan := PlanName(u);
    if plan == "none" then 0
    else
      var base := if plan in BaseLinkLimits then BaseLinkLimits[plan] else 0;
      if plan == "platinum" then base + Packs(u) * PackSize else base
  }

  /** `getPerLinkItemLimit`: nothing without a plan, twenty items otherwise. */
  function PerLinkItemLimit(u: Account): (r: nat)
    ensures r == 0 <==> PlanName(u) == "none"
    ensures r != 0 ==> r == PerLinkLimit
  {
    if PlanName(u) == "none" then 0 else PerLinkLimit
  }

  /** `isPlanActive(user, now)`: a bare id is active, no plan is not, an open-ended plan is. */
  function IsPlanActive(u: Account, now: int): (r: bool)
    ensures u.Id? ==> r
    ensures u.Record? && u.planExpiresAt.Some? && u.planExpiresAt.value < now ==> !r
    ensures u.Record? && r ==> PlanName(u) != "none"
    ensures u.Record? ==> (r <==> PlanName(u) != "none" && (u.planExpiresAt.None? || now <= u.planExpiresAt.value))
  {
    if u.Id? then true
    else if PlanName(u) == "none" then false
    else match u.planExpiresAt
      case None => true
      case Some(t) => t >= now
  }

  // ---------------------------------------------------------- properties

  /** A platinum plan grows by ten links per extra pack above its base of 200; a bare id gets the base. */
  lemma {:induction false} PlatinumPacks(u: Account)
    requires PlanName(u) == "platinum"
    ensures EffectiveLinkLimit(u) == 200 + PackSize * Packs(u)
    ensures u.Id? ==> EffectiveLinkLimit(u) == 200
  {
  }

  /** Only platinum counts packs: for any other plan the packs change nothing. */
  lemma {:induction false} PacksOnlyPlatinum(n: string, p: int, q: int, e: Option<int>)
    requires PlanName(Record(n, p, e)) != "platinum"
    ensures EffectiveLinkLimit(Record(n, p, e)) == EffectiveLinkLimit(Record(n, q, e))
  {
  }

  /** The plan name is read in any case: `PRO` and `pro` get the same limits and the same state. */
  lemma {:induction false} CaseInsensitive(n: string, p: int, e: Option<int>, now: int)
    ensures EffectiveLinkLimit(Record(n, p, e)) == EffectiveLinkLimit(Record(Lower(n), p, e))
    ensures PerLinkItemLimit(Record(n, p, e)) == PerLinkItemLimit(Record(Lower(n), p, e))
    ensures IsPlanActive(Record(n, p, e), now) == IsPlanActive(Record(Lower(n), p, e), now)
  {
    LowerIdempotent(n);
    assert PlanName(Record(n, p, e)) == PlanName(Record(Lower(n), p, e));
  }

  /** The plans are ordered: each one allows more links than the one below it. */
  lemma {:induction false} PlansOrdered(p: int, e: Option<int>)
    requires p >= 0
    ensures EffectiveLinkLimit(Record("none", p, e)) < EffectiveLinkLimit(Record("trial", p, e))
    ensures EffectiveLinkLimit(Record("trial", p, e)) < EffectiveLinkLimit(Record("basic", p, e))
    ensures EffectiveLinkLimit(Record("basic", p, e)) < EffectiveLinkLimit(Record("pro", p, e))
    ensures EffectiveLinkLimit(Record("pro", p, e)) < EffectiveLinkLimit(Record("platinum", p, e))
  {
    LowerFixed("none");
    LowerFixed("trial");
    LowerFixed("basic");
    LowerFixed("pro");
    LowerFixed("platinum");
  }

  /** A plan active at some time was active at every earlier time. */
  lemma {:induction false} ActiveEarlier(u: Account, now: int, earlier: int)
    requires IsPlanActive(u, now) && earlier <= now
    ensures IsPlanActive(u, earlier)
  {
  }

  /** A record without a plan is never active and allows nothing; a bare id always is. */
  lemma {:induction false} NoPlanNothing(p: int, e: Option<int>, now: int, id: int)
    ensures !IsPlanActive(Record("", p, e), now)
    ensures EffectiveLinkLimit(Record("", p, e)) == 0 && PerLinkItemLimit(Record("", p, e)) == 0
    ensures IsPlanActive(Id(id), now) && PerLinkItemLimit(Id(id)) == PerLinkLimit
  {
  }
}
