// The plan table of the TypeScript server: each plan's display name, base
// link limit, length and whether extra link packs apply, with the lookups the
// server makes on a user's plan.

module PlansTs {
  import opened Wrappers

  datatype PlanConfig = PlanConfig(
    name: string,
    displayName: string,
    baseLinkLimit: nat,
    durationDays: Option<nat>,
    allowExtras: bool)

  /** The links each extra pack adds. */
  const PackSize: nat := 10

  const NonePlan: PlanConfig := PlanConfig("none", "Brak planu", 0, None, false)
  const TrialPlan: PlanConfig := PlanConfig("trial", "Trial", 5, Some(3), false)
  const StarterPlan: PlanConfig := PlanConfig("starter", "Starter", 10, Some(30), false)
  const GrowthPlan: PlanConfig := PlanConfig("growth", "Growth", 25, Some(30), false)
  const PlatinumPlan: PlanConfig := PlanConfig("platinum", "Platinum", 50, Some(30), true)

  /** `PLANS`, keyed by plan name. */
  const Plans: map<string, PlanConfig> :=
    map["none" := NonePlan, "trial" := TrialPlan, "starter" := StarterPlan,
        "growth" := GrowthPlan, "platinum" := PlatinumPlan]

  /** What the server knows of a user: the stored plan name (`None` for null), packs and expiry in milliseconds. */
  datatype UserPlanInfo = UserPlanInfo(planName: Option<string>, planExpiresAt: Option<int>, extraLinkPacks: int)

  /** `getPlanConfig`: the named plan's entry, and the `none` entry for a missing or unknown name. */
  function GetPlanConfig(planName: Option<string>): (r: PlanConfig)
    ensures r.name in Plans && Plans[r.name] == r
    ensures planName.Some? && planName.value in Plans ==> r == Plans[planName.value]
    ensures (planName.None? || planName.value !in Plans) ==> r == NonePlan
  {
    if planName.None? || planName.value == "" then NonePlan
    else if planName.value in Plans then Plans[planName.value]
    else NonePlan
  }

  /** `isPlanActive(user, now)`: a plan with no expiry date is not active; otherwise until it expires. */
  function IsPlanActive(user: UserPlanInfo, now: int): (r: bool)
    ensures user.planExpiresAt.None? ==> !r
    ensures r ==> now <= user.planExpiresAt.value
    ensures r <==> user.planExpiresAt.Some? && now <= user.planExpiresAt.value
  {
    match user.planExpiresAt
    case None => false
    case Some(t) => t >= now
  }

  /** `getEffectiveLinkLimit`: the base limit, plus ten links per pack on platinum. */
  function EffectiveLinkLimit(user: UserPlanInfo): (r: int)
    ensures !GetPlanConfig(user.planName).allowExtras ==> r == GetPlanConfig(user.planName).baseLinkLimit
    ensures user.extraLinkPacks >= 0 ==> r >= GetPlanConfig(user.planName).baseLinkLimit
  {
    var cfg := GetPlanConfig(user.planName);
    if cfg.name == "platinum" then cfg.baseLinkLimit + user.extraLinkPacks * PackSize
    else cfg.baseLinkLimit
  }

  // ---------------------------------------------------------- properties

  /** Every entry is filed under its own name. */
  lemma {:induction false} PlansNamed()
    ensures forall k :: k in Plans ==> Plans[k].name == k
  {
  }

  /**
   * The limit check on the name agrees with the table's `allowExtras` flag:
   * packs count exactly for the plan that allows extras.
   */
  lemma {:induction false} ExtrasFollowFlag(user: UserPlanInfo)
    ensures EffectiveLinkLimit(user) ==
      GetPlanConfig(user.planName).baseLinkLimit +
      (if GetPlanConfig(user.planName).allowExtras then user.extraLinkPacks * PackSize else 0)
  {
    var cfg := GetPlanConfig(user.planName);
    assert cfg.allowExtras <==> cfg.name == "platinum";
  }

  /** A missing or unknown plan allows no links, with or without packs. */
  lemma {:induction false} UnknownPlanNoLinks(user: UserPlanInfo)
    requires user.planName.None? || user.planName.value !in Plans
    ensures EffectiveLinkLimit(user) == 0
  {
  }

  /** With packs never negative, the plans are ordered by the links they allow. */
  lemma {:induction false} PlansOrdered(e: Option<int>, p: int)
    requires p >= 0
    ensures EffectiveLinkLimit(UserPlanInfo(Some("none"), e, p)) < EffectiveLinkLimit(UserPlanInfo(Some("trial"), e, p))
    ensures EffectiveLinkLimit(UserPlanInfo(Some("trial"), e, p)) < EffectiveLinkLimit(UserPlanInfo(Some("starter"), e, p))
    ensures EffectiveLinkLimit(UserPlanInfo(Some("starter"), e, p)) < EffectiveLinkLimit(UserPlanInfo(Some("growth"), e, p))
    ensures EffectiveLinkLimit(UserPlanInfo(Some("growth"), e, p)) < EffectiveLinkLimit(UserPlanInfo(Some("platinum"), e, p))
  {
  }

  /** Only the `none` plan has no length; every other plan runs for 3 or 30 days. */
  lemma {:induction false} Durations()
    ensures forall k :: k in Plans ==> (Plans[k].durationDays.None? <==> k == "none")
    ensures forall k :: k in Plans && k != "none" ==> Plans[k].durationDays.value in {3, 30}
  {
  }

  /** A plan active at some time was active at every earlier time, and never without an expiry date. */
  lemma {:induction false} ActiveEarlier(user: UserPlanInfo, now: int, earlier: int)
    requires IsPlanActive(user, now) && earlier <= now
    ensures IsPlanActive(user, earlier) && user.planExpiresAt.Some?
  {
  }
}
