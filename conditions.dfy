/** The condition vocabulary of the policy engine (`PolicyGraph._check_conditions`
    in factory_3.py): six named predicates over the facts of one support
    case. Every other name passes. */
module Conditions {
  import opened Wrappers

  /** The facts of one case. A field is `None` when the context dictionary
      has no such key; each predicate then uses the source's default. */
  datatype Context = Context(
    hasReceipt: Option<bool>,
    daysSincePurchase: Option<int>,
    orderStatus: Option<string>,
    itemValue: Option<real>,
    monthsSincePurchase: Option<real>,
    purchaseMonth: Option<int>)

  /** The context with no facts at all. */
  function EmptyContext(): Context {
    Context(None, None, None, None, None, None)
  }

  const KnownConditions: set<string> := {
    "receipt_required", "within_return_window", "within_price_match_window",
    "order_not_shipped", "item_over_500", "warranty_period"}

  /** Whether the named condition holds in `ctx`; one branch of the
      `elif` chain of `_check_conditions` per name. */
  predicate ConditionHolds(name: string, ctx: Context) {
    if name == "receipt_required" then ctx.hasReceipt.GetOr(true)
    else if name == "within_return_window" then ctx.daysSincePurchase.GetOr(0) <= 30
    else if name == "within_price_match_window" then ctx.daysSincePurchase.GetOr(0) <= 14
    else if name == "order_not_shipped" then ctx.orderStatus !in {Some("shipped"), Some("delivered")}
    else if name == "item_over_500" then ctx.itemValue.GetOr(0.0) > 500.0
    else if name == "warranty_period" then ctx.monthsSincePurchase.GetOr(0.0) <= 12.0
    else true
  }

  /** `_check_conditions`: walks the list and stops at the first condition
      that fails. */
  predicate CheckConditions(conditions: seq<string>, ctx: Context)
    decreases |conditions|
  {
    conditions == [] || (ConditionHolds(conditions[0], ctx) && CheckConditions(conditions[1..], ctx))
  }

  /** The short-circuit walk accepts exactly the lists whose every condition
      holds; in particular the empty list always passes. */
  lemma {:induction false} CheckConditionsIffAll(conditions: seq<string>, ctx: Context)
    ensures CheckConditions(conditions, ctx) <==> forall i :: 0 <= i < |conditions| ==> ConditionHolds(conditions[i], ctx)
    decreases |conditions|
  {
    if conditions != [] {
      CheckConditionsIffAll(conditions[1..], ctx);
      assert forall i :: 1 <= i < |conditions| ==> conditions[i] == conditions[1..][i - 1];
    }
  }

  /** The thresholds at their boundaries: the return window admits day 30
      and refuses day 31, the price-match window admits day 14 and refuses
      day 15, `item_over_500` refuses exactly 500, the warranty admits
      month 12. With no facts, every condition but `item_over_500` holds. */
  lemma ThresholdBoundaries(ctx: Context)
    ensures ConditionHolds("within_return_window", ctx.(daysSincePurchase := Some(30)))
    ensures !ConditionHolds("within_return_window", ctx.(daysSincePurchase := Some(31)))
    ensures ConditionHolds("within_price_match_window", ctx.(daysSincePurchase := Some(14)))
    ensures !ConditionHolds("within_price_match_window", ctx.(daysSincePurchase := Some(15)))
    ensures !ConditionHolds("item_over_500", ctx.(itemValue := Some(500.0)))
    ensures ConditionHolds("item_over_500", ctx.(itemValue := Some(500.01)))
    ensures ConditionHolds("warranty_period", ctx.(monthsSincePurchase := Some(12.0)))
    ensures !ConditionHolds("warranty_period", ctx.(monthsSincePurchase := Some(12.1)))
    ensures !ConditionHolds("receipt_required", ctx.(hasReceipt := Some(false)))
    ensures !ConditionHolds("order_not_shipped", ctx.(orderStatus := Some("shipped")))
    ensures !ConditionHolds("order_not_shipped", ctx.(orderStatus := Some("delivered")))
    ensures forall c :: c in KnownConditions && c != "item_over_500" ==> ConditionHolds(c, EmptyContext())
    ensures !ConditionHolds("item_over_500", EmptyContext())
  {
  }

  /** Names outside the vocabulary never make a clause fail: a list passes
      exactly when its known conditions pass. */
  lemma {:induction false} UnknownConditionsIgnored(conditions: seq<string>, ctx: Context)
    ensures CheckConditions(conditions, ctx) <==> CheckConditions(KnownOnly(conditions), ctx)
    decreases |conditions|
  {
    if conditions != [] {
      UnknownConditionsIgnored(conditions[1..], ctx);
    }
  }

  function KnownOnly(conditions: seq<string>): seq<string>
    decreases |conditions|
  {
    if conditions == [] then []
    else if conditions[0] in KnownConditions then [conditions[0]] + KnownOnly(conditions[1..])
    else KnownOnly(conditions[1..])
  }

  /** Fewer days since purchase never turns a passing clause into a failing
      one: both windows only bound the day count from above. */
  lemma {:induction false} FewerDaysKeepPassing(conditions: seq<string>, ctx: Context, days: int)
    requires days <= ctx.daysSincePurchase.GetOr(0)
    requires CheckConditions(conditions, ctx)
    ensures CheckConditions(conditions, ctx.(daysSincePurchase := Some(days)))
    decreases |conditions|
  {
    if conditions != [] {
      FewerDaysKeepPassing(conditions[1..], ctx, days);
    }
  }
}
