/** The deterministic steps of the ticket pipeline of
    factory_policy_before_graph.py that sit around the language-model calls:
    naming a clause's category from its id, choosing the primary policy of a
    scenario, enforcing the return window on the actions of a resolution,
    and removing debug metadata from a ticket. */
module Pipeline {
  import opened Wrappers
  import opened Text
  import opened Sequences
  import opened Conditions
  import opened Discovered

  /** The id keywords `parse_policy_document` tests, in the order it tests
      them, with the category each one names. */
  const Families: seq<(string, string)> := [
    ("RETURN", "Return Policy"), ("SHIP", "Shipping Policy"), ("WARRANTY", "Warranty Policy"),
    ("PRICE", "Price Match Policy"), ("ORDER", "Order Policy"), ("HOLIDAY", "Holiday Policy"),
    ("COMM", "Customer Service")]

  /** The category of the first family, in list order, whose keyword occurs
      in `id`; `dflt` when none does. */
  function FirstFamily(fams: seq<(string, string)>, id: string, dflt: string): string
    decreases |fams|
  {
    if fams == [] then dflt
    else if Contains(id, fams[0].0) then fams[0].1
    else FirstFamily(fams[1..], id, dflt)
  }

  /** The category chain of `parse_policy_document`. */
  function CategoryFromId(id: string): string {
    if Contains(id, "RETURN") then "Return Policy"
    else if Contains(id, "SHIP") then "Shipping Policy"
    else if Contains(id, "WARRANTY") then "Warranty Policy"
    else if Contains(id, "PRICE") then "Price Match Policy"
    else if Contains(id, "ORDER") then "Order Policy"
    else if Contains(id, "HOLIDAY") then "Holiday Policy"
    else if Contains(id, "COMM") then "Customer Service"
    else "Unknown"
  }

  /** The category chain of `select_and_customize_scenario_v2`: the first
      five families only, and the empty string otherwise. */
  function TemplateCategory(id: string): string {
    if Contains(id, "RETURN") then "Return Policy"
    else if Contains(id, "SHIP") then "Shipping Policy"
    else if Contains(id, "WARRANTY") then "Warranty Policy"
    else if Contains(id, "PRICE") then "Price Match Policy"
    else if Contains(id, "ORDER") then "Order Policy"
    else ""
  }

  /** The category of an id is decided by the first family whose keyword
      occurs in it: the chain and the family table agree. */
  lemma CategoryIsFirstFamily(id: string)
    ensures CategoryFromId(id) == FirstFamily(Families, id, "Unknown")
  {
    var f := Families;
    assert f[1..][1..][1..][1..][1..][1..][1..] == [];
  }

  /** The category is "Unknown" exactly when no keyword occurs in the id;
      otherwise it belongs to a family whose keyword occurs and no earlier
      family's keyword occurs. */
  lemma {:induction false} FirstFamilyChoice(fams: seq<(string, string)>, id: string, dflt: string)
    requires forall j :: 0 <= j < |fams| ==> fams[j].1 != dflt
    ensures FirstFamily(fams, id, dflt) == dflt <==> forall j :: 0 <= j < |fams| ==> !Contains(id, fams[j].0)
    ensures FirstFamily(fams, id, dflt) != dflt ==>
      exists j :: 0 <= j < |fams| && FirstFamily(fams, id, dflt) == fams[j].1 && Contains(id, fams[j].0)
        && forall t :: 0 <= t < j ==> !Contains(id, fams[t].0)
    decreases |fams|
  {
    if fams != [] && !Contains(id, fams[0].0) {
      FirstFamilyChoice(fams[1..], id, dflt);
      if FirstFamily(fams, id, dflt) != dflt {
        var j :| 0 <= j < |fams[1..]| && FirstFamily(fams, id, dflt) == fams[1..][j].1 && Contains(id, fams[1..][j].0)
          && forall t :: 0 <= t < j ==> !Contains(id, fams[1..][t].0);
        forall t | 0 <= t < j + 1 ensures !Contains(id, fams[t].0) {
          if t > 0 {
            assert fams[t] == fams[1..][t - 1];
          }
        }
      }
      forall j | 0 <= j < |fams| - 1 ensures fams[1..][j] == fams[j + 1] {
      }
    }
  }

  /** `parse_policy_document`'s category: "Unknown" exactly when no family
      keyword occurs in the id; otherwise the category of the first family,
      in the order RETURN, SHIP, WARRANTY, PRICE, ORDER, HOLIDAY, COMM, whose
      keyword occurs. */
  lemma CategoryFromIdDecided(id: string)
    ensures CategoryFromId(id) == "Unknown" <==> forall j :: 0 <= j < |Families| ==> !Contains(id, Families[j].0)
    ensures CategoryFromId(id) != "Unknown" ==>
      exists j :: 0 <= j < |Families| && CategoryFromId(id) == Families[j].1 && Contains(id, Families[j].0)
        && forall t :: 0 <= t < j ==> !Contains(id, Families[t].0)
  {
    CategoryIsFirstFamily(id);
    FirstFamilyChoice(Families, id, "Unknown");
  }

  /** Where the template chain names a category it names the same one as
      the parser's chain; it names none for holiday, customer-service and
      unrecognised ids. */
  lemma TemplateCategoryAgrees(id: string)
    ensures TemplateCategory(id) != "" ==> TemplateCategory(id) == CategoryFromId(id)
    ensures TemplateCategory(id) == "" <==>
      CategoryFromId(id) in {"Holiday Policy", "Customer Service", "Unknown"}
  {
  }

  /** The `for ... else` search of `select_and_customize_scenario_v2`: the
      first clause, in insertion order, of the given category. */
  function FirstOfCategory(order: seq<string>, clauses: Store, category: string): (r: Option<string>)
    requires forall k :: k in order ==> k in clauses
    decreases |order|
  {
    if order == [] then None
    else if clauses[order[0]].category == category then Some(order[0])
    else FirstOfCategory(order[1..], clauses, category)
  }

  /** The primary policy: the template's own when it is a clause; otherwise
      the first clause of the template's category, the first clause, or
      "POL-UNKNOWN-001" when there are no clauses. */
  function PrimaryPolicy(order: seq<string>, clauses: Store, primary: string): string
    requires forall k :: k in order ==> k in clauses
  {
    if primary in clauses then primary
    else match FirstOfCategory(order, clauses, TemplateCategory(primary))
      case Some(k) => k
      case None => if order != [] then order[0] else "POL-UNKNOWN-001"
  }

  lemma {:induction false} FirstOfCategoryIsFirst(order: seq<string>, clauses: Store, category: string)
    requires forall k :: k in order ==> k in clauses
    ensures FirstOfCategory(order, clauses, category).None? <==>
      forall i :: 0 <= i < |order| ==> clauses[order[i]].category != category
    ensures FirstOfCategory(order, clauses, category).Some? ==>
      exists i :: 0 <= i < |order| && order[i] == FirstOfCategory(order, clauses, category).value
        && clauses[order[i]].category == category
        && forall t :: 0 <= t < i ==> clauses[order[t]].category != category
    decreases |order|
  {
    if order != [] && clauses[order[0]].category != category {
      FirstOfCategoryIsFirst(order[1..], clauses, category);
      forall j | 0 <= j < |order| - 1 ensures order[1..][j] == order[j + 1] {
      }
      if FirstOfCategory(order, clauses, category).Some? {
        var i :| 0 <= i < |order[1..]| && order[1..][i] == FirstOfCategory(order, clauses, category).value
          && clauses[order[1..][i]].category == category
          && forall t :: 0 <= t < i ==> clauses[order[1..][t]].category != category;
        assert order[i + 1] == order[1..][i];
        forall t | 0 <= t < i + 1 ensures clauses[order[t]].category != category {
          if t > 0 {
            assert order[t] == order[1..][t - 1];
          }
        }
      }
    }
  }

  /** What the fallback guarantees: the template's primary policy is kept
      when it is a clause; otherwise the first clause of the template's
      category is chosen when there is one, and the first clause otherwise;
      the placeholder id is used only when there are no clauses. */
  lemma PrimaryPolicyChoice(order: seq<string>, clauses: Store, primary: string)
    requires forall k :: k in order <==> k in clauses
    ensures primary in clauses ==> PrimaryPolicy(order, clauses, primary) == primary
    ensures clauses != map[] ==> PrimaryPolicy(order, clauses, primary) in clauses
    ensures clauses == map[] ==> PrimaryPolicy(order, clauses, primary) == if primary in clauses then primary else "POL-UNKNOWN-001"
    ensures primary !in clauses && (exists i :: 0 <= i < |order| && clauses[order[i]].category == TemplateCategory(primary)) ==>
      exists i :: 0 <= i < |order| && order[i] == PrimaryPolicy(order, clauses, primary)
        && clauses[order[i]].category == TemplateCategory(primary)
        && forall t :: 0 <= t < i ==> clauses[order[t]].category != TemplateCategory(primary)
    ensures (primary !in clauses && order != []
        && forall i :: 0 <= i < |order| ==> clauses[order[i]].category != TemplateCategory(primary)) ==>
      PrimaryPolicy(order, clauses, primary) == order[0]
  {
    FirstOfCategoryIsFirst(order, clauses, TemplateCategory(primary));
    if clauses != map[] {
      var k :| k in clauses;
      assert k in order;
    }
  }

  /** The primary-policy step of `select_and_customize_scenario_v2`: picks
      the primary policy with the `for ... else` fallback, then lists it
      before the clauses within two hops of it. */
  method SelectPrimaryPolicy(graph: PolicyGraph, templatePrimary: string)
    returns (primary: string, allRelevant: seq<string>)
    requires graph.Valid()
    ensures primary == PrimaryPolicy(graph.order, graph.clauses, templatePrimary)
    ensures allRelevant == [primary] + graph.GetRelatedPolicies(primary, 2)
  {
    primary := templatePrimary;
    if primary !in graph.clauses {
      var category := TemplateCategory(primary);
      var found := false;
      var i := 0;
      while i < |graph.order| && !found
        invariant 0 <= i <= |graph.order|
        invariant !found ==> primary == templatePrimary
        invariant !found ==>
          FirstOfCategory(graph.order, graph.clauses, category) == FirstOfCategory(graph.order[i..], graph.clauses, category)
        invariant found ==> Some(primary) == FirstOfCategory(graph.order, graph.clauses, category)
      {
        assert graph.order[i..][1..] == graph.order[i + 1..];
        var policyId := graph.order[i];
        if graph.clauses[policyId].category == category {
          primary := policyId;
          found := true;
        }
        i := i + 1;
      }
      if !found {
        assert graph.order[i..] == [];
        primary := if graph.order != [] then graph.order[0] else "POL-UNKNOWN-001";
      }
    }
    allRelevant := [primary] + graph.GetRelatedPolicies(primary, 2);
  }

  /** One entry of a resolution's `actions` list. */
  datatype Action = Action(kind: string, reason: Option<string>, value: Option<real>)

  /** The holiday exception: POL-HOLIDAY-001 applies, the purchase was in
      November or December, and it is at most 45 days old. */
  predicate HolidayExtension(applicable: seq<string>, ctx: Context) {
    && "POL-HOLIDAY-001" in applicable
    && ctx.purchaseMonth in {Some(11), Some(12)}
    && ctx.daysSincePurchase.GetOr(0) <= 45
  }

  /** The return-window rule of `generate_resolution_v4`, applied to one
      action. */
  function RewriteReturn(a: Action, applicable: seq<string>, ctx: Context): Action {
    var days := ctx.daysSincePurchase.GetOr(0);
    if a.kind == "process_return" && days > 30 && !HolidayExtension(applicable, ctx) then
      Action("deny_return",
        Some("Return request outside 30-day window (" + DecimalString(days) + " days) per POL-RETURN-001"),
        Some(0.0))
    else a
  }

  /** A return past thirty days is denied with value 0 and a reason naming
      the day count, unless the holiday extension covers it; every other
      action is left as it is. */
  lemma RewriteReturnCases(a: Action, applicable: seq<string>, ctx: Context)
    ensures a.kind != "process_return" ==> RewriteReturn(a, applicable, ctx) == a
    ensures ctx.daysSincePurchase.GetOr(0) <= 30 ==> RewriteReturn(a, applicable, ctx) == a
    ensures HolidayExtension(applicable, ctx) ==> RewriteReturn(a, applicable, ctx) == a
    ensures RewriteReturn(a, applicable, ctx) != a <==>
      a.kind == "process_return" && ctx.daysSincePurchase.GetOr(0) > 30 && !HolidayExtension(applicable, ctx)
    ensures RewriteReturn(a, applicable, ctx) != a ==>
      && RewriteReturn(a, applicable, ctx).kind == "deny_return"
      && RewriteReturn(a, applicable, ctx).value == Some(0.0)
      && RewriteReturn(a, applicable, ctx).reason.Some?
      && Contains(RewriteReturn(a, applicable, ctx).reason.value, DecimalString(ctx.daysSincePurchase.GetOr(0)))
  {
    var days := ctx.daysSincePurchase.GetOr(0);
    if a.kind == "process_return" && days > 30 && !HolidayExtension(applicable, ctx) {
      var pre := "Return request outside 30-day window (";
      var d := DecimalString(days);
      var s := pre + d + " days) per POL-RETURN-001";
      assert OccursAt(s, d, |pre|) by {
        assert s[|pre|..|pre| + |d|] == d;
      }
      ContainsIffOccurs(s, d);
    }
  }

  /** Enforcing the window twice changes nothing more. */
  lemma RewriteReturnIdempotent(a: Action, applicable: seq<string>, ctx: Context)
    ensures RewriteReturn(RewriteReturn(a, applicable, ctx), applicable, ctx) == RewriteReturn(a, applicable, ctx)
  {
  }

  /** The `resolution` dictionary: the fields the validation step writes. */
  class Resolution {
    var orderId: string
    var orderDate: string
    /** `customer_lookup.customer_id`, when there is a `customer_lookup`. */
    var customerId: Option<string>
    var policyReferences: seq<string>
    var actions: array<Action>

    constructor (actions: array<Action>, customerLookup: bool)
      ensures this.actions == actions && policyReferences == [] && orderId == "" && orderDate == ""
      ensures customerId == if customerLookup then Some("") else None
    {
      this.actions := actions;
      policyReferences := [];
      orderId := "";
      orderDate := "";
      customerId := if customerLookup then Some("") else None;
    }

    /** The validation block of `generate_resolution_v4`: stamps the order
        and customer, restricts the policy references to the applicable
        ones, and applies the return-window rule to every action in place. */
    method Validate(order: Option<(string, string)>, customerIdValue: string, applicable: seq<string>, ctx: Context)
      modifies this, actions
      ensures actions == old(actions)
      ensures orderId == (if order.Some? then order.value.0 else "N/A")
      ensures orderDate == (if order.Some? then order.value.1 else "N/A")
      ensures customerId == if old(customerId).Some? then Some(customerIdValue) else None
      ensures policyReferences == applicable
      ensures forall i :: 0 <= i < actions.Length ==> actions[i] == RewriteReturn(old(actions[i]), applicable, ctx)
    {
      if order.Some? {
        orderId := order.value.0;
        orderDate := order.value.1;
      } else {
        orderId := "N/A";
        orderDate := "N/A";
      }
      if customerId.Some? {
        customerId := Some(customerIdValue);
      }
      policyReferences := applicable;
      RewriteActions(actions, applicable, ctx);
    }
  }

  /** The loop over `resolution["actions"]`: each action is rewritten in
      place by the return-window rule. */
  method RewriteActions(actions: array<Action>, applicable: seq<string>, ctx: Context)
    modifies actions
    ensures forall i :: 0 <= i < actions.Length ==> actions[i] == RewriteReturn(old(actions[i]), applicable, ctx)
  {
    for i := 0 to actions.Length
      invariant forall t :: 0 <= t < i ==> actions[t] == RewriteReturn(old(actions[t]), applicable, ctx)
      invariant forall t :: i <= t < actions.Length ==> actions[t] == old(actions[t])
    {
      actions[i] := RewriteReturn(actions[i], applicable, ctx);
    }
  }

  /** The keys `strip_debug_metadata` removes. */
  const DebugKeys: seq<string> := [
    "_scenario_dimensions", "_scenario_template", "_policy_analysis", "_template_context_requirements"]

  /** `strip_debug_metadata`: a copy of the ticket without the four debug
      keys; every other entry is kept with its value. */
  method StripDebugMetadata<V>(ticket: map<string, V>) returns (clean: map<string, V>)
    ensures forall k :: k in clean <==> k in ticket && k !in DebugKeys
    ensures forall k :: k in clean ==> clean[k] == ticket[k]
  {
    clean := ticket;
    for i := 0 to |DebugKeys|
      invariant forall k :: k in clean <==> k in ticket && k !in DebugKeys[..i]
      invariant forall k :: k in clean ==> clean[k] == ticket[k]
    {
      clean := clean - {DebugKeys[i]};
    }
  }
}
