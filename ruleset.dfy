/** The rule set of `create_policy_graph` in factory_3.py: nineteen
    clauses over returns, shipping, warranty, price match, orders, the
    holiday extension and customer service, and the outcome of conflict
    resolution on the return clauses. */
module Ruleset {
  import opened Wrappers
  import opened Sequences
  import opened Conditions
  import opened Policy
  import opened Engine

  const Return001: Clause := Clause("POL-RETURN-001", "Return Window",
    "ALL items: 30-day return window from delivery date. No returns accepted after 30 days for any reason.",
    conditions := ["within_return_window", "receipt_required"],
    modifiedBy := ["POL-RETURN-004", "POL-HOLIDAY-001"],
    interactsWith := ["POL-RETURN-002", "POL-RETURN-003"],
    precedence := 3, category := "Return Policy")

  const Return002: Clause := Clause("POL-RETURN-002", "Restocking Fee",
    "Opened items: 15% restocking fee applies unless item is defective",
    conditions := ["within_return_window"],
    overriddenBy := ["POL-RETURN-004"],
    modifiedBy := ["POL-RETURN-003"],
    precedence := 4, category := "Return Policy")

  const Return003: Clause := Clause("POL-RETURN-003", "Unopened Items",
    "Unopened items: Full refund, no restocking fee",
    conditions := ["within_return_window"],
    modifiesIds := ["POL-RETURN-002"],
    precedence := 3, category := "Return Policy")

  const Return004: Clause := Clause("POL-RETURN-004", "Defective Items",
    "Defective items: Full refund, no restocking fee regardless of opened status",
    conditions := ["within_return_window"],
    overrides := ["POL-RETURN-002"],
    modifiesIds := ["POL-RETURN-001"],
    precedence := 1, category := "Return Policy")

  const Ship001: Clause := Clause("POL-SHIP-001", "Shipping Costs",
    "Standard shipping (5-7 days): Free on orders over $50, otherwise $9.99",
    precedence := 5, category := "Shipping Policy")

  const Ship002: Clause := Clause("POL-SHIP-002", "Package Not Received",
    "Package not received: Replacement sent after carrier investigation (3 business days)",
    requiresIds := ["POL-SHIP-003"],
    precedence := 4, category := "Shipping Policy")

  const Ship003: Clause := Clause("POL-SHIP-003", "Investigation Required",
    "Investigation period: 3 business days required before replacement for lost packages",
    precedence := 3, category := "Shipping Policy")

  const Ship004: Clause := Clause("POL-SHIP-004", "Wrong Item Shipped",
    "Wrong item shipped: Free return label provided, correct item sent immediately",
    precedence := 2, category := "Shipping Policy")

  const Ship005: Clause := Clause("POL-SHIP-005", "Damage Claims High Value",
    "Damaged items over $500: Photo required before replacement approved",
    conditions := ["item_over_500"],
    modifiesIds := ["POL-SHIP-006"],
    precedence := 2, category := "Shipping Policy")

  const Ship006: Clause := Clause("POL-SHIP-006", "Damage Claims Standard",
    "Damaged items under $500: Immediate replacement authorized",
    modifiedBy := ["POL-SHIP-005"],
    precedence := 4, category := "Shipping Policy")

  const Warranty001: Clause := Clause("POL-WARRANTY-001", "Warranty Period",
    "Manufacturer warranty: 1 year from purchase date. No warranty service after 1 year",
    conditions := ["warranty_period"],
    interactsWith := ["POL-WARRANTY-002", "POL-WARRANTY-003"],
    precedence := 3, category := "Warranty Policy")

  const Warranty002: Clause := Clause("POL-WARRANTY-002", "Manufacturing Defects",
    "Defects covered: Manufacturing defects only",
    conditions := ["warranty_period"],
    precedence := 3, category := "Warranty Policy")

  const Warranty003: Clause := Clause("POL-WARRANTY-003", "Warranty Exclusions",
    "Not covered: Physical damage, water damage, normal wear",
    conditions := ["warranty_period"],
    overrides := ["POL-WARRANTY-002"],
    precedence := 2, category := "Warranty Policy")

  const Price001: Clause := Clause("POL-PRICE-001", "Price Match Window",
    "Authorized retailers only: Price matched within 14 days of purchase. No price match after 14 days",
    conditions := ["within_price_match_window"],
    interactsWith := ["POL-PRICE-002"],
    precedence := 3, category := "Price Match Policy")

  const Price002: Clause := Clause("POL-PRICE-002", "Price Match Exclusions",
    "Exclusions: Marketplace sellers, clearance items, bundles",
    modifiesIds := ["POL-PRICE-001"],
    precedence := 2, category := "Price Match Policy")

  const Order001: Clause := Clause("POL-ORDER-001", "Order Modification Window",
    "Changes allowed: Within 2 hours of order placement. After 2 hours: Order cannot be modified",
    conditions := ["order_not_shipped"],
    precedence := 3, category := "Order Policy")

  const Holiday001: Clause := Clause("POL-HOLIDAY-001", "Holiday Extension",
    "Holiday purchases: Return window extended to 45 days for purchases made November 1 - December 31",
    modifiesIds := ["POL-RETURN-001"],
    precedence := 2, category := "Special Conditions")

  const Comm001: Clause := Clause("POL-COMM-001", "Response Time",
    "Response time: Within 24 hours",
    precedence := 5, category := "Customer Service Standards")

  const Comm002: Clause := Clause("POL-COMM-002", "Escalation",
    "Escalation: Available for orders over $1000",
    conditions := ["item_over_500"],
    precedence := 4, category := "Customer Service Standards")

  /** The clauses in the order `create_policy_graph` adds them. */
  const Fixture: seq<Clause> := [
    Return001, Return002, Return003, Return004,
    Ship001, Ship002, Ship003, Ship004, Ship005, Ship006,
    Warranty001, Warranty002, Warranty003,
    Price001, Price002, Order001, Holiday001, Comm001, Comm002]

  /** The dictionary that adding `cs` one after the other builds. */
  function StoreOf(cs: seq<Clause>): Store
    decreases |cs|
  {
    if cs == [] then map[] else StoreOf(cs[..|cs| - 1])[cs[|cs| - 1].id := cs[|cs| - 1]]
  }

  /** The key order that adding `cs` one after the other builds. */
  function OrderOf(cs: seq<Clause>): seq<string>
    decreases |cs|
  {
    if cs == [] then []
    else
      var p := OrderOf(cs[..|cs| - 1]);
      var k := cs[|cs| - 1].id;
      if k in StoreOf(cs[..|cs| - 1]) then p else p + [k]
  }

  function Ids(cs: seq<Clause>): (r: seq<string>)
    ensures |r| == |cs| && forall i :: 0 <= i < |cs| ==> r[i] == cs[i].id
  {
    seq(|cs|, i requires 0 <= i < |cs| => cs[i].id)
  }

  /** With distinct ids, each clause is filed under its own id. */
  lemma {:induction false} StoreOfLookup(cs: seq<Clause>, i: int)
    requires NoDup(Ids(cs)) && 0 <= i < |cs|
    ensures cs[i].id in StoreOf(cs) && StoreOf(cs)[cs[i].id] == cs[i]
    decreases |cs|
  {
    var n := |cs| - 1;
    if i < n {
      assert Ids(cs[..n]) == Ids(cs)[..n];
      StoreOfLookup(cs[..n], i);
      assert cs[..n][i] == cs[i];
      assert Ids(cs)[i] != Ids(cs)[n];
    }
  }

  /** `create_policy_graph`: a new graph to which the clauses are added in
      order. */
  method CreatePolicyGraph() returns (graph: PolicyGraph)
    ensures fresh(graph) && graph.Valid()
    ensures graph.clauses == StoreOf(Fixture) && graph.order == OrderOf(Fixture)
  {
    graph := new PolicyGraph();
    AddClauses(graph, Fixture);
  }

  /** The loop of `create_policy_graph`: `graph.add_clause(clause)` for
      each clause in turn, starting from an empty graph. */
  method AddClauses(graph: PolicyGraph, cs: seq<Clause>)
    requires graph.Valid() && graph.clauses == map[] && graph.order == []
    modifies graph
    ensures graph.Valid()
    ensures graph.clauses == StoreOf(cs) && graph.order == OrderOf(cs)
  {
    for i := 0 to |cs|
      invariant graph.Valid()
      invariant graph.clauses == StoreOf(cs[..i]) && graph.order == OrderOf(cs[..i])
    {
      assert cs[..i + 1][..i] == cs[..i];
      graph.AddClause(cs[i]);
    }
    assert cs[..|cs|] == cs;
  }

  /** A number read off an id of the rule set: the family letter after
      `POL-` and the final digit. */
  function Code(id: string): int {
    if |id| < 5 then 0
    else
      var family := match id[4]
        case 'R' => 0 case 'S' => 1 case 'W' => 2 case 'P' => 3
        case 'O' => 4 case 'H' => 5 case _ => 6;
      family * 10 + (id[|id| - 1] as int - '0' as int)
  }

  lemma {:induction false} CodesIncrease(s: seq<string>, i: int, j: int)
    requires forall k :: 0 <= k < |s| - 1 ==> Code(s[k]) < Code(s[k + 1])
    requires 0 <= i < j < |s|
    ensures Code(s[i]) < Code(s[j])
    decreases j - i
  {
    if i + 1 < j {
      CodesIncrease(s, i + 1, j);
    }
  }

  /** The ids of the rule set, in the order they are added. */
  const FixtureIds: seq<string> := [
    "POL-RETURN-001", "POL-RETURN-002", "POL-RETURN-003", "POL-RETURN-004",
    "POL-SHIP-001", "POL-SHIP-002", "POL-SHIP-003", "POL-SHIP-004", "POL-SHIP-005", "POL-SHIP-006",
    "POL-WARRANTY-001", "POL-WARRANTY-002", "POL-WARRANTY-003",
    "POL-PRICE-001", "POL-PRICE-002", "POL-ORDER-001", "POL-HOLIDAY-001", "POL-COMM-001", "POL-COMM-002"]

  lemma FixtureIdsListed()
    ensures Ids(Fixture) == FixtureIds
  {
  }

  lemma FixtureIdsListDistinct()
    ensures NoDup(FixtureIds)
  {
    assert forall k :: 0 <= k < |FixtureIds| - 1 ==> Code(FixtureIds[k]) < Code(FixtureIds[k + 1]);
    forall i, j | 0 <= i < j < |FixtureIds| ensures FixtureIds[i] != FixtureIds[j] {
      CodesIncrease(FixtureIds, i, j);
    }
  }

  /** The ids of the rule set are distinct. */
  lemma FixtureIdsDistinct()
    ensures NoDup(Ids(Fixture))
  {
    FixtureIdsListed();
    FixtureIdsListDistinct();
  }

  /** Every precedence of the rule set lies in 1..5, and every condition a
      clause names is in the vocabulary of `_check_conditions`. */
  lemma FixtureWellFormed()
    ensures forall i :: 0 <= i < |Fixture| ==> 1 <= Fixture[i].precedence <= 5
    ensures forall i, j :: 0 <= i < |Fixture| && 0 <= j < |Fixture[i].conditions| ==>
      Fixture[i].conditions[j] in KnownConditions
  {
  }

  /** A store that files the three return clauses of the rule set under
      their ids (whatever else it holds). */
  ghost predicate HasReturnClauses(store: Store) {
    && "POL-RETURN-001" in store && store["POL-RETURN-001"] == Return001
    && "POL-RETURN-002" in store && store["POL-RETURN-002"] == Return002
    && "POL-RETURN-004" in store && store["POL-RETURN-004"] == Return004
  }

  /** What conflict resolution reads of the three return clauses: their
      precedences, conditions and `overrides` lists. */
  ghost predicate ReturnAuthority(store: Store) {
    && "POL-RETURN-001" in store && "POL-RETURN-002" in store && "POL-RETURN-004" in store
    && store["POL-RETURN-001"].precedence == 3
    && store["POL-RETURN-002"].precedence == 4
    && store["POL-RETURN-004"].precedence == 1
    && store["POL-RETURN-001"].conditions == ["within_return_window", "receipt_required"]
    && store["POL-RETURN-002"].conditions == ["within_return_window"]
    && store["POL-RETURN-004"].conditions == ["within_return_window"]
    && store["POL-RETURN-001"].overrides == []
    && store["POL-RETURN-002"].overrides == []
    && store["POL-RETURN-004"].overrides == ["POL-RETURN-002"]
  }

  lemma ReturnClausesAuthority(store: Store)
    requires HasReturnClauses(store)
    ensures ReturnAuthority(store)
  {
  }

  /** What the three return clauses demand: all three the return window,
      the return window also the receipt. */
  lemma ReturnConditions(store: Store, ctx: Context)
    requires ReturnAuthority(store)
    ensures CheckConditions(store["POL-RETURN-004"].conditions, ctx) == (ctx.daysSincePurchase.GetOr(0) <= 30)
    ensures CheckConditions(store["POL-RETURN-002"].conditions, ctx) == (ctx.daysSincePurchase.GetOr(0) <= 30)
    ensures CheckConditions(store["POL-RETURN-001"].conditions, ctx)
      == (ctx.daysSincePurchase.GetOr(0) <= 30 && ctx.hasReceipt.GetOr(true))
  {
    var w, rr := "within_return_window", "receipt_required";
    assert [w][1..] == [] && [rr][1..] == [];
    assert [w, rr][1..] == [rr];
  }

  /** Inside the return window (`within_return_window` holds) and with a
      receipt, the defective-items clause (precedence 1) comes first and
      suppresses the restocking fee it overrides; the return window
      (precedence 3) follows. */
  lemma ReturnsInsideWindow(store: Store, ctx: Context)
    requires ReturnAuthority(store)
    requires ctx.daysSincePurchase.GetOr(0) <= 30 && ctx.hasReceipt.GetOr(true)
    ensures Resolve(store, ["POL-RETURN-001", "POL-RETURN-002", "POL-RETURN-004"], ctx)
      == Success(["POL-RETURN-004", "POL-RETURN-001"])
  {
    ReturnConditions(store, ctx);
    OutrankedCandidateDropped(store, "POL-RETURN-001", "POL-RETURN-002", "POL-RETURN-004", ctx);
    assert ["POL-RETURN-004"] + ["POL-RETURN-001"] == ["POL-RETURN-004", "POL-RETURN-001"];
  }

  /** Inside the window but without the receipt, `receipt_required` fails
      and only the defective-items clause survives. */
  lemma ReturnsWithoutReceipt(store: Store, ctx: Context)
    requires ReturnAuthority(store)
    requires ctx.daysSincePurchase.GetOr(0) <= 30 && !ctx.hasReceipt.GetOr(true)
    ensures Resolve(store, ["POL-RETURN-001", "POL-RETURN-002", "POL-RETURN-004"], ctx) == Success(["POL-RETURN-004"])
  {
    ReturnConditions(store, ctx);
    OutrankedCandidateDropped(store, "POL-RETURN-001", "POL-RETURN-002", "POL-RETURN-004", ctx);
    assert ["POL-RETURN-004"] + [] == ["POL-RETURN-004"];
  }

  /** Past the thirty-day window every return clause fails
      `within_return_window`, so nothing survives. */
  lemma ReturnsOutsideWindow(store: Store, ctx: Context)
    requires ReturnAuthority(store)
    requires ctx.daysSincePurchase.GetOr(0) > 30
    ensures Resolve(store, ["POL-RETURN-001", "POL-RETURN-002", "POL-RETURN-004"], ctx) == Success([])
  {
    ReturnConditions(store, ctx);
    var ids := ["POL-RETURN-001", "POL-RETURN-002", "POL-RETURN-004"];
    ResolveNoneQualify(store, ids, ctx);
  }

  /** The dictionary `create_policy_graph` builds files the return clauses
      under their ids. */
  lemma FixtureHasReturnClauses()
    ensures HasReturnClauses(StoreOf(Fixture))
  {
    FixtureIdsDistinct();
    StoreOfLookup(Fixture, 0);
    StoreOfLookup(Fixture, 1);
    StoreOfLookup(Fixture, 3);
  }

  /** Conflict resolution over the graph `create_policy_graph` builds, inside
      the return window with a receipt: the return candidates resolve to the
      defective-items clause and the return window; the restocking fee is
      overridden. */
  lemma FixtureReturnsInsideWindow(store: Store, ctx: Context)
    requires store == StoreOf(Fixture)
    requires ctx.daysSincePurchase.GetOr(0) <= 30 && ctx.hasReceipt.GetOr(true)
    ensures Resolve(store, ["POL-RETURN-001", "POL-RETURN-002", "POL-RETURN-004"], ctx)
      == Success(["POL-RETURN-004", "POL-RETURN-001"])
  {
    FixtureReturnAuthority();
    ReturnsInsideWindow(store, ctx);
  }

  /** The same candidates past the thirty-day window: none survives. */
  lemma FixtureReturnsOutsideWindow(store: Store, ctx: Context)
    requires store == StoreOf(Fixture)
    requires ctx.daysSincePurchase.GetOr(0) > 30
    ensures Resolve(store, ["POL-RETURN-001", "POL-RETURN-002", "POL-RETURN-004"], ctx) == Success([])
  {
    FixtureReturnAuthority();
    ReturnsOutsideWindow(store, ctx);
  }

  lemma FixtureReturnAuthority()
    ensures ReturnAuthority(StoreOf(Fixture))
  {
    FixtureHasReturnClauses();
    ReturnClausesAuthority(StoreOf(Fixture));
  }

  /** Within the warranty period the exclusions clause (precedence 2), which
      overrides the manufacturing-defects clause (precedence 3), is the only
      clause that survives, in either candidate order. */
  lemma FixtureWarrantyExclusionsWin(store: Store, ctx: Context)
    requires store == StoreOf(Fixture)
    requires ctx.monthsSincePurchase.GetOr(0.0) <= 12.0
    ensures Resolve(store, ["POL-WARRANTY-002", "POL-WARRANTY-003"], ctx) == Success(["POL-WARRANTY-003"])
    ensures Resolve(store, ["POL-WARRANTY-003", "POL-WARRANTY-002"], ctx) == Success(["POL-WARRANTY-003"])
  {
    FixtureIdsDistinct();
    StoreOfLookup(Fixture, 11);
    StoreOfLookup(Fixture, 12);
    assert ["warranty_period"][1..] == [];
    PrecedenceAuthority(store, "POL-WARRANTY-003", "POL-WARRANTY-002", ctx);
  }
}
