/** `PolicyGraph` of factory_3.py: the clause dictionary, the adjacency
    lists built from each clause's relation lists, and the four operations
    on them. */
module Engine {
  import opened Wrappers
  import opened Text
  import opened Sequences
  import opened Conditions
  import opened Policy
  import opened Reach
  import opened Rendering

  /** The document entry of one clause: its rule, then its conditions when
      it has any. */
  function ClauseItem(c: Clause): DocItem {
    DocItem(c.id, c.title, c.category,
      ["Rule: " + c.rule] + (if c.conditions != [] then ["Conditions: " + Join(c.conditions, ", ")] else []))
  }

  /** `self.clauses.values()`, in the dictionary's key order. */
  function ClauseItems(store: Store, order: seq<string>): (r: seq<DocItem>)
    requires forall k :: k in order ==> k in store
    ensures |r| == |order| && forall i :: 0 <= i < |order| ==> r[i] == ClauseItem(store[order[i]])
  {
    seq(|order|, i requires 0 <= i < |order| => ClauseItem(store[order[i]]))
  }

  class PolicyGraph {
    /** `self.clauses` */
    var clauses: Store
    /** `self.interaction_graph` */
    var interactionGraph: Graph
    /** The key order of both dictionaries: ids in order of first insertion. */
    var order: seq<string>

    /** Every clause is filed under its own id, has an adjacency list that
        is its six relation lists, and appears once in the key order. */
    ghost predicate Valid()
      reads this
    {
      && clauses.Keys == interactionGraph.Keys
      && (forall k :: k in clauses ==> clauses[k].id == k && interactionGraph[k] == Relations(clauses[k]))
      && NoDup(order)
      && (forall k :: k in order <==> k in clauses)
    }

    /** `PolicyGraph()`: no clauses. */
    constructor ()
      ensures Valid()
      ensures clauses == map[] && interactionGraph == map[] && order == []
    {
      clauses := map[];
      interactionGraph := map[];
      order := [];
    }

    /** `add_clause`: files the clause under its id, replacing any clause
        with the same id in place, and stores its adjacency list. */
    method AddClause(clause: Clause)
      requires Valid()
      modifies this
      ensures Valid()
      ensures clauses == old(clauses)[clause.id := clause]
      ensures interactionGraph == old(interactionGraph)[clause.id := Relations(clause)]
      ensures order == if clause.id in old(clauses) then old(order) else old(order) + [clause.id]
    {
      if clause.id !in clauses {
        order := order + [clause.id];
      }
      clauses := clauses[clause.id := clause];
      interactionGraph := interactionGraph[clause.id := Relations(clause)];
    }

    /** `get_related_policies`: nothing for an unknown id; otherwise the
        breadth-first search over the adjacency lists. */
    method GetRelatedPolicies(clauseId: string, maxHops: int) returns (related: seq<string>)
      ensures clauseId !in clauses ==> related == []
      ensures clauseId in clauses ==>
        && NoDup(related) && clauseId !in related
        && (forall v :: v in related <==> v != clauseId && v in Within(interactionGraph, clauseId, maxHops))
        && (forall i, j, k :: 0 <= i < j < |related| && related[j] in Within(interactionGraph, clauseId, k) ==>
             related[i] in Within(interactionGraph, clauseId, k))
    {
      if clauseId !in clauses {
        return [];
      }
      related := Explore(interactionGraph, clauseId, maxHops);
    }

    /** `_check_conditions`: fails at the first condition that does not
        hold. */
    method CheckClauseConditions(clause: Clause, context: Context) returns (ok: bool)
      ensures ok <==> forall i :: 0 <= i < |clause.conditions| ==> ConditionHolds(clause.conditions[i], context)
      ensures ok == CheckConditions(clause.conditions, context)
    {
      CheckConditionsIffAll(clause.conditions, context);
      for i := 0 to |clause.conditions|
        invariant forall t :: 0 <= t < i ==> ConditionHolds(clause.conditions[t], context)
      {
        if !ConditionHolds(clause.conditions[i], context) {
          return false;
        }
      }
      return true;
    }

    /** `resolve_conflicts`. The result, when there is one, is ordered by
        precedence, consists of candidates whose conditions hold, and holds
        no clause that another clause in it overrides. */
    method ResolveConflicts(clauseIds: seq<string>, context: Context)
      returns (r: Result<seq<string>, LookupError>)
      ensures r == Resolve(clauses, clauseIds, context)
      ensures r.Success? ==>
        && AllKnown(r.value, clauses) && SortedByPrecedence(r.value, clauses)
        && AllPass(clauses, r.value, context) && ConflictFree(clauses, r.value)
    {
      ResolveGuarantees(clauses, clauseIds, context);
      if clauseIds == [] {
        return Success([]);
      }
      var missing := FirstUnknown(clauseIds, clauses);
      if missing.Some? {
        return Failure(KeyError(missing.value));
      }
      var sorted := SortByPrecedence(clauseIds, clauses);
      var active: seq<string> := [];
      for i := 0 to |sorted|
        invariant active == Resolved(clauses, sorted[..i], context)
      {
        assert sorted[..i + 1][..i] == sorted[..i];
        ResolvedIsSound(clauses, sorted[..i], context);
        active := AdmitCandidate(active, sorted[i], context);
      }
      assert sorted[..|sorted|] == sorted;
      return Success(active);
    }

    /** One iteration of the loop of `resolve_conflicts`: evict what the
        candidate overrides, then add it unless an active clause overrides
        it or its conditions fail. */
    method AdmitCandidate(active: seq<string>, clauseId: string, context: Context) returns (active': seq<string>)
      requires clauseId in clauses && AllKnown(active, clauses)
      ensures active' == Admit(clauses, active, clauseId, context)
    {
      var clause := clauses[clauseId];
      active' := PruneOverridden(active, clause.overrides);
      UnoverriddenFilters(active, clause.overrides);
      forall i | 0 <= i < |active'| ensures active'[i] in clauses {
        assert active'[i] in active;
      }
      var isOverridden := AnyOverrides(active', clauseId);
      if !isOverridden {
        var ok := CheckClauseConditions(clause, context);
        if ok {
          active' := active' + [clauseId];
        }
      }
    }

    /** The `any(...)` test of `resolve_conflicts`: whether some active
        clause lists `clauseId` among its `overrides`. */
    method AnyOverrides(active: seq<string>, clauseId: string) returns (found: bool)
      requires AllKnown(active, clauses)
      ensures found == IsOverridden(clauses, active, clauseId)
    {
      found := false;
      var k := 0;
      while k < |active| && !found
        invariant 0 <= k <= |active|
        invariant found <==> exists t :: 0 <= t < k && clauseId in clauses[active[t]].overrides
      {
        found := clauseId in clauses[active[k]].overrides;
        k := k + 1;
      }
    }

    /** `generate_policy_text`: one section per category in order of first
        appearance, each listing its clauses sorted by id with their rule and
        conditions; every clause is listed. */
    method GeneratePolicyText() returns (text: string)
      requires Valid()
      ensures text == Join(DocumentLines(ClauseItems(clauses, order)), "\n")
      ensures forall k :: k in clauses ==>
        ("\n[" + k + "] " + clauses[k].title) in DocumentLines(ClauseItems(clauses, order))
      ensures forall k :: k in clauses ==> ("Rule: " + clauses[k].rule) in DocumentLines(ClauseItems(clauses, order))
      ensures forall k :: k in clauses && clauses[k].conditions != [] ==>
        ("Conditions: " + Join(clauses[k].conditions, ", ")) in DocumentLines(ClauseItems(clauses, order))
    {
      var items := ClauseItems(clauses, order);
      text := RenderDocument(items);
      forall k | k in clauses
        ensures ("\n[" + k + "] " + clauses[k].title) in DocumentLines(items)
        ensures ("Rule: " + clauses[k].rule) in DocumentLines(items)
        ensures clauses[k].conditions != [] ==> ("Conditions: " + Join(clauses[k].conditions, ", ")) in DocumentLines(items)
      {
        var i :| 0 <= i < |order| && order[i] == k;
        assert items[i] == ClauseItem(clauses[k]);
        EveryItemRendered(items, items[i]);
        assert ("Rule: " + clauses[k].rule) in items[i].detail;
        if clauses[k].conditions != [] {
          assert ("Conditions: " + Join(clauses[k].conditions, ", ")) in items[i].detail;
        }
      }
    }
  }

  /** The pruning loop of `resolve_conflicts`: walks a copy of the active
      list and removes from the list each entry the newcomer overrides. */
  method PruneOverridden(active: seq<string>, overrides: seq<string>) returns (pruned: seq<string>)
    ensures pruned == Unoverridden(active, overrides)
  {
    pruned := active;
    for j := 0 to |active|
      invariant pruned == Unoverridden(active[..j], overrides) + active[j..]
    {
      assert active[..j + 1][..j] == active[..j];
      assert active[j..] == [active[j]] + active[j + 1..];
      ghost var kept := Unoverridden(active[..j], overrides);
      if active[j] in overrides {
        UnoverriddenFilters(active[..j], overrides);
        assert pruned == kept + [active[j]] + active[j + 1..];
        RemoveFirstAfter(kept, active[j], active[j + 1..]);
        pruned := RemoveFirst(pruned, active[j]);
      } else {
        assert pruned == (kept + [active[j]]) + active[j + 1..];
      }
    }
    assert active[..|active|] == active;
  }

  /** Two clauses that print alike: same id, title, rule, conditions and
      category. */
  ghost predicate SameText(c: Clause, d: Clause) {
    c.id == d.id && c.title == d.title && c.rule == d.rule && c.conditions == d.conditions && c.category == d.category
  }

  /** The document carries no metadata: precedence and the six relation
      lists never change it. */
  lemma PolicyTextIgnoresMetadata(s1: Store, s2: Store, order: seq<string>)
    requires forall k :: k in order ==> k in s1 && k in s2 && SameText(s1[k], s2[k])
    ensures DocumentLines(ClauseItems(s1, order)) == DocumentLines(ClauseItems(s2, order))
  {
    assert ClauseItems(s1, order) == ClauseItems(s2, order);
  }
}
