/** The earlier `PolicyGraph` of factory_policy_before_graph.py: clauses
    whose interactions are discovered one at a time and recorded on both
    endpoints, an undirected graph of those interactions, and the search for
    the clauses within a number of hops over it. */
module Discovered {
  import opened Text
  import opened Sequences
  import opened Rendering

  /** `PolicyClause`: the interaction fields start empty and are filled in
      as interactions are recorded. */
  datatype Clause = Clause(
    id: string,
    title: string,
    rule: string,
    category: string := "",
    interactsWith: seq<string> := [],
    interactionReasons: map<string, string> := map[])

  /** `PolicyInteraction` */
  datatype Interaction = Interaction(
    policyA: string,
    policyB: string,
    interactionType: string,
    reasoning: string,
    scenarios: seq<string> := [],
    confidence: real := 1.0)

  type Store = map<string, Clause>

  /** The edges of the undirected graph, each as it was added. */
  type Edges = set<(string, string)>

  const NoInteraction: string := "No direct interaction found"

  /** The graph's invariant: every clause is filed under its own id and is
      a node, the key order lists each clause once, the node list has no
      repeats, and every edge joins two nodes. */
  ghost predicate Consistent(clauses: Store, order: seq<string>, nodes: seq<string>, edges: Edges) {
    && (forall k :: k in clauses ==> clauses[k].id == k && k in nodes)
    && NoDup(order) && (forall k :: k in order <==> k in clauses)
    && NoDup(nodes)
    && (forall e :: e in edges ==> e.0 in nodes && e.1 in nodes)
  }

  /** `get_interaction_reasoning`: the reason `a` keeps for `b`, if any. */
  function Reasoning(clauses: Store, a: string, b: string): string {
    if a in clauses && b in clauses[a].interactionReasons then clauses[a].interactionReasons[b]
    else NoInteraction
  }

  /** One side of `add_interaction`: clause `x`, if it exists, lists `y` as
      a partner and keeps the reason. */
  function NoteSide(clauses: Store, x: string, y: string, reasoning: string): Store {
    if x in clauses then
      clauses[x := clauses[x].(
        interactsWith := clauses[x].interactsWith + [y],
        interactionReasons := clauses[x].interactionReasons[y := reasoning])]
    else clauses
  }

  /** The clause updates of `add_interaction`: `policy_a`'s side first, then
      `policy_b`'s. */
  function RecordInteraction(clauses: Store, i: Interaction): Store {
    NoteSide(NoteSide(clauses, i.policyA, i.policyB, i.reasoning), i.policyB, i.policyA, i.reasoning)
  }

  /** Recording keeps the set of clauses and every clause's id, and appends
      to the partner lists of exactly the endpoints that are clauses. */
  lemma RecordInteractionUpdates(clauses: Store, i: Interaction)
    ensures RecordInteraction(clauses, i).Keys == clauses.Keys
    ensures forall x :: x in clauses ==>
      && RecordInteraction(clauses, i)[x].id == clauses[x].id
      && RecordInteraction(clauses, i)[x].interactsWith == clauses[x].interactsWith
           + (if x == i.policyA then [i.policyB] else [])
           + (if x == i.policyB then [i.policyA] else [])
  {
    var a, b := i.policyA, i.policyB;
    forall x | x in clauses
      ensures RecordInteraction(clauses, i)[x].interactsWith == clauses[x].interactsWith
        + (if x == a then [b] else []) + (if x == b then [a] else [])
    {
      if x != a || x != b {
        assert clauses[x].interactsWith + [] == clauses[x].interactsWith;
      }
    }
  }

  /** `add_interaction` keeps the graph's invariant. */
  lemma InteractionKeepsConsistent(clauses: Store, order: seq<string>, nodes: seq<string>, edges: Edges, i: Interaction)
    requires Consistent(clauses, order, nodes, edges)
    ensures Consistent(RecordInteraction(clauses, i), order, AddNode(AddNode(nodes, i.policyA), i.policyB),
      edges + {(i.policyA, i.policyB)})
  {
    RecordInteractionUpdates(clauses, i);
  }

  /** After an interaction between two clauses is recorded, each names the
      other with its reason, whichever way round it is asked; the latest
      record wins. An endpoint that is not a clause keeps no reason. */
  lemma {:induction false} RecordedReasonBothWays(clauses: Store, i: Interaction)
    ensures i.policyA in clauses ==> Reasoning(RecordInteraction(clauses, i), i.policyA, i.policyB) == i.reasoning
    ensures i.policyB in clauses ==> Reasoning(RecordInteraction(clauses, i), i.policyB, i.policyA) == i.reasoning
    ensures i.policyA !in clauses ==> Reasoning(RecordInteraction(clauses, i), i.policyA, i.policyB) == NoInteraction
    ensures i.policyB !in clauses ==> Reasoning(RecordInteraction(clauses, i), i.policyB, i.policyA) == NoInteraction
  {
    var a, b := i.policyA, i.policyB;
    var mid := NoteSide(clauses, a, b, i.reasoning);
    if a in clauses {
      assert b in mid[a].interactionReasons && mid[a].interactionReasons[b] == i.reasoning;
    }
  }

  /** Recording an interaction changes no reason but the two it records. */
  lemma RecordKeepsOtherReasons(clauses: Store, i: Interaction, x: string, y: string)
    requires (x, y) != (i.policyA, i.policyB) && (x, y) != (i.policyB, i.policyA)
    ensures Reasoning(RecordInteraction(clauses, i), x, y) == Reasoning(clauses, x, y)
  {
  }

  /** Between clauses, a reason reads the same in both directions. */
  ghost predicate ReasonsSymmetric(clauses: Store) {
    forall x, y :: x in clauses && y in clauses ==> Reasoning(clauses, x, y) == Reasoning(clauses, y, x)
  }

  /** Recording keeps reasons symmetric between clauses. */
  lemma RecordKeepsSymmetry(clauses: Store, i: Interaction)
    requires ReasonsSymmetric(clauses)
    ensures ReasonsSymmetric(RecordInteraction(clauses, i))
  {
    var r := RecordInteraction(clauses, i);
    RecordInteractionUpdates(clauses, i);
    RecordedReasonBothWays(clauses, i);
    forall x, y | x in r && y in r ensures Reasoning(r, x, y) == Reasoning(r, y, x) {
      if (x, y) == (i.policyA, i.policyB) || (x, y) == (i.policyB, i.policyA) {
      } else {
        RecordKeepsOtherReasons(clauses, i, x, y);
        RecordKeepsOtherReasons(clauses, i, y, x);
      }
    }
  }

  /** `nx_graph.add_node`: a node already present keeps its place. */
  function AddNode(nodes: seq<string>, n: string): (r: seq<string>)
    ensures forall v :: v in r <==> v in nodes || v == n
    ensures NoDup(nodes) ==> NoDup(r)
  {
    if n in nodes then nodes else nodes + [n]
  }

  predicate Adjacent(edges: Edges, u: string, v: string) {
    (u, v) in edges || (v, u) in edges
  }

  /** The nodes one edge away from `s`, either way along the edge. */
  function Neighbours(edges: Edges, s: set<string>): (r: set<string>)
    ensures forall v :: v in r <==> exists u :: u in s && Adjacent(edges, u, v)
  {
    var fwd := set e | e in edges && e.0 in s :: e.1;
    var bwd := set e | e in edges && e.1 in s :: e.0;
    assert forall u, v :: u in s && (u, v) in edges ==> v in fwd;
    assert forall u, v :: u in s && (v, u) in edges ==> v in bwd;
    fwd + bwd
  }

  /** The nodes whose undirected distance from `start` is at most `k`. */
  function UWithin(edges: Edges, start: string, k: int): set<string>
    decreases k
  {
    if k < 0 then {}
    else if k == 0 then {start}
    else UWithin(edges, start, k - 1) + Neighbours(edges, UWithin(edges, start, k - 1))
  }

  /** A path in the undirected graph, as its list of nodes. */
  ghost predicate Walk(edges: Edges, p: seq<string>) {
    |p| >= 1 && forall i :: 0 <= i < |p| - 1 ==> Adjacent(edges, p[i], p[i + 1])
  }

  /** `shortest_path_length(s, t) <= k`: some path from `s` to `t` has at most
      `k` edges. */
  ghost predicate Linked(edges: Edges, s: string, t: string, k: int) {
    exists p :: Walk(edges, p) && p[0] == s && p[|p| - 1] == t && |p| <= k + 1
  }

  lemma {:induction false} UWithinMonotonic(edges: Edges, s: string, j: int, k: int)
    requires j <= k
    ensures UWithin(edges, s, j) <= UWithin(edges, s, k)
    decreases k - j
  {
    if j < k {
      UWithinMonotonic(edges, s, j, k - 1);
      if k - 1 == -1 {
        assert UWithin(edges, s, j) == {};
      }
    }
  }

  lemma {:induction false} WithinHasWalk(edges: Edges, s: string, t: string, k: int)
    requires t in UWithin(edges, s, k)
    ensures Linked(edges, s, t, k)
    decreases k
  {
    if k == 0 {
      assert Walk(edges, [s]);
    } else if t in UWithin(edges, s, k - 1) {
      WithinHasWalk(edges, s, t, k - 1);
      var p :| Walk(edges, p) && p[0] == s && p[|p| - 1] == t && |p| <= k;
      assert Walk(edges, p);
    } else {
      var u :| u in UWithin(edges, s, k - 1) && Adjacent(edges, u, t);
      WithinHasWalk(edges, s, u, k - 1);
      var p :| Walk(edges, p) && p[0] == s && p[|p| - 1] == u && |p| <= k;
      WalkExtend(edges, p, t);
      var q := p + [t];
      assert q[0] == s && q[|q| - 1] == t && |q| <= k + 1;
    }
  }

  /** A walk followed by an edge out of its last node is a walk. */
  lemma WalkExtend(edges: Edges, p: seq<string>, t: string)
    requires Walk(edges, p) && Adjacent(edges, p[|p| - 1], t)
    ensures Walk(edges, p + [t])
  {
    var q := p + [t];
    forall i | 0 <= i < |q| - 1 ensures Adjacent(edges, q[i], q[i + 1]) {
      if i < |p| - 1 {
        assert q[i] == p[i] && q[i + 1] == p[i + 1];
      }
    }
  }

  lemma {:induction false} WalkWithin(edges: Edges, p: seq<string>, k: int)
    requires Walk(edges, p) && |p| <= k + 1
    ensures p[|p| - 1] in UWithin(edges, p[0], k)
    decreases |p|
  {
    if |p| == 1 {
      UWithinMonotonic(edges, p[0], 0, k);
    } else {
      var n := |p| - 1;
      var q := p[..n];
      assert Walk(edges, q) by {
        forall i | 0 <= i < |q| - 1 ensures Adjacent(edges, q[i], q[i + 1]) {
          assert q[i] == p[i] && q[i + 1] == p[i + 1];
        }
      }
      WalkWithin(edges, q, k - 1);
      assert Adjacent(edges, p[n - 1], p[n]);
      assert p[n] in Neighbours(edges, UWithin(edges, p[0], k - 1));
    }
  }

  /** The search set is exactly the nodes a path of at most `k` edges
      reaches: `UWithin` is shortest-path distance `<= k`. */
  lemma WithinIffLinked(edges: Edges, s: string, t: string, k: int)
    ensures t in UWithin(edges, s, k) <==> Linked(edges, s, t, k)
  {
    if t in UWithin(edges, s, k) {
      WithinHasWalk(edges, s, t, k);
    }
    if Linked(edges, s, t, k) {
      var p :| Walk(edges, p) && p[0] == s && p[|p| - 1] == t && |p| <= k + 1;
      WalkWithin(edges, p, k);
    }
  }

  function Reverse(p: seq<string>): (r: seq<string>)
    ensures |r| == |p| && forall i :: 0 <= i < |p| ==> r[i] == p[|p| - 1 - i]
  {
    seq(|p|, i requires 0 <= i < |p| => p[|p| - 1 - i])
  }

  /** Distance in an undirected graph is symmetric. */
  lemma WithinSymmetric(edges: Edges, s: string, t: string, k: int)
    requires t in UWithin(edges, s, k)
    ensures s in UWithin(edges, t, k)
  {
    WithinIffLinked(edges, s, t, k);
    var p :| Walk(edges, p) && p[0] == s && p[|p| - 1] == t && |p| <= k + 1;
    var r := Reverse(p);
    forall i | 0 <= i < |r| - 1 ensures Adjacent(edges, r[i], r[i + 1]) {
      var j := |p| - 2 - i;
      assert Adjacent(edges, p[j], p[j + 1]);
    }
    assert Walk(edges, r);
    WithinIffLinked(edges, t, s, k);
  }

  /** The loop of `get_related_policies`: the nodes, in insertion order,
      other than `id` and within `h` hops of it. */
  function RelatedAmong(nodes: seq<string>, edges: Edges, id: string, h: int): seq<string>
    decreases |nodes|
  {
    if nodes == [] then []
    else
      var p := RelatedAmong(nodes[..|nodes| - 1], edges, id, h);
      var n := nodes[|nodes| - 1];
      if n != id && n in UWithin(edges, id, h) then p + [n] else p
  }

  lemma {:induction false} RelatedAmongFilters(nodes: seq<string>, edges: Edges, id: string, h: int)
    ensures IsSubseq(RelatedAmong(nodes, edges, id, h), nodes)
    ensures forall v :: v in RelatedAmong(nodes, edges, id, h) <==>
      v in nodes && v != id && v in UWithin(edges, id, h)
    ensures NoDup(nodes) ==> NoDup(RelatedAmong(nodes, edges, id, h))
    decreases |nodes|
  {
    if nodes != [] {
      var m := |nodes| - 1;
      var p := RelatedAmong(nodes[..m], edges, id, h);
      RelatedAmongFilters(nodes[..m], edges, id, h);
      assert nodes == nodes[..m] + [nodes[m]];
      if nodes[m] != id && nodes[m] in UWithin(edges, id, h) {
        SubseqAppend(p, nodes[..m], nodes[m]);
        if NoDup(nodes) {
          assert nodes[m] !in nodes[..m];
          assert NoDup(nodes[..m]);
        }
      } else {
        SubseqExtendRight(p, nodes[..m], [nodes[m]]);
        if NoDup(nodes) {
          assert NoDup(nodes[..m]);
        }
      }
    }
  }

  /** A larger hop bound never loses a related clause. */
  lemma RelatedMonotonic(nodes: seq<string>, edges: Edges, id: string, h: int, h': int)
    requires h <= h'
    ensures forall v :: v in RelatedAmong(nodes, edges, id, h) ==> v in RelatedAmong(nodes, edges, id, h')
  {
    RelatedAmongFilters(nodes, edges, id, h);
    RelatedAmongFilters(nodes, edges, id, h');
    UWithinMonotonic(edges, id, h, h');
  }

  /** Relatedness is symmetric between nodes. */
  lemma RelatedSymmetric(nodes: seq<string>, edges: Edges, u: string, v: string, h: int)
    requires u in nodes && v in RelatedAmong(nodes, edges, u, h)
    ensures u in RelatedAmong(nodes, edges, v, h)
  {
    RelatedAmongFilters(nodes, edges, u, h);
    RelatedAmongFilters(nodes, edges, v, h);
    WithinSymmetric(edges, u, v, h);
  }

  /** The document entry of one clause: the bare rule line. */
  function ClauseItem(c: Clause): DocItem {
    DocItem(c.id, c.title, c.category, [c.rule])
  }

  function ClauseItems(clauses: Store, order: seq<string>): (r: seq<DocItem>)
    requires forall k :: k in order ==> k in clauses
    ensures |r| == |order| && forall i :: 0 <= i < |order| ==> r[i] == ClauseItem(clauses[order[i]])
  {
    seq(|order|, i requires 0 <= i < |order| => ClauseItem(clauses[order[i]]))
  }

  class PolicyGraph {
    /** `self.clauses` */
    var clauses: Store
    /** The key order of `self.clauses`. */
    var order: seq<string>
    /** `self.interactions` */
    var interactions: seq<Interaction>
    /** The nodes of `self.nx_graph`, in insertion order. */
    var nodes: seq<string>
    /** The edges of `self.nx_graph`. */
    var edges: Edges

    /** Every clause is filed under its id and is a node; every edge
        endpoint is a node; no node or key is listed twice. */
    ghost predicate Valid()
      reads this
    {
      Consistent(clauses, order, nodes, edges)
    }

    constructor ()
      ensures Valid()
      ensures clauses == map[] && order == [] && interactions == [] && nodes == [] && edges == {}
    {
      clauses := map[];
      order := [];
      interactions := [];
      nodes := [];
      edges := {};
    }

    /** `add_clause`: files the clause under its id and makes the id a
        node. */
    method AddClause(clause: Clause)
      requires Valid()
      modifies this
      ensures Valid()
      ensures clauses == old(clauses)[clause.id := clause]
      ensures order == if clause.id in old(clauses) then old(order) else old(order) + [clause.id]
      ensures nodes == AddNode(old(nodes), clause.id)
      ensures edges == old(edges) && interactions == old(interactions)
    {
      if clause.id !in clauses {
        order := order + [clause.id];
      }
      clauses := clauses[clause.id := clause];
      nodes := AddNode(nodes, clause.id);
    }

    /** `add_interaction`: logs the interaction, records it on each endpoint
        that is a clause, and adds the undirected edge, making both
        endpoints nodes. */
    method AddInteraction(interaction: Interaction)
      requires Valid()
      modifies this
      ensures Valid()
      ensures interactions == old(interactions) + [interaction]
      ensures clauses == RecordInteraction(old(clauses), interaction)
      ensures order == old(order)
      ensures edges == old(edges) + {(interaction.policyA, interaction.policyB)}
      ensures nodes == AddNode(AddNode(old(nodes), interaction.policyA), interaction.policyB)
    {
      var a, b := interaction.policyA, interaction.policyB;
      var updated := clauses;
      if a in updated {
        var c := updated[a];
        updated := updated[a := c.(interactsWith := c.interactsWith + [b],
                                   interactionReasons := c.interactionReasons[b := interaction.reasoning])];
      }
      assert updated == NoteSide(clauses, a, b, interaction.reasoning);
      if b in updated {
        var c := updated[b];
        updated := updated[b := c.(interactsWith := c.interactsWith + [a],
                                   interactionReasons := c.interactionReasons[a := interaction.reasoning])];
      }
      assert updated == RecordInteraction(clauses, interaction);
      InteractionKeepsConsistent(clauses, order, nodes, edges, interaction);
      var grown := AddNode(AddNode(nodes, a), b);
      interactions, clauses, edges, nodes := interactions + [interaction], updated, edges + {(a, b)}, grown;
    }

    /** `get_interaction_reasoning` on the current clauses: after
        `add_interaction` between two clauses, both directions give its
        reason. */
    function GetInteractionReasoning(policyA: string, policyB: string): (r: string)
      reads this
      ensures policyA !in clauses ==> r == NoInteraction
      ensures policyA in clauses && policyB !in clauses[policyA].interactionReasons ==> r == NoInteraction
      ensures policyA in clauses && policyB in clauses[policyA].interactionReasons ==>
        r == clauses[policyA].interactionReasons[policyB]
    {
      Reasoning(clauses, policyA, policyB)
    }

    /** `get_related_policies`: nothing for an id that is not a node;
        otherwise the other nodes, in insertion order, that some path of at
        most `maxHops` edges reaches. */
    function GetRelatedPolicies(clauseId: string, maxHops: int): (r: seq<string>)
      requires Valid()
      reads this
      ensures clauseId !in nodes ==> r == []
      ensures IsSubseq(r, nodes) && NoDup(r) && clauseId !in r
      ensures forall v :: v in r <==> clauseId in nodes && v in nodes && v != clauseId && Linked(edges, clauseId, v, maxHops)
    {
      RelatedAmongFilters(nodes, edges, clauseId, maxHops);
      assert forall v :: v in UWithin(edges, clauseId, maxHops) <==> Linked(edges, clauseId, v, maxHops) by {
        forall v ensures v in UWithin(edges, clauseId, maxHops) <==> Linked(edges, clauseId, v, maxHops) {
          WithinIffLinked(edges, clauseId, v, maxHops);
        }
      }
      if clauseId !in nodes then []
      else RelatedAmong(nodes, edges, clauseId, maxHops)
    }

    /** `generate_policy_text`: one section per category in order of first
        appearance, each listing its clauses sorted by id with their bare
        rule line; every clause's heading and rule are printed. */
    method GeneratePolicyText() returns (text: string)
      requires Valid()
      ensures text == Join(DocumentLines(ClauseItems(clauses, order)), "\n")
      ensures forall k :: k in clauses ==>
        && ("\n[" + k + "] " + clauses[k].title) in DocumentLines(ClauseItems(clauses, order))
        && clauses[k].rule in DocumentLines(ClauseItems(clauses, order))
    {
      var items := ClauseItems(clauses, order);
      text := RenderDocument(items);
      forall k | k in clauses
        ensures ("\n[" + k + "] " + clauses[k].title) in DocumentLines(items)
        ensures clauses[k].rule in DocumentLines(items)
      {
        var i :| 0 <= i < |order| && order[i] == k;
        assert items[i] == ClauseItem(clauses[k]);
        EveryItemRendered(items, items[i]);
        assert clauses[k].rule in items[i].detail;
      }
    }
  }
}
