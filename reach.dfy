/** Hop-bounded reachability in the directed interaction graph of
    factory_3.py, and the breadth-first search of
    `PolicyGraph.get_related_policies`. */
module Reach {
  import opened Sequences

  /** `interaction_graph`: each clause id to the ids it points at. */
  type Graph = map<string, seq<string>>

  /** The ids one edge away from some id in `s`. */
  ghost function Successors(g: Graph, s: set<string>): set<string> {
    set u, i | u in s && u in g && 0 <= i < |g[u]| :: g[u][i]
  }

  /** The ids reachable from `start` along at most `k` edges (none when `k`
      is negative). */
  ghost function Within(g: Graph, start: string, k: int): set<string>
    decreases k
  {
    if k < 0 then {}
    else if k == 0 then {start}
    else Within(g, start, k - 1) + Successors(g, Within(g, start, k - 1))
  }

  /** Every id some edge points at. */
  ghost function Targets(g: Graph): set<string> {
    set u, i | u in g && 0 <= i < |g[u]| :: g[u][i]
  }

  /** Allowing more hops never loses an id. */
  lemma {:induction false} WithinMonotonic(g: Graph, start: string, j: int, k: int)
    requires j <= k
    ensures Within(g, start, j) <= Within(g, start, k)
    decreases k - j
  {
    if j < k {
      WithinMonotonic(g, start, j, k - 1);
      if k - 1 < 0 {
        assert Within(g, start, j) == {};
      }
    }
  }

  /** One more edge from an id within `k` hops lands within `k + 1`. */
  lemma WithinStep(g: Graph, start: string, k: int, u: string, i: int)
    requires 0 <= k && u in Within(g, start, k) && u in g && 0 <= i < |g[u]|
    ensures g[u][i] in Within(g, start, k + 1)
  {
    assert g[u][i] in Successors(g, Within(g, start, k));
  }

  lemma {:induction false} WithinUniverse(g: Graph, start: string, k: int)
    ensures Within(g, start, k) <= {start} + Targets(g)
    decreases k
  {
    if k > 0 {
      WithinUniverse(g, start, k - 1);
    }
  }

  /** The entries the neighbour loop appends: each neighbour not yet
      visited, paired with the next hop count; duplicates kept. */
  function Enqueued(ns: seq<string>, visited: set<string>, h: int): seq<(string, int)>
    decreases |ns|
  {
    if ns == [] then []
    else
      var n := |ns| - 1;
      Enqueued(ns[..n], visited, h) + (if ns[n] in visited then [] else [(ns[n], h)])
  }

  lemma {:induction false} EnqueuedMembers(ns: seq<string>, visited: set<string>, h: int)
    ensures forall e :: e in Enqueued(ns, visited, h) <==> e.0 in ns && e.0 !in visited && e.1 == h
    decreases |ns|
  {
    if ns != [] {
      var n := |ns| - 1;
      EnqueuedMembers(ns[..n], visited, h);
      assert ns == ns[..n] + [ns[n]];
    }
  }

  /** The inner loop of `get_related_policies`. */
  method EnqueueNeighbours(ns: seq<string>, visited: set<string>, h: int, toVisit: seq<(string, int)>)
    returns (q: seq<(string, int)>)
    ensures q == toVisit + Enqueued(ns, visited, h)
  {
    q := toVisit;
    for k := 0 to |ns|
      invariant q == toVisit + Enqueued(ns[..k], visited, h)
    {
      assert ns[..k + 1][..k] == ns[..k];
      if ns[k] !in visited {
        q := q + [(ns[k], h)];
      }
    }
    assert ns[..|ns|] == ns;
  }

  /** The search has finished and every id it recorded at a level below the
      bound had all its neighbours recorded at most one level further: then
      it recorded everything within the bound. */
  lemma {:induction false} ClosedLevelsComplete(g: Graph, start: string, maxHops: int,
      visited: set<string>, level: map<string, int>, k: int)
    requires level.Keys == visited
    requires 0 <= maxHops ==> start in visited && level[start] == 0
    requires forall u, i :: u in visited && u in g && level[u] < maxHops && 0 <= i < |g[u]| ==>
      g[u][i] in visited && level[g[u][i]] <= level[u] + 1
    requires k <= maxHops
    ensures forall v :: v in Within(g, start, k) ==> v in visited && level[v] <= k
    decreases k
  {
    if k > 0 {
      ClosedLevelsComplete(g, start, maxHops, visited, level, k - 1);
      forall v | v in Within(g, start, k) ensures v in visited && level[v] <= k {
        if v !in Within(g, start, k - 1) {
          var u, i :| u in Within(g, start, k - 1) && u in g && 0 <= i < |g[u]| && g[u][i] == v;
        }
      }
    }
  }

  /** The state of the search between two iterations of its loop. `level`
      records the hop count each visited id was visited at, and `cur` the
      hop count of the entry popped last. */
  ghost predicate Searching(g: Graph, start: string, maxHops: int, universe: set<string>,
      visited: set<string>, toVisit: seq<(string, int)>, related: seq<string>,
      level: map<string, int>, cur: int)
  {
    && level.Keys == visited && visited <= universe
    && LevelsSound(g, start, maxHops, visited, level, cur)
    && QueueSound(g, start, universe, toVisit, cur)
    && Frontier(g, maxHops, visited, toVisit, level)
    && (start in visited ==> level[start] == 0)
    && (start !in visited ==>
         visited == {} && (toVisit == [(start, 0)] || (toVisit == [] && maxHops < 0)))
    && NoDup(related)
    && (forall v :: v in related <==> v in visited && v != start)
    && (forall i, j :: 0 <= i < j < |related| ==> level[related[i]] <= level[related[j]])
  }

  ghost predicate LevelsSound(g: Graph, start: string, maxHops: int,
      visited: set<string>, level: map<string, int>, cur: int)
    requires level.Keys == visited
  {
    forall v :: v in visited ==>
      0 <= level[v] <= maxHops && level[v] <= cur && v in Within(g, start, level[v])
  }

  ghost predicate QueueSound(g: Graph, start: string, universe: set<string>,
      toVisit: seq<(string, int)>, cur: int)
  {
    && (forall i :: 0 <= i < |toVisit| ==>
         toVisit[i].0 in universe && cur <= toVisit[i].1 <= cur + 1
         && toVisit[i].0 in Within(g, start, toVisit[i].1))
    && (forall i, j :: 0 <= i < j < |toVisit| ==> toVisit[i].1 <= toVisit[j].1)
  }

  /** Every neighbour of an id visited below the bound is visited at most
      one level further, or waits in the queue at the next level. */
  ghost predicate Frontier(g: Graph, maxHops: int, visited: set<string>,
      toVisit: seq<(string, int)>, level: map<string, int>)
    requires level.Keys == visited
  {
    forall u, i :: u in visited && u in g && level[u] < maxHops && 0 <= i < |g[u]| ==>
      (g[u][i] in visited && level[g[u][i]] <= level[u] + 1) || (g[u][i], level[u] + 1) in toVisit
  }

  lemma SearchStarts(g: Graph, start: string, maxHops: int)
    ensures Searching(g, start, maxHops, {start} + Targets(g), {}, [(start, 0)], [], map[], 0)
  {
  }

  /** Popping an entry that is already visited or past the bound keeps the
      invariant. */
  lemma SkipKeeps(g: Graph, start: string, maxHops: int, universe: set<string>,
      visited: set<string>, toVisit: seq<(string, int)>, related: seq<string>,
      level: map<string, int>, cur: int)
    requires Searching(g, start, maxHops, universe, visited, toVisit, related, level, cur)
    requires toVisit != [] && (toVisit[0].0 in visited || toVisit[0].1 > maxHops)
    ensures Searching(g, start, maxHops, universe, visited, toVisit[1..], related, level, toVisit[0].1)
  {
    var h := toVisit[0].1;
    var rest := toVisit[1..];
    assert toVisit == [toVisit[0]] + rest;
    forall u, i | u in visited && u in g && level[u] < maxHops && 0 <= i < |g[u]|
      ensures (g[u][i] in visited && level[g[u][i]] <= level[u] + 1) || (g[u][i], level[u] + 1) in rest
    {
      var w := g[u][i];
      if (w, level[u] + 1) == toVisit[0] {
        assert w in visited;
      }
    }
    QueuePop(g, start, universe, toVisit, cur);
  }

  lemma QueuePop(g: Graph, start: string, universe: set<string>, toVisit: seq<(string, int)>, cur: int)
    requires QueueSound(g, start, universe, toVisit, cur) && toVisit != []
    ensures QueueSound(g, start, universe, toVisit[1..], toVisit[0].1)
  {
    var rest := toVisit[1..];
    forall i | 0 <= i < |rest| ensures toVisit[0].1 <= rest[i].1 {
      assert rest[i] == toVisit[i + 1];
    }
  }

  lemma QueueAppend(g: Graph, start: string, universe: set<string>,
      rest: seq<(string, int)>, added: seq<(string, int)>, h: int)
    requires QueueSound(g, start, universe, rest, h)
    requires forall e :: e in added ==> e.0 in universe && e.1 == h + 1 && e.0 in Within(g, start, h + 1)
    ensures QueueSound(g, start, universe, rest + added, h)
  {
    var q := rest + added;
    forall i | 0 <= i < |q| ensures q[i].0 in universe && h <= q[i].1 <= h + 1
      && q[i].0 in Within(g, start, q[i].1)
    {
      if i >= |rest| {
        assert q[i] == added[i - |rest|];
        assert q[i] in added;
      }
    }
    forall i, j | 0 <= i < j < |q| ensures q[i].1 <= q[j].1 {
      if j >= |rest| {
        assert q[j] == added[j - |rest|];
        assert q[j] in added;
      }
    }
  }

  /** Visiting the popped entry and queueing its unvisited neighbours keeps
      the invariant. */
  lemma VisitKeeps(g: Graph, start: string, maxHops: int, universe: set<string>,
      visited: set<string>, toVisit: seq<(string, int)>, related: seq<string>,
      level: map<string, int>, cur: int,
      visited': set<string>, q: seq<(string, int)>, related': seq<string>, level': map<string, int>)
    requires Searching(g, start, maxHops, universe, visited, toVisit, related, level, cur)
    requires Targets(g) <= universe
    requires toVisit != [] && toVisit[0].0 !in visited && toVisit[0].1 <= maxHops
    requires visited' == visited + {toVisit[0].0}
    requires toVisit[0].0 in g ==> q == toVisit[1..] + Enqueued(g[toVisit[0].0], visited', toVisit[0].1 + 1)
    requires toVisit[0].0 !in g ==> q == toVisit[1..]
    requires related' == if toVisit[0].0 != start then related + [toVisit[0].0] else related
    requires level' == level[toVisit[0].0 := toVisit[0].1]
    ensures Searching(g, start, maxHops, universe, visited', q, related', level', toVisit[0].1)
  {
    var c, h := toVisit[0].0, toVisit[0].1;
    var rest := toVisit[1..];
    var added := if c in g then Enqueued(g[c], visited', h + 1) else [];
    assert q == rest + added;
    QueuePop(g, start, universe, toVisit, cur);
    AddedSound(g, start, universe, c, h, visited', added);
    QueueAppend(g, start, universe, rest, added, h);
    FrontierAfterVisit(g, maxHops, visited, toVisit, level, cur, visited', q, level', added);
    RelatedAfterVisit(start, visited, related, level, cur, c, h, related');
  }

  lemma AddedSound(g: Graph, start: string, universe: set<string>, c: string, h: int,
      visited': set<string>, added: seq<(string, int)>)
    requires Targets(g) <= universe && 0 <= h && c in Within(g, start, h)
    requires added == if c in g then Enqueued(g[c], visited', h + 1) else []
    ensures forall e :: e in added ==> e.0 in universe && e.1 == h + 1 && e.0 in Within(g, start, h + 1)
    ensures c in g ==> forall i :: 0 <= i < |g[c]| && g[c][i] !in visited' ==> (g[c][i], h + 1) in added
  {
    if c in g {
      EnqueuedMembers(g[c], visited', h + 1);
      forall i | 0 <= i < |g[c]| ensures g[c][i] in universe && g[c][i] in Within(g, start, h + 1) {
        WithinStep(g, start, h, c, i);
      }
    }
  }

  lemma FrontierAfterVisit(g: Graph, maxHops: int, visited: set<string>, toVisit: seq<(string, int)>,
      level: map<string, int>, cur: int,
      visited': set<string>, q: seq<(string, int)>, level': map<string, int>, added: seq<(string, int)>)
    requires level.Keys == visited && Frontier(g, maxHops, visited, toVisit, level)
    requires forall v :: v in visited ==> level[v] <= cur
    requires toVisit != [] && cur <= toVisit[0].1 && toVisit[0].0 !in visited
    requires visited' == visited + {toVisit[0].0}
    requires level' == level[toVisit[0].0 := toVisit[0].1]
    requires q == toVisit[1..] + added
    requires toVisit[0].0 in g ==> forall i :: 0 <= i < |g[toVisit[0].0]| && g[toVisit[0].0][i] !in visited' ==>
      (g[toVisit[0].0][i], toVisit[0].1 + 1) in added
    ensures level'.Keys == visited' && Frontier(g, maxHops, visited', q, level')
  {
    var c, h := toVisit[0].0, toVisit[0].1;
    var rest := toVisit[1..];
    assert toVisit == [toVisit[0]] + rest;
    forall u, i | u in visited' && u in g && level'[u] < maxHops && 0 <= i < |g[u]|
      ensures (g[u][i] in visited' && level'[g[u][i]] <= level'[u] + 1) || (g[u][i], level'[u] + 1) in q
    {
      var w := g[u][i];
      if u == c {
        if w !in visited' {
          assert (w, h + 1) in added;
        }
      } else {
        assert level'[u] == level[u];
        if w in visited && level[w] <= level[u] + 1 {
        } else if (w, level[u] + 1) == toVisit[0] {
        } else {
          assert (w, level[u] + 1) in rest;
        }
      }
    }
  }

  lemma RelatedAfterVisit(start: string, visited: set<string>, related: seq<string>,
      level: map<string, int>, cur: int, c: string, h: int, related': seq<string>)
    requires level.Keys == visited && c !in visited && cur <= h
    requires forall v :: v in visited ==> level[v] <= cur
    requires NoDup(related)
    requires forall v :: v in related <==> v in visited && v != start
    requires forall i, j :: 0 <= i < j < |related| ==> level[related[i]] <= level[related[j]]
    requires related' == if c != start then related + [c] else related
    ensures NoDup(related')
    ensures forall v :: v in related' <==> v in visited + {c} && v != start
    ensures forall i, j :: 0 <= i < j < |related'| ==> level[c := h][related'[i]] <= level[c := h][related'[j]]
  {
    var level' := level[c := h];
    forall i | 0 <= i < |related| ensures level'[related[i]] == level[related[i]] {
      assert related[i] in visited;
    }
  }

  /** One iteration of the loop of `get_related_policies`: pop the front
      entry; skip it when it is already visited or past the hop bound;
      otherwise visit it, record it unless it is the start, and queue its
      unvisited neighbours one hop further. */
  method SearchStep(g: Graph, start: string, maxHops: int, ghost universe: set<string>,
      visited: set<string>, toVisit: seq<(string, int)>, related: seq<string>,
      ghost level: map<string, int>, ghost cur: int)
    returns (visited': set<string>, toVisit': seq<(string, int)>, related': seq<string>,
      ghost level': map<string, int>, ghost cur': int)
    requires Searching(g, start, maxHops, universe, visited, toVisit, related, level, cur)
    requires Targets(g) <= universe && toVisit != []
    ensures Searching(g, start, maxHops, universe, visited', toVisit', related', level', cur')
    ensures |universe - visited'| < |universe - visited|
      || (visited' == visited && |toVisit'| < |toVisit|)
  {
    var current, hops := toVisit[0].0, toVisit[0].1;
    if current in visited || hops > maxHops {
      SkipKeeps(g, start, maxHops, universe, visited, toVisit, related, level, cur);
      visited', toVisit', related', level', cur' := visited, toVisit[1..], related, level, hops;
      return;
    }
    assert universe - (visited + {current}) < universe - visited;
    toVisit' := toVisit[1..];
    cur' := hops;
    visited' := visited + {current};
    level' := level[current := hops];
    related' := related;
    if current != start {
      related' := related' + [current];
    }
    if current in g {
      toVisit' := EnqueueNeighbours(g[current], visited', hops + 1, toVisit');
    }
    VisitKeeps(g, start, maxHops, universe, visited, toVisit, related, level, cur,
      visited', toVisit', related', level');
  }

  /** The breadth-first search of `get_related_policies` from `start`.
      The result lists exactly the ids other than `start` within `maxHops`
      edges, each once, nearer ids before farther ones. */
  method Explore(g: Graph, start: string, maxHops: int) returns (related: seq<string>)
    ensures NoDup(related) && start !in related
    ensures forall v :: v in related <==> v != start && v in Within(g, start, maxHops)
    ensures forall i, j, k :: 0 <= i < j < |related| && related[j] in Within(g, start, k) ==>
      related[i] in Within(g, start, k)
  {
    var visited: set<string> := {};
    var toVisit: seq<(string, int)> := [(start, 0)];
    related := [];
    ghost var level: map<string, int> := map[];
    ghost var cur := 0;
    ghost var universe := {start} + Targets(g);
    SearchStarts(g, start, maxHops);
    while toVisit != []
      invariant Searching(g, start, maxHops, universe, visited, toVisit, related, level, cur)
      decreases |universe - visited|, |toVisit|
    {
      visited, toVisit, related, level, cur :=
        SearchStep(g, start, maxHops, universe, visited, toVisit, related, level, cur);
    }
    ExploreMembers(g, start, maxHops, visited, level, related);
    ExploreOrder(g, start, maxHops, visited, level, related);
  }

  lemma ExploreMembers(g: Graph, start: string, maxHops: int,
      visited: set<string>, level: map<string, int>, related: seq<string>)
    requires level.Keys == visited
    requires forall v :: v in visited ==> 0 <= level[v] <= maxHops && v in Within(g, start, level[v])
    requires forall u, i :: u in visited && u in g && level[u] < maxHops && 0 <= i < |g[u]| ==>
      g[u][i] in visited && level[g[u][i]] <= level[u] + 1
    requires 0 <= maxHops ==> start in visited && level[start] == 0
    requires forall v :: v in related <==> v in visited && v != start
    ensures forall v :: v in related <==> v != start && v in Within(g, start, maxHops)
  {
    ClosedLevelsComplete(g, start, maxHops, visited, level, maxHops);
    forall v | v in visited ensures v in Within(g, start, maxHops) {
      WithinMonotonic(g, start, level[v], maxHops);
    }
  }

  lemma ExploreOrder(g: Graph, start: string, maxHops: int,
      visited: set<string>, level: map<string, int>, related: seq<string>)
    requires level.Keys == visited
    requires forall v :: v in visited ==> 0 <= level[v] <= maxHops && v in Within(g, start, level[v])
    requires forall u, i :: u in visited && u in g && level[u] < maxHops && 0 <= i < |g[u]| ==>
      g[u][i] in visited && level[g[u][i]] <= level[u] + 1
    requires 0 <= maxHops ==> start in visited && level[start] == 0
    requires forall v :: v in related ==> v in visited
    requires forall i, j :: 0 <= i < j < |related| ==> level[related[i]] <= level[related[j]]
    ensures forall i, j, k :: 0 <= i < j < |related| && related[j] in Within(g, start, k) ==>
      related[i] in Within(g, start, k)
  {
    forall i, j, k | 0 <= i < j < |related| && related[j] in Within(g, start, k)
      ensures related[i] in Within(g, start, k)
    {
      var x := related[i];
      if k <= maxHops {
        ClosedLevelsComplete(g, start, maxHops, visited, level, k);
      }
      WithinMonotonic(g, start, level[x], k);
    }
  }
}
