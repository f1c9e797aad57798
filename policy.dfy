/** Policy clauses of factory_3.py and the meaning of
    `PolicyGraph.resolve_conflicts`: candidates are stable-sorted by
    precedence (lower number is higher authority), then admitted one at a
    time; a newcomer first evicts the active clauses it overrides, is
    skipped if an active clause overrides it, and otherwise joins when its
    conditions hold. */
module Policy {
  import opened Wrappers
  import opened Sequences
  import opened Conditions

  /** `PolicyClause`, with the same defaults: empty lists, precedence 5
      (lower numbers rank higher), empty category. The relation lists keep
      the source's field names, except that `modifies` and `requires`
      (keywords here) carry an `Ids` suffix. */
  datatype Clause = Clause(
    id: string,
    title: string,
    rule: string,
    conditions: seq<string> := [],
    interactsWith: seq<string> := [],
    modifiesIds: seq<string> := [],
    modifiedBy: seq<string> := [],
    overrides: seq<string> := [],
    overriddenBy: seq<string> := [],
    requiresIds: seq<string> := [],
    precedence: int := 5,
    category: string := "")

  /** The adjacency list `add_clause` stores for a clause: the six relation
      lists concatenated in field order, duplicates kept. */
  function Relations(c: Clause): seq<string> {
    c.interactsWith + c.modifiesIds + c.modifiedBy + c.overrides + c.overriddenBy + c.requiresIds
  }

  /** The adjacency list holds every id of every relation list and nothing
      else, and is exactly as long as the six lists together. */
  lemma RelationsAreTheSixLists(c: Clause)
    ensures forall x :: x in Relations(c) <==>
      x in c.interactsWith || x in c.modifiesIds || x in c.modifiedBy
      || x in c.overrides || x in c.overriddenBy || x in c.requiresIds
    ensures |Relations(c)| == |c.interactsWith| + |c.modifiesIds| + |c.modifiedBy|
      + |c.overrides| + |c.overriddenBy| + |c.requiresIds|
  {
  }

  type Store = map<string, Clause>

  /** The `KeyError` that `self.clauses[cid]` raises for an unknown id. */
  datatype LookupError = KeyError(key: string)

  ghost predicate AllKnown(ids: seq<string>, store: Store) {
    forall i :: 0 <= i < |ids| ==> ids[i] in store
  }

  /** The first id, in list order, that is not a clause: the one whose key
      computation makes `sorted` raise. */
  function FirstUnknown(ids: seq<string>, store: Store): (r: Option<string>)
    ensures r.None? <==> AllKnown(ids, store)
    ensures r.Some? ==> r.value in ids && r.value !in store
    decreases |ids|
  {
    if ids == [] then None
    else if ids[0] !in store then Some(ids[0])
    else
      var r := FirstUnknown(ids[1..], store);
      assert forall i :: 1 <= i < |ids| ==> ids[i] == ids[1..][i - 1];
      r
  }

  function InsertByPrecedence(x: string, s: seq<string>, store: Store): (r: seq<string>)
    requires x in store && AllKnown(s, store)
    ensures multiset(r) == multiset(s) + multiset{x}
    ensures AllKnown(r, store)
    decreases |s|
  {
    if s == [] || store[x].precedence <= store[s[0]].precedence then [x] + s
    else
      assert s == [s[0]] + s[1..];
      var r := [s[0]] + InsertByPrecedence(x, s[1..], store);
      assert forall z :: z in multiset(r) ==> z in store;
      r
  }

  /** `sorted(clause_ids, key=lambda cid: self.clauses[cid].precedence)`
      (a stable insertion sort). */
  function SortByPrecedence(ids: seq<string>, store: Store): (r: seq<string>)
    requires AllKnown(ids, store)
    ensures multiset(r) == multiset(ids)
    ensures AllKnown(r, store)
    decreases |ids|
  {
    if ids == [] then []
    else
      assert ids == [ids[0]] + ids[1..];
      InsertByPrecedence(ids[0], SortByPrecedence(ids[1..], store), store)
  }

  ghost predicate SortedByPrecedence(s: seq<string>, store: Store)
    requires AllKnown(s, store)
  {
    forall i, j :: 0 <= i < j < |s| ==> store[s[i]].precedence <= store[s[j]].precedence
  }

  /** The ids of one precedence value, in order. */
  function WithPrecedence(s: seq<string>, store: Store, p: int): seq<string>
    requires AllKnown(s, store)
    decreases |s|
  {
    if s == [] then []
    else (if store[s[0]].precedence == p then [s[0]] else []) + WithPrecedence(s[1..], store, p)
  }

  lemma {:induction false} InsertByPrecedenceSorted(x: string, s: seq<string>, store: Store)
    requires x in store && AllKnown(s, store) && SortedByPrecedence(s, store)
    ensures SortedByPrecedence(InsertByPrecedence(x, s, store), store)
    decreases |s|
  {
    if !(s == [] || store[x].precedence <= store[s[0]].precedence) {
      InsertByPrecedenceSorted(x, s[1..], store);
      var r := InsertByPrecedence(x, s[1..], store);
      forall j | 0 <= j < |r| ensures store[s[0]].precedence <= store[r[j]].precedence {
        assert r[j] in multiset(s[1..]) + multiset{x};
        if r[j] != x {
          assert r[j] in s[1..];
        }
      }
    }
  }

  lemma {:induction false} InsertByPrecedenceStable(x: string, s: seq<string>, store: Store, p: int)
    requires x in store && AllKnown(s, store)
    ensures WithPrecedence(InsertByPrecedence(x, s, store), store, p)
      == (if store[x].precedence == p then [x] else []) + WithPrecedence(s, store, p)
    decreases |s|
  {
    if !(s == [] || store[x].precedence <= store[s[0]].precedence) {
      InsertByPrecedenceStable(x, s[1..], store, p);
      var r := [s[0]] + InsertByPrecedence(x, s[1..], store);
      assert r[1..] == InsertByPrecedence(x, s[1..], store);
    } else {
      assert ([x] + s)[1..] == s;
    }
  }

  /** The sort is a stable sort: its output is ordered by precedence, is a
      rearrangement of the candidates, and keeps the candidates of each
      precedence value in their original order. */
  lemma {:induction false} SortByPrecedenceIsStableSort(ids: seq<string>, store: Store, p: int)
    requires AllKnown(ids, store)
    ensures SortedByPrecedence(SortByPrecedence(ids, store), store)
    ensures multiset(SortByPrecedence(ids, store)) == multiset(ids)
    ensures WithPrecedence(SortByPrecedence(ids, store), store, p) == WithPrecedence(ids, store, p)
    decreases |ids|
  {
    if ids != [] {
      SortByPrecedenceIsStableSort(ids[1..], store, p);
      InsertByPrecedenceSorted(ids[0], SortByPrecedence(ids[1..], store), store);
      InsertByPrecedenceStable(ids[0], SortByPrecedence(ids[1..], store), store, p);
    }
  }

  /** The active list after the pruning loop: the entries that the newcomer
      does not override. */
  function Unoverridden(active: seq<string>, overrides: seq<string>): seq<string>
    decreases |active|
  {
    if active == [] then []
    else
      var p := Unoverridden(active[..|active| - 1], overrides);
      var a := active[|active| - 1];
      if a in overrides then p else p + [a]
  }

  /** `active_clauses.remove(x)`: drops the first occurrence of `x`. */
  function RemoveFirst(s: seq<string>, x: string): seq<string>
    decreases |s|
  {
    if s == [] then []
    else if s[0] == x then s[1..]
    else [s[0]] + RemoveFirst(s[1..], x)
  }

  lemma {:induction false} RemoveFirstAfter(p: seq<string>, x: string, s: seq<string>)
    requires x !in p
    ensures RemoveFirst(p + [x] + s, x) == p + s
    decreases |p|
  {
    if p == [] {
      assert p + [x] + s == [x] + s;
    } else {
      assert (p + [x] + s)[1..] == p[1..] + [x] + s;
      RemoveFirstAfter(p[1..], x, s);
      assert p + s == [p[0]] + (p[1..] + s);
    }
  }

  /** Pruning keeps an entry exactly when the newcomer does not override it,
      in the original order. */
  lemma {:induction false} UnoverriddenFilters(active: seq<string>, overrides: seq<string>)
    ensures IsSubseq(Unoverridden(active, overrides), active)
    ensures forall z :: z in Unoverridden(active, overrides) <==> z in active && z !in overrides
    decreases |active|
  {
    if active != [] {
      var n := |active| - 1;
      UnoverriddenFilters(active[..n], overrides);
      assert active == active[..n] + [active[n]];
      if active[n] in overrides {
        SubseqExtendRight(Unoverridden(active[..n], overrides), active[..n], [active[n]]);
      } else {
        SubseqAppend(Unoverridden(active[..n], overrides), active[..n], active[n]);
      }
    }
  }

  /** The `is_overridden` test: some entry of the active list names the
      candidate among its `overrides`. */
  predicate IsOverridden(store: Store, active: seq<string>, cid: string) {
    exists i :: 0 <= i < |active| && active[i] in store && cid in store[active[i]].overrides
  }

  /** One iteration of the loop of `resolve_conflicts`. */
  function Admit(store: Store, active: seq<string>, cid: string, ctx: Context): seq<string>
    requires cid in store
  {
    var pruned := Unoverridden(active, store[cid].overrides);
    if IsOverridden(store, pruned, cid) then pruned
    else if CheckConditions(store[cid].conditions, ctx) then pruned + [cid]
    else pruned
  }

  /** The active list after the loop has run over `sorted`. */
  function Resolved(store: Store, sorted: seq<string>, ctx: Context): seq<string>
    requires AllKnown(sorted, store)
    decreases |sorted|
  {
    if sorted == [] then []
    else Admit(store, Resolved(store, sorted[..|sorted| - 1], ctx), sorted[|sorted| - 1], ctx)
  }

  /** `resolve_conflicts(clause_ids, context)`: the empty list for no
      candidates, the `KeyError` of the first unknown candidate, otherwise
      the active list. */
  function Resolve(store: Store, ids: seq<string>, ctx: Context): Result<seq<string>, LookupError> {
    if ids == [] then Success([])
    else match FirstUnknown(ids, store)
      case Some(k) => Failure(KeyError(k))
      case None => Success(Resolved(store, SortByPrecedence(ids, store), ctx))
  }

  /** No entry of `s` overrides another entry at a different position. */
  ghost predicate ConflictFree(store: Store, s: seq<string>) {
    forall i, j :: 0 <= i < |s| && 0 <= j < |s| && i != j && s[j] in store ==> s[i] !in store[s[j]].overrides
  }

  ghost predicate AllPass(store: Store, s: seq<string>, ctx: Context) {
    forall i :: 0 <= i < |s| && s[i] in store ==> CheckConditions(store[s[i]].conditions, ctx)
  }

  lemma ConflictFreeAppend(store: Store, s: seq<string>, y: string)
    requires y in store && AllKnown(s, store)
    ensures ConflictFree(store, s + [y]) <==>
      && ConflictFree(store, s)
      && (forall z :: z in s ==> z !in store[y].overrides && y !in store[z].overrides)
  {
    var t := s + [y];
    if ConflictFree(store, t) {
      forall z | z in s ensures z !in store[y].overrides && y !in store[z].overrides {
        var i :| 0 <= i < |s| && s[i] == z;
        assert t[i] == z && t[|s|] == y;
      }
      forall i, j | 0 <= i < |s| && 0 <= j < |s| && i != j && s[j] in store
        ensures s[i] !in store[s[j]].overrides
      {
        assert t[i] == s[i] && t[j] == s[j];
      }
    }
    if && ConflictFree(store, s)
       && (forall z :: z in s ==> z !in store[y].overrides && y !in store[z].overrides)
    {
      forall i, j | 0 <= i < |t| && 0 <= j < |t| && i != j && t[j] in store
        ensures t[i] !in store[t[j]].overrides
      {
        if i < |s| && j < |s| {
          assert t[i] == s[i] && t[j] == s[j];
        } else if i < |s| {
          assert t[i] in s;
        } else {
          assert t[j] in s;
        }
      }
    }
  }

  lemma {:induction false} UnoverriddenConflictFree(store: Store, active: seq<string>, overrides: seq<string>)
    requires AllKnown(active, store) && ConflictFree(store, active)
    ensures ConflictFree(store, Unoverridden(active, overrides))
    ensures AllKnown(Unoverridden(active, overrides), store)
    decreases |active|
  {
    if active != [] {
      var n := |active| - 1;
      var a := active[n];
      assert active == active[..n] + [a];
      ConflictFreeAppend(store, active[..n], a);
      UnoverriddenConflictFree(store, active[..n], overrides);
      UnoverriddenFilters(active[..n], overrides);
      if a !in overrides {
        ConflictFreeAppend(store, Unoverridden(active[..n], overrides), a);
      }
    }
  }

  /** What `resolve_conflicts` guarantees of its result: it keeps the order
      of the sorted candidates (a subsequence), every clause in it passes its
      conditions, and no clause in it overrides another clause in it. */
  lemma {:induction false} ResolvedIsSound(store: Store, sorted: seq<string>, ctx: Context)
    requires AllKnown(sorted, store)
    ensures IsSubseq(Resolved(store, sorted, ctx), sorted)
    ensures AllKnown(Resolved(store, sorted, ctx), store)
    ensures AllPass(store, Resolved(store, sorted, ctx), ctx)
    ensures ConflictFree(store, Resolved(store, sorted, ctx))
    decreases |sorted|
  {
    if sorted != [] {
      var n := |sorted| - 1;
      ResolvedIsSound(store, sorted[..n], ctx);
      AdmitIsSound(store, Resolved(store, sorted[..n], ctx), sorted[n], ctx, sorted[..n]);
      assert sorted == sorted[..n] + [sorted[n]];
    }
  }

  /** One iteration of the loop keeps the guarantees of `ResolvedIsSound`. */
  lemma AdmitIsSound(store: Store, prev: seq<string>, cid: string, ctx: Context, before: seq<string>)
    requires cid in store && AllKnown(prev, store) && IsSubseq(prev, before)
    requires AllPass(store, prev, ctx) && ConflictFree(store, prev)
    ensures var r := Admit(store, prev, cid, ctx);
      && IsSubseq(r, before + [cid]) && AllKnown(r, store) && AllPass(store, r, ctx) && ConflictFree(store, r)
  {
    var pruned := Unoverridden(prev, store[cid].overrides);
    UnoverriddenFilters(prev, store[cid].overrides);
    UnoverriddenConflictFree(store, prev, store[cid].overrides);
    SubseqTrans(pruned, prev, before);
    forall i | 0 <= i < |pruned| && pruned[i] in store ensures CheckConditions(store[pruned[i]].conditions, ctx) {
      assert pruned[i] in prev;
    }
    if !IsOverridden(store, pruned, cid) && CheckConditions(store[cid].conditions, ctx) {
      AppendIsSound(store, pruned, cid, ctx, before);
    } else {
      SubseqExtendRight(pruned, before, [cid]);
    }
  }

  /** The admitting branch of `AdmitIsSound`: a candidate that passes and
      that nothing left active overrides, or is overridden by, joins the
      active list without breaking its guarantees. */
  lemma AppendIsSound(store: Store, pruned: seq<string>, cid: string, ctx: Context, before: seq<string>)
    requires cid in store && AllKnown(pruned, store) && IsSubseq(pruned, before)
    requires AllPass(store, pruned, ctx) && ConflictFree(store, pruned)
    requires forall z :: z in pruned ==> z !in store[cid].overrides
    requires !IsOverridden(store, pruned, cid) && CheckConditions(store[cid].conditions, ctx)
    ensures var r := pruned + [cid];
      && IsSubseq(r, before + [cid]) && AllKnown(r, store) && AllPass(store, r, ctx) && ConflictFree(store, r)
  {
    var r := pruned + [cid];
    SubseqAppend(pruned, before, cid);
    ConflictFreeAppend(store, pruned, cid);
    forall z | z in pruned ensures cid !in store[z].overrides {
      var i :| 0 <= i < |pruned| && pruned[i] == z;
    }
    forall i | 0 <= i < |r| && r[i] in store ensures CheckConditions(store[r[i]].conditions, ctx) {
      if i < |pruned| {
        assert r[i] == pruned[i];
      }
    }
  }

  /** A candidate that passes its conditions and that no candidate
      overrides always ends up active, wherever it is in the list. */
  lemma {:induction false} UnchallengedClauseIsActive(store: Store, sorted: seq<string>, ctx: Context, x: string)
    requires AllKnown(sorted, store)
    requires x in sorted && CheckConditions(store[x].conditions, ctx)
    requires forall y :: y in sorted ==> x !in store[y].overrides
    ensures x in Resolved(store, sorted, ctx)
    decreases |sorted|
  {
    var n := |sorted| - 1;
    var cid := sorted[n];
    var prev := Resolved(store, sorted[..n], ctx);
    ResolvedIsSound(store, sorted[..n], ctx);
    SubseqMembers(prev, sorted[..n]);
    assert sorted == sorted[..n] + [cid];
    var pruned := Unoverridden(prev, store[cid].overrides);
    UnoverriddenFilters(prev, store[cid].overrides);
    if x == cid {
      forall i | 0 <= i < |pruned| && pruned[i] in store ensures cid !in store[pruned[i]].overrides {
        assert pruned[i] in prev;
        assert pruned[i] in sorted[..n];
        assert pruned[i] in sorted;
      }
    } else {
      UnchallengedClauseIsActive(store, sorted[..n], ctx, x);
    }
  }

  /** Precedence never decreases along a subsequence of a list sorted by
      precedence. */
  lemma {:induction false} SubseqOfSortedIsSorted(a: seq<string>, b: seq<string>, store: Store)
    requires AllKnown(b, store) && SortedByPrecedence(b, store) && IsSubseq(a, b)
    ensures AllKnown(a, store) && SortedByPrecedence(a, store)
    decreases |b|
  {
    SubseqMembers(a, b);
    if a != [] {
      var b' := b[..|b| - 1];
      if a[|a| - 1] == b[|b| - 1] && IsSubseq(a[..|a| - 1], b') {
        var a' := a[..|a| - 1];
        SubseqOfSortedIsSorted(a', b', store);
        SubseqMembers(a', b');
        forall i, j | 0 <= i < j < |a|
          ensures store[a[i]].precedence <= store[a[j]].precedence
        {
          if j == |a| - 1 {
            assert a[i] == a'[i] && a'[i] in b';
          } else {
            assert a[i] == a'[i] && a[j] == a'[j];
          }
        }
      } else {
        SubseqOfSortedIsSorted(a, b', store);
      }
    }
  }

  /** The result of `resolve_conflicts`, when it returns, is ordered by
      precedence, passes every condition, holds no override conflict, and
      consists of candidates; an unknown candidate makes it fail with the
      first unknown id instead. */
  lemma ResolveGuarantees(store: Store, ids: seq<string>, ctx: Context)
    ensures ids == [] ==> Resolve(store, ids, ctx) == Success([])
    ensures Resolve(store, ids, ctx).Failure? <==> !AllKnown(ids, store)
    ensures Resolve(store, ids, ctx).Failure? ==>
      Resolve(store, ids, ctx).error.key !in store && Resolve(store, ids, ctx).error.key in ids
    ensures Resolve(store, ids, ctx).Success? ==>
      var r := Resolve(store, ids, ctx).value;
      && AllKnown(r, store)
      && SortedByPrecedence(r, store)
      && AllPass(store, r, ctx)
      && ConflictFree(store, r)
      && (forall x :: x in r ==> x in ids)
  {
    if ids != [] && AllKnown(ids, store) {
      var sorted := SortByPrecedence(ids, store);
      SortByPrecedenceIsStableSort(ids, store, 0);
      ResolvedIsSound(store, sorted, ctx);
      SubseqOfSortedIsSorted(Resolved(store, sorted, ctx), sorted, store);
      SubseqMembers(Resolved(store, sorted, ctx), sorted);
      forall x | x in Resolved(store, sorted, ctx) ensures x in ids {
        assert x in multiset(sorted);
      }
    }
  }

  /** Precedence authority: when clause `a` outranks clause `b`, overrides
      it, and passes its conditions, the pair resolves to `a` alone in
      either candidate order, whatever `b`'s conditions are. */
  lemma PrecedenceAuthority(store: Store, a: string, b: string, ctx: Context)
    requires a in store && b in store && a != b
    requires store[a].precedence < store[b].precedence
    requires b in store[a].overrides && a !in store[b].overrides
    requires CheckConditions(store[a].conditions, ctx)
    ensures Resolve(store, [a, b], ctx) == Success([a])
    ensures Resolve(store, [b, a], ctx) == Success([a])
  {
    SortPair(store, a, b);
    ResolvedPair(store, a, b, ctx);
  }

  lemma SortPair(store: Store, a: string, b: string)
    requires a in store && b in store
    requires store[a].precedence < store[b].precedence
    ensures AllKnown([a, b], store) && AllKnown([b, a], store)
    ensures SortByPrecedence([a, b], store) == [a, b]
    ensures SortByPrecedence([b, a], store) == [a, b]
  {
    assert [a, b][1..] == [b];
    assert [b, a][1..] == [a];
    assert SortByPrecedence([b], store) == [b] by {
      assert [b][1..] == [];
    }
    assert SortByPrecedence([a], store) == [a] by {
      assert [a][1..] == [];
    }
  }

  lemma ResolvedPair(store: Store, a: string, b: string, ctx: Context)
    requires a in store && b in store
    requires b in store[a].overrides && a !in store[b].overrides
    requires CheckConditions(store[a].conditions, ctx)
    ensures AllKnown([a, b], store)
    ensures Resolved(store, [a, b], ctx) == [a]
  {
    var ab := [a, b];
    assert ab[..1] == [a] && ab[1] == b;
    assert [a][..0] == [];
    AdmitUnchallenged(store, a, ctx);
    AdmitOverridden(store, a, b, ctx);
    assert Resolved(store, [a], ctx) == Admit(store, [], a, ctx);
    assert Resolved(store, ab, ctx) == Admit(store, Resolved(store, [a], ctx), b, ctx);
  }

  lemma AdmitUnchallenged(store: Store, a: string, ctx: Context)
    requires a in store && CheckConditions(store[a].conditions, ctx)
    ensures Admit(store, [], a, ctx) == [a]
  {
    assert Unoverridden([], store[a].overrides) == [];
    assert !IsOverridden(store, [], a);
  }

  lemma AdmitOverridden(store: Store, a: string, b: string, ctx: Context)
    requires a in store && b in store
    requires b in store[a].overrides && a !in store[b].overrides
    ensures Admit(store, [a], b, ctx) == [a]
  {
    assert [a][..0] == [] && [a][0] == a;
    assert Unoverridden([a], store[b].overrides) == [a];
    assert IsOverridden(store, [a], b);
  }

  /** Pruning removes nothing when the newcomer overrides no active entry. */
  lemma {:induction false} UnoverriddenNone(active: seq<string>, overrides: seq<string>)
    requires forall i :: 0 <= i < |active| ==> active[i] !in overrides
    ensures Unoverridden(active, overrides) == active
    decreases |active|
  {
    if active != [] {
      var n := |active| - 1;
      UnoverriddenNone(active[..n], overrides);
      assert active == active[..n] + [active[n]];
    }
  }

  /** A candidate that overrides no active entry and that no active entry
      overrides joins the active list exactly when its conditions hold. */
  lemma AdmitBeside(store: Store, active: seq<string>, cid: string, ctx: Context)
    requires cid in store && AllKnown(active, store)
    requires forall i :: 0 <= i < |active| ==> active[i] !in store[cid].overrides
    requires forall i :: 0 <= i < |active| ==> cid !in store[active[i]].overrides
    ensures Admit(store, active, cid, ctx)
      == active + (if CheckConditions(store[cid].conditions, ctx) then [cid] else [])
  {
    UnoverriddenNone(active, store[cid].overrides);
  }

  /** A candidate that overrides no active entry but is overridden by one
      leaves the active list as it is. */
  lemma AdmitSuppressed(store: Store, active: seq<string>, cid: string, ctx: Context, i: int)
    requires cid in store && AllKnown(active, store)
    requires forall t :: 0 <= t < |active| ==> active[t] !in store[cid].overrides
    requires 0 <= i < |active| && cid in store[active[i]].overrides
    ensures Admit(store, active, cid, ctx) == active
  {
    UnoverriddenNone(active, store[cid].overrides);
  }

  /** When no candidate passes its conditions, nothing is admitted. */
  lemma {:induction false} NoneQualify(store: Store, sorted: seq<string>, ctx: Context)
    requires AllKnown(sorted, store)
    requires forall i :: 0 <= i < |sorted| ==> !CheckConditions(store[sorted[i]].conditions, ctx)
    ensures Resolved(store, sorted, ctx) == []
    decreases |sorted|
  {
    if sorted != [] {
      var n := |sorted| - 1;
      NoneQualify(store, sorted[..n], ctx);
      assert Unoverridden([], store[sorted[n]].overrides) == [];
    }
  }

  /** `resolve_conflicts` returns the empty list when every candidate fails
      its conditions. */
  lemma ResolveNoneQualify(store: Store, ids: seq<string>, ctx: Context)
    requires AllKnown(ids, store)
    requires forall i :: 0 <= i < |ids| ==> !CheckConditions(store[ids[i]].conditions, ctx)
    ensures Resolve(store, ids, ctx) == Success([])
  {
    if ids != [] {
      var sorted := SortByPrecedence(ids, store);
      forall i | 0 <= i < |sorted| ensures !CheckConditions(store[sorted[i]].conditions, ctx) {
        assert sorted[i] in multiset(ids);
      }
      NoneQualify(store, sorted, ctx);
    }
  }

  /** Three candidates `a`, `b`, `c` listed in that order, where `c` has the
      highest authority and overrides `b`, and no other override links them:
      `c` comes first, `a` follows when its conditions hold, and `b` is
      suppressed whatever its own conditions say. */
  lemma OutrankedCandidateDropped(store: Store, a: string, b: string, c: string, ctx: Context)
    requires a in store && b in store && c in store
    requires a != b && b != c && a != c
    requires store[c].precedence < store[a].precedence <= store[b].precedence
    requires b in store[c].overrides && a !in store[c].overrides
    requires c !in store[a].overrides && b !in store[a].overrides
    requires a !in store[b].overrides && c !in store[b].overrides
    requires CheckConditions(store[c].conditions, ctx)
    ensures Resolve(store, [a, b, c], ctx)
      == Success([c] + (if CheckConditions(store[a].conditions, ctx) then [a] else []))
  {
    SortTriad(store, a, b, c);
    ResolvedTriad(store, a, b, c, ctx);
  }

  lemma SortTriad(store: Store, a: string, b: string, c: string)
    requires a in store && b in store && c in store
    requires store[c].precedence < store[a].precedence <= store[b].precedence
    ensures AllKnown([a, b, c], store)
    ensures SortByPrecedence([a, b, c], store) == [c, a, b]
  {
    SortTail(b, c, store);
    assert [a, b, c][1..] == [b, c];
    InsertSecond(a, c, b, store);
  }

  /** `sorted([b, c])` when `c` outranks `b`. */
  lemma SortTail(b: string, c: string, store: Store)
    requires b in store && c in store
    requires store[c].precedence < store[b].precedence
    ensures SortByPrecedence([b, c], store) == [c, b]
  {
    assert [b, c][1..] == [c] && [c][1..] == [];
    assert SortByPrecedence([c], store) == [c];
  }

  /** Insertion passes an entry of strictly higher authority and stops in
      front of the next. */
  lemma InsertSecond(x: string, y: string, z: string, store: Store)
    requires x in store && y in store && z in store
    requires store[y].precedence < store[x].precedence <= store[z].precedence
    ensures InsertByPrecedence(x, [y, z], store) == [y, x, z]
  {
    assert [y, z][1..] == [z];
  }

  lemma ResolvedTriad(store: Store, a: string, b: string, c: string, ctx: Context)
    requires a in store && b in store && c in store
    requires b in store[c].overrides && a !in store[c].overrides
    requires c !in store[a].overrides && b !in store[a].overrides
    requires c !in store[b].overrides && a !in store[b].overrides
    requires CheckConditions(store[c].conditions, ctx)
    ensures AllKnown([c, a, b], store)
    ensures Resolved(store, [c, a, b], ctx)
      == [c] + (if CheckConditions(store[a].conditions, ctx) then [a] else [])
  {
    assert [c, a, b][..2] == [c, a];
    ResolvedIndependentPair(store, a, c, ctx);
    var active := [c] + (if CheckConditions(store[a].conditions, ctx) then [a] else []);
    AdmitSuppressed(store, active, b, ctx, 0);
  }

  /** The first two steps of `ResolvedTriad`: `c` is admitted, then `a`
      beside it when its conditions hold. */
  lemma ResolvedIndependentPair(store: Store, a: string, c: string, ctx: Context)
    requires a in store && c in store
    requires a !in store[c].overrides && c !in store[a].overrides
    requires CheckConditions(store[c].conditions, ctx)
    ensures AllKnown([c, a], store)
    ensures Resolved(store, [c, a], ctx)
      == [c] + (if CheckConditions(store[a].conditions, ctx) then [a] else [])
  {
    var ca := [c, a];
    assert ca[..1] == [c] && ca[1] == a;
    assert [c][..0] == [];
    AdmitBeside(store, [], c, ctx);
    assert Resolved(store, [c], ctx) == Admit(store, [], c, ctx);
    AdmitBeside(store, [c], a, ctx);
    assert Resolved(store, ca, ctx) == Admit(store, Resolved(store, [c], ctx), a, ctx);
  }

  /** Two clauses that agree on what conflict resolution reads. */
  ghost predicate SameAuthority(c: Clause, d: Clause) {
    c.precedence == d.precedence && c.conditions == d.conditions && c.overrides == d.overrides
  }

  ghost predicate AuthorityEquivalent(s1: Store, s2: Store) {
    && s1.Keys == s2.Keys
    && forall k :: k in s1 ==> SameAuthority(s1[k], s2[k])
  }

  lemma {:induction false} SortOnlyReadsPrecedence(ids: seq<string>, s1: Store, s2: Store)
    requires AuthorityEquivalent(s1, s2) && AllKnown(ids, s1)
    ensures AllKnown(ids, s2) && SortByPrecedence(ids, s1) == SortByPrecedence(ids, s2)
    decreases |ids|
  {
    if ids != [] {
      SortOnlyReadsPrecedence(ids[1..], s1, s2);
      InsertOnlyReadsPrecedence(ids[0], SortByPrecedence(ids[1..], s1), s1, s2);
    }
  }

  lemma {:induction false} InsertOnlyReadsPrecedence(x: string, s: seq<string>, s1: Store, s2: Store)
    requires AuthorityEquivalent(s1, s2) && x in s1 && AllKnown(s, s1)
    ensures AllKnown(s, s2) && InsertByPrecedence(x, s, s1) == InsertByPrecedence(x, s, s2)
    decreases |s|
  {
    if s != [] {
      InsertOnlyReadsPrecedence(x, s[1..], s1, s2);
    }
  }

  lemma {:induction false} ResolvedOnlyReadsAuthority(sorted: seq<string>, s1: Store, s2: Store, ctx: Context)
    requires AuthorityEquivalent(s1, s2) && AllKnown(sorted, s1)
    ensures AllKnown(sorted, s2) && Resolved(s1, sorted, ctx) == Resolved(s2, sorted, ctx)
    decreases |sorted|
  {
    if sorted != [] {
      var n := |sorted| - 1;
      ResolvedOnlyReadsAuthority(sorted[..n], s1, s2, ctx);
      var cid := sorted[n];
      var pruned := Unoverridden(Resolved(s1, sorted[..n], ctx), s1[cid].overrides);
      assert IsOverridden(s1, pruned, cid) == IsOverridden(s2, pruned, cid);
    }
  }

  /** Only precedence, conditions and `overrides` matter: changing any other
      field of any clause (the other five relation lists, title, rule,
      category) never changes the outcome of conflict resolution. */
  lemma OnlyOverridesMatter(s1: Store, s2: Store, ids: seq<string>, ctx: Context)
    requires AuthorityEquivalent(s1, s2)
    ensures Resolve(s1, ids, ctx) == Resolve(s2, ids, ctx)
  {
    if ids != [] && AllKnown(ids, s1) {
      SortOnlyReadsPrecedence(ids, s1, s2);
      ResolvedOnlyReadsAuthority(SortByPrecedence(ids, s1), s1, s2, ctx);
    } else if ids != [] {
      FirstUnknownSameKeys(ids, s1, s2);
    }
  }

  lemma {:induction false} FirstUnknownSameKeys(ids: seq<string>, s1: Store, s2: Store)
    requires s1.Keys == s2.Keys
    ensures FirstUnknown(ids, s1) == FirstUnknown(ids, s2)
    decreases |ids|
  {
    if ids != [] {
      FirstUnknownSameKeys(ids[1..], s1, s2);
    }
  }
}
