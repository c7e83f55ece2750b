/** Where the strategies differ, and exactly when. */
module Differences {
  import opened Basics
  import opened Expiries
  import opened AliasIndex
  import opened RecordTable
  import opened TableRefinement
  import opened Runs
  import Colocated
  import Sharded
  import M = MemStore
  import Col = ColocatedRefinement
  import Sh = ShardedRefinement
  import Mem = MemRefinement

  /** After any run whose evictions by alias have been right so far, one more sharded eviction by
      alias does what the table means exactly when the pointer's target, if it has a value, names the
      alias in its members hash, and otherwise nobody owns the alias. */
  lemma ShardedEvictByAliasIsRightIff(cs: seq<Call>, now: int, r: Ref)
    requires Sh.EvictsRightly(cs)
    ensures var ix, t := Purge(Sh.After(cs), now), TExpire(TableAfter(cs), now);
            Sh.Within(Sharded.EvictThrough(ix, r), TEvictByAlias(t, r)) <==> Sh.RightEviction(ix, t, r)
  {
    Sh.EveryRunWithinAt(cs, now);
    Sh.RightEvictionIff(Purge(Sh.After(cs), now), TExpire(TableAfter(cs), now), r);
  }

  // ---- runs, one call at a time ----

  lemma RunsGrow(cs: seq<Call>, c: Call)
    ensures Sh.After(cs + [c]) == Sh.Step(Sh.After(cs), c)
    ensures TableAfter(cs + [c]) == TableOp(TExpire(TableAfter(cs), c.at), c.op, c.at)
    ensures LastingTableAfter(cs + [c]) == TableOp(LastingTableAfter(cs), c.op, c.at)
  {
    assert (cs + [c])[..|cs|] == cs;
  }

  function PutCall(pk: string, r: Ref, val: string, ttl: int): Call {
    Call(PutByAliasOp(pk, r, val, ttl), 0, 0, 0)
  }

  /** One record, its field first a, then b. */
  function Replaced(pk: string, field: string, a: string, b: string, val: string): seq<Call> {
    [PutCall(pk, Ref(field, a), val, 0)] + [PutCall(pk, Ref(field, b), val, 0)]
  }

  function EvictCall(r: Ref, at: int): Call {
    Call(EvictByAliasOp(r), at, at, at)
  }

  /** After any run, sharded evicts whatever record the pointer leads to, and nothing without one... */
  lemma ShardedEvictsThroughPointer(cs: seq<Call>, r: Ref, at: int, pk: string)
    ensures var ix := Purge(Sh.After(cs), at);
            && (PointsTo(ix, r, pk) ==> Sharded.ReadValue(Sh.After(cs + [EvictCall(r, at)]), pk) == None)
            && (r !in ix.pointers ==> Sh.After(cs + [EvictCall(r, at)]) == ix)
  {
    RunsGrow(cs, EvictCall(r, at));
  }

  /** ...while colocated evicts exactly the alias's owner. */
  lemma ColocatedEvictsOwnersOnly(cs: seq<Call>, r: Ref, at: int, pk: string)
    ensures Colocated.ReadValue(Purge(Col.After(cs + [EvictCall(r, at)]), at), pk) ==
            if Owner(TExpire(TableAfter(cs), at), r) == Some(pk) then None
            else Colocated.ReadValue(Purge(Col.After(cs), at), pk)
  {
    RunsGrow(cs, EvictCall(r, at));
    Col.EveryReadAgrees(cs + [EvictCall(r, at)], at, pk, r);
    Col.EveryReadAgrees(cs, at, pk, r);
    ExpiringTwice(TableAfter(cs), at, pk);
    EvictedThenRead(TExpire(TableAfter(cs), at), r, at, pk);
  }

  lemma EvictedThenRead(t: Table, r: Ref, now: int, pk: string)
    ensures TGetValue(TExpire(TEvictByAlias(t, r), now), pk) ==
            if Owner(t, r) == Some(pk) then None else TGetValue(TExpire(t, now), pk)
  {
  }

  lemma ExpiringTwice(t: Table, now: int, pk: string)
    ensures TGetValue(TExpire(TExpire(t, now), now), pk) == TGetValue(TExpire(t, now), pk)
  {
  }

  /** A record whose field was replaced, evicted through the old alias: gone in sharded, kept in
      colocated. */
  lemma StaleAliasEvictsOnlyInSharded(pk: string, field: string, a: string, b: string, val: string)
    requires a != b
    ensures var cs := Replaced(pk, field, a, b, val) + [EvictCall(Ref(field, a), 0)];
            && Sharded.ReadValue(Sh.After(cs), pk) == None
            && Colocated.ReadValue(Purge(Col.After(cs), 0), pk) == Some(val)
  {
    var before := Replaced(pk, field, a, b, val);
    ShardedKeepsStalePointer(pk, field, a, b, val);
    ShardedEvictsThroughPointer(before, Ref(field, a), 0, pk);
    TableForgetsReplaced(pk, field, a, b, val);
    ColocatedEvictsOwnersOnly(before, Ref(field, a), 0, pk);
    Col.EveryReadAgrees(before, 0, pk, Ref(field, a));
  }

  lemma ShardedKeepsStalePointer(pk: string, field: string, a: string, b: string, val: string)
    requires a != b
    ensures PointsTo(Purge(Sh.After(Replaced(pk, field, a, b, val)), 0), Ref(field, a), pk)
  {
    var c1, c2 := PutCall(pk, Ref(field, a), val, 0), PutCall(pk, Ref(field, b), val, 0);
    RunsGrow([], c1);
    RunsGrow([c1], c2);
    assert [] + [c1] == [c1];
    var s1 := Sh.Step(EMPTY, c1);
    assert s1.pointers[Ref(field, a)] == Entry(pk, None);
  }

  lemma TableForgetsReplaced(pk: string, field: string, a: string, b: string, val: string)
    requires a != b
    ensures var t := TExpire(TableAfter(Replaced(pk, field, a, b, val)), 0);
            pk in t && t[pk].val == val && t[pk].exp == None && Owner(t, Ref(field, a)) == None
  {
    var c1, c2 := PutCall(pk, Ref(field, a), val, 0), PutCall(pk, Ref(field, b), val, 0);
    RunsGrow([], c1);
    RunsGrow([c1], c2);
    assert [] + [c1] == [c1];
    var t1 := TExpire(TableAfter([c1]), 0);
    var t := TExpire(TPutByAlias(t1, pk, Ref(field, b), val, None), 0);
    forall p ensures !Owns(t, p, Ref(field, a)) {
      PutByAliasOwns(t1, pk, Ref(field, b), val, None, p, Ref(field, a));
      OnlyOwner(pk, Ref(field, a), val, None, p);
    }
  }

  /** After one put into an empty table, nobody else owns the alias. */
  lemma OnlyOwner(pk: string, r: Ref, val: string, exp: Option<int>, p: string)
    ensures p != pk ==> p !in TPutByAlias(map[], pk, r, val, exp)
  {
  }

  // ---- a pointer that ran out before its record ----

  /** An alias registered for 10, and its record written without expiry at 5. */
  function Outlived(pk: string, r: Ref, v: string, w: string): seq<Call> {
    [PutCall(pk, r, v, 10)] + [Call(PutValueOp(pk, w, 0), 5, 5, 5)]
  }

  lemma ShardedPointerRunsOut(pk: string, r: Ref, v: string, w: string)
    ensures var ix := Purge(Sh.After(Outlived(pk, r, v, w)), 20);
            r !in ix.pointers && Sharded.ReadValue(ix, pk) == Some(w)
  {
    var c1, c2 := PutCall(pk, r, v, 10), Call(PutValueOp(pk, w, 0), 5, 5, 5);
    RunsGrow([], c1);
    RunsGrow([c1], c2);
    assert [] + [c1] == [c1];
    assert Sh.Step(EMPTY, c1).pointers == map[r := Entry(pk, Some(10))];
  }

  lemma TableKeepsOutlived(pk: string, r: Ref, v: string, w: string)
    ensures var t := TExpire(TableAfter(Outlived(pk, r, v, w)), 20);
            Owner(t, r) == Some(pk) && t[pk].val == w && t == map[pk := t[pk]]
  {
    var c1, c2 := PutCall(pk, r, v, 10), Call(PutValueOp(pk, w, 0), 5, 5, 5);
    RunsGrow([], c1);
    RunsGrow([c1], c2);
    assert [] + [c1] == [c1];
    OutlivedOwner(pk, r, v, w);
  }

  lemma OutlivedOwner(pk: string, r: Ref, v: string, w: string)
    ensures var t := TExpire(TPutValue(TExpire(TPutByAlias(map[], pk, r, v, Some(10)), 5), pk, w, None), 20);
            Owner(t, r) == Some(pk) && t[pk].val == w && t == map[pk := t[pk]]
  {
    var t := TExpire(TPutValue(TExpire(TPutByAlias(map[], pk, r, v, Some(10)), 5), pk, w, None), 20);
    PutByAliasOwns(map[], pk, r, v, Some(10), pk, r);
    assert Owns(t, pk, r);
    OneRecordOneOwner(t, pk);
    OwnerIs(t, pk, r);
  }

  /** Sharded misses by the alias where colocated, which refreshed the pointer, hits. */
  lemma ShardedMissesOutlivedAlias(pk: string, r: Ref, v: string, w: string)
    ensures var cs := Outlived(pk, r, v, w);
            && Sharded.Get(Purge(Sh.After(cs), 20), r) == None
            && Colocated.UnvalidatedGet(Purge(Col.After(cs), 20), r) == Some(w)
  {
    ShardedPointerRunsOut(pk, r, v, w);
    TableKeepsOutlived(pk, r, v, w);
    Col.EveryReadAgrees(Outlived(pk, r, v, w), 20, pk, r);
  }

  /** And evicted through the alias, the record stays in sharded and goes in colocated. */
  lemma OutlivedAliasEvictsOnlyInColocated(pk: string, r: Ref, v: string, w: string)
    ensures var cs := Outlived(pk, r, v, w) + [EvictCall(r, 20)];
            && Sharded.ReadValue(Sh.After(cs), pk) == Some(w)
            && Colocated.ReadValue(Purge(Col.After(cs), 20), pk) == None
  {
    ShardedPointerRunsOut(pk, r, v, w);
    ShardedEvictsThroughPointer(Outlived(pk, r, v, w), r, 20, pk);
    TableKeepsOutlived(pk, r, v, w);
    ColocatedEvictsOwnersOnly(Outlived(pk, r, v, w), r, 20, pk);
  }

  /** A record with an alias is written with TTL 1, expires, and its value alone is written again
      at time 2: memstore serves the alias again; Redis has forgotten it. */
  lemma MemRevivesExpiredAlias(pk: string, r: Ref, v: string, w: string)
    ensures var cs := [PutCall(pk, r, v, 1)] + [Call(PutValueOp(pk, w, 0), 2, 2, 2)];
            && M.MemGetByAlias(Mem.After(cs), r, 2, 2, 2) == Some(w)
            && Colocated.UnvalidatedGet(Purge(Col.After(cs), 2), r) == None
  {
    var c1, c2 := PutCall(pk, r, v, 1), Call(PutValueOp(pk, w, 0), 2, 2, 2);
    var cs := [c1] + [c2];
    RunsGrow([], c1);
    RunsGrow([c1], c2);
    assert [] + [c1] == [c1];
    Mem.EveryReadAgrees(cs, pk, r, 2, 2, 2);
    Col.EveryReadAgrees(cs, 2, pk, r);
    LastingTableRemembers(pk, r, v, w);
    TableForgets(pk, r, v, w);
  }

  lemma LastingTableRemembers(pk: string, r: Ref, v: string, w: string)
    ensures Mem.LastingGetByAlias(TPutValue(TPutByAlias(map[], pk, r, v, Some(1)), pk, w, None), r, 2) == Some(w)
  {
    var t := TPutByAlias(map[], pk, r, v, Some(1));
    var t' := TPutValue(t, pk, w, None);
    PutByAliasOwns(map[], pk, r, v, Some(1), pk, r);
    assert Owns(t', pk, r);
    forall p | Owns(t', p, r) ensures p == pk {
      OnlyOwner(pk, r, v, Some(1), p);
    }
    OwnerIs(t', pk, r) by { assert Owns(t', pk, r); OneRecordOneOwner(t', pk); }
  }

  lemma OneRecordOneOwner(t: Table, pk: string)
    requires forall p :: p in t ==> p == pk
    ensures OneOwner(t)
  {
  }

  lemma TableForgets(pk: string, r: Ref, v: string, w: string)
    ensures TExpire(TPutByAlias(map[], pk, r, v, Some(1)), 2) == map[]
    ensures TGetByAlias(TExpire(TPutValue(map[], pk, w, None), 2), r) == None
  {
    var t := TExpire(TPutValue(map[], pk, w, None), 2);
    assert forall p :: !Owns(t, p, r);
  }
}
