/** The three strategies answer alike while nothing expires. */
module Equivalence {
  import opened Basics
  import opened Expiries
  import opened AliasIndex
  import opened RecordTable
  import opened TableRefinement
  import opened Runs
  import Colocated
  import Sharded
  import M = MemStore
  import Col = ColocatedRefinement
  import Sh = ShardedRefinement
  import Mem = MemRefinement

  function OpInMillis(op: Op): Op {
    match op
    case PutValueOp(pk, val, ttl) => PutValueOp(pk, val, Millis(ttl))
    case PutByAliasOp(pk, ref, val, ttl) => PutByAliasOp(pk, ref, val, Millis(ttl))
    case _ => op
  }

  function CallInMillis(c: Call): Call {
    Call(OpInMillis(c.op), ClockMillis(c.at), ClockMillis(c.later), ClockMillis(c.latest))
  }

  /** The run as the Redis strategies see it. */
  function InMillis(cs: seq<Call>): (r: seq<Call>)
    ensures |r| == |cs|
  {
    if cs == [] then [] else InMillis(cs[..|cs| - 1]) + [CallInMillis(cs[|cs| - 1])]
  }

  lemma {:induction false} InMillisAt(cs: seq<Call>, i: nat)
    requires i < |cs|
    ensures InMillis(cs)[i] == CallInMillis(cs[i])
  {
    if i < |cs| - 1 {
      InMillisAt(cs[..|cs| - 1], i);
    }
  }

  /** No expiry this call sets, in either unit, falls before end. */
  predicate Outlasts(c: Call, end: int) {
    match c.op
    case PutValueOp(_, _, ttl) => TtlOutlasts(c.at, ttl, end)
    case PutByAliasOp(_, _, _, ttl) => TtlOutlasts(c.at, ttl, end)
    case _ => true
  }

  predicate TtlOutlasts(at: int, ttl: int, end: int) {
    && LiveAt(Expiry(at, ttl), end)
    && LiveAt(Expiry(ClockMillis(at), Millis(ttl)), ClockMillis(end))
  }

  /** The run is over by end, and nothing it stores expires before end. */
  ghost predicate NothingExpires(cs: seq<Call>, end: int) {
    forall i :: 0 <= i < |cs| ==> InOrder(cs[i]) && cs[i].latest <= end && Outlasts(cs[i], end)
  }

  /** Every eviction by alias uses an alias that resolves at that point. */
  ghost predicate EvictsResolvingAliases(cs: seq<Call>) {
    forall i :: 0 <= i < |cs| && cs[i].op.EvictByAliasOp? ==> Owner(LastingTableAfter(cs[..i]), cs[i].op.ref).Some?
  }

  // ---- nothing expires: the lasting table and the expiring table have the same content ----

  ghost predicate TableLasts(t: Table, end: int) {
    forall p :: p in t ==> LiveAt(t[p].exp, end)
  }

  lemma SameOwners(t: Table, u: Table, r: Ref)
    requires SameContent(t, u) && OneOwner(t)
    ensures OneOwner(u) && Owner(t, r) == Owner(u, r)
  {
    assert forall p, s :: Owns(t, p, s) <==> Owns(u, p, s);
  }

  lemma PutByAliasSameContent(t: Table, u: Table, pk: string, r: Ref, val: string, e: Option<int>, f: Option<int>)
    requires SameContent(t, u)
    ensures SameContent(TPutByAlias(t, pk, r, val, e), TPutByAlias(u, pk, r, val, f))
  {
  }

  lemma OpSameContent(t: Table, u: Table, c: Call, end: int)
    requires SameContent(t, u) && OneOwner(t) && TableLasts(u, ClockMillis(end))
    requires Outlasts(c, end)
    ensures SameContent(TableOp(t, c.op, c.at), TableOp(u, OpInMillis(c.op), ClockMillis(c.at)))
    ensures TableLasts(TableOp(u, OpInMillis(c.op), ClockMillis(c.at)), ClockMillis(end))
  {
    match c.op
    case PutByAliasOp(pk, ref, val, ttl) =>
      PutByAliasSameContent(t, u, pk, ref, val, Expiry(c.at, ttl), Expiry(ClockMillis(c.at), Millis(ttl)));
    case EvictByAliasOp(ref) => SameOwners(t, u, ref);
    case _ =>
  }

  lemma {:induction false} TablesAgree(cs: seq<Call>, end: int)
    requires NothingExpires(cs, end)
    ensures SameContent(LastingTableAfter(cs), TableAfter(InMillis(cs)))
    ensures TableLasts(TableAfter(InMillis(cs)), ClockMillis(end))
  {
    if cs != [] {
      var c, before := cs[|cs| - 1], cs[..|cs| - 1];
      TablesAgree(before, end);
      var ms := InMillis(cs);
      assert ms[..|ms| - 1] == InMillis(before);
      var u := TableAfter(InMillis(before));
      assert ClockMillis(c.at) <= ClockMillis(end);
      assert TExpire(u, ClockMillis(c.at)) == u;
      Mem.EveryRunAgrees(before);
      CarriesOneOwner(Mem.After(before), LastingTableAfter(before));
      OpSameContent(LastingTableAfter(before), u, c, end);
    }
  }

  // ---- nothing expires: the sharded index serves every alias of the table ----

  ghost predicate IndexLasts(ix: Index, end: int) {
    && (forall p :: p in ix.values ==> LiveAt(ix.values[p].exp, end))
    && (forall p :: p in ix.members ==> LiveAt(ix.members[p].exp, end))
    && (forall r :: r in ix.pointers ==> LiveAt(ix.pointers[r].exp, end))
  }

  lemma PurgeIsIdle(ix: Index, now: int, end: int)
    requires IndexLasts(ix, end) && now <= end
    ensures Purge(ix, now) == ix
  {
  }

  ghost predicate ShardedAgrees(ix: Index, t: Table, end: int) {
    Sh.Within(ix, t) && Sh.Complete(ix, t) && IndexLasts(ix, end)
  }

  lemma ShardedStepAgrees(ix: Index, t: Table, c: Call, end: int)
    requires ShardedAgrees(ix, t, end) && OneOwner(t) && TableLasts(t, end) && c.at <= end
    requires match c.op
             case PutValueOp(_, _, ttl) => LiveAt(Expiry(c.at, ttl), end)
             case PutByAliasOp(_, _, _, ttl) => LiveAt(Expiry(c.at, ttl), end)
             case EvictByAliasOp(ref) => Owner(t, ref).Some?
             case _ => true
    ensures ShardedAgrees(Sh.Step(ix, c), TableOp(TExpire(t, c.at), c.op, c.at), end)
  {
    PurgeIsIdle(ix, c.at, end);
    assert TExpire(t, c.at) == t;
    match c.op
    case PutValueOp(pk, val, ttl) => Sh.PutValueWithin(ix, t, pk, val, Expiry(c.at, ttl));
    case PutByAliasOp(pk, ref, val, ttl) => Sh.PutWithin(ix, t, pk, ref, val, Expiry(c.at, ttl));
    case EvictByPrimaryOp(pk) => Sh.EvictWithin(ix, t, pk);
    case EvictByAliasOp(ref) =>
      var pk := Owner(t, ref).value;
      assert Sh.Resolves(ix, ref, pk);
      Sh.EvictWithin(ix, t, pk);
    case EvictByPrefixOp(prefix) => Sh.EvictMatchingWithin(ix, t, prefix);
  }

  lemma {:induction false} EveryShardedRunAgrees(cs: seq<Call>, end: int)
    requires NothingExpires(cs, end) && EvictsResolvingAliases(cs)
    ensures ShardedAgrees(Sh.After(InMillis(cs)), TableAfter(InMillis(cs)), ClockMillis(end))
  {
    if cs != [] {
      var c, before := cs[|cs| - 1], cs[..|cs| - 1];
      assert forall i :: 0 <= i < |before| ==> before[..i] == cs[..i];
      EveryShardedRunAgrees(before, end);
      TablesAgree(before, end);
      Col.EveryRunAgrees(InMillis(before));
      CarriesOneOwner(Col.After(InMillis(before)), TableAfter(InMillis(before)));
      Mem.EveryRunAgrees(before);
      CarriesOneOwner(Mem.After(before), LastingTableAfter(before));
      var ms := InMillis(cs);
      assert ms[..|ms| - 1] == InMillis(before);
      if c.op.EvictByAliasOp? {
        SameOwners(LastingTableAfter(before), TableAfter(InMillis(before)), c.op.ref);
        assert before == cs[..|cs| - 1];
      }
      ShardedStepAgrees(Sh.After(InMillis(before)), TableAfter(InMillis(before)), CallInMillis(c), ClockMillis(end));
    }
  }

  /** Started empty and given the same run, in which nothing expires and evictions by alias use
      aliases that resolve, the three strategies answer every read alike. */
  lemma ThreeWay(cs: seq<Call>, end: int, pk: string, r: Ref, at: int, later: int, latest: int)
    requires NothingExpires(cs, end) && EvictsResolvingAliases(cs)
    requires at <= later <= latest <= end
    ensures var col := Purge(Col.After(InMillis(cs)), ClockMillis(latest));
            var sh := Purge(Sh.After(InMillis(cs)), ClockMillis(latest));
            && M.MemGetValue(Mem.After(cs), pk, latest) == Colocated.ReadValue(col, pk) == Sharded.ReadValue(sh, pk)
            && M.MemGetByAlias(Mem.After(cs), r, at, later, latest)
               == Colocated.UnvalidatedGet(col, r) == Sharded.Get(sh, r)
  {
    var now := ClockMillis(latest);
    var t, u := LastingTableAfter(cs), TableAfter(InMillis(cs));
    TablesAgree(cs, end);
    Mem.EveryRunAgrees(cs);
    CarriesOneOwner(Mem.After(cs), t);
    SameOwners(t, u, r);
    assert TExpire(u, now) == u;
    Col.EveryReadAgrees(InMillis(cs), now, pk, r);
    EveryShardedRunAgrees(cs, end);
    PurgeIsIdle(Sh.After(InMillis(cs)), now, ClockMillis(end));
    Sh.ReadWithin(Sh.After(InMillis(cs)), u, r);
    Mem.EveryReadAgrees(cs, pk, r, latest, latest, latest);
    Mem.EveryReadAgrees(cs, pk, r, at, later, latest);
    LastingReads(cs, t, u, pk, r, end, latest);
  }

  lemma {:induction false} LastingTableLasts(cs: seq<Call>, end: int)
    requires NothingExpires(cs, end)
    ensures TableLasts(LastingTableAfter(cs), end)
  {
    if cs != [] {
      LastingTableLasts(cs[..|cs| - 1], end);
    }
  }

  lemma LastingReads(cs: seq<Call>, t: Table, u: Table, pk: string, r: Ref, end: int, latest: int)
    requires NothingExpires(cs, end) && t == LastingTableAfter(cs) && latest <= end
    requires SameContent(t, u) && OneOwner(t)
    ensures Mem.LastingGet(t, pk, latest) == TGetValue(u, pk)
    ensures Mem.LastingGetByAlias(t, r, latest) == TGetByAlias(u, r)
  {
    LastingTableLasts(cs, end);
    SameOwners(t, u, r);
  }

  /** With any TTLs, and evictions by alias that take the record the alias belongs to, a sharded
      alias hit is a colocated alias hit with the same bytes, and sharded misses where colocated hits
      exactly when its pointer, which only registrations refresh, has run out. */
  lemma ShardedHitsAreColocatedHits(cs: seq<Call>, now: int, r: Ref)
    requires Sh.EvictsRightly(cs)
    ensures var sh, col := Purge(Sh.After(cs), now), Purge(Col.After(cs), now);
            && (Sharded.Get(sh, r).Some? ==> Colocated.UnvalidatedGet(col, r) == Sharded.Get(sh, r))
            && (Sharded.Get(sh, r) == Colocated.UnvalidatedGet(col, r) <==>
                (Colocated.UnvalidatedGet(col, r).Some? ==> r in sh.pointers))
            && (forall pk :: Sharded.ReadValue(sh, pk) == Colocated.ReadValue(col, pk))
  {
    var t := TExpire(TableAfter(cs), now);
    Sh.EveryRunWithinAt(cs, now);
    Col.EveryRunAgrees(cs);
    Col.PurgeAgrees(Col.After(cs), TableAfter(cs), now);
    Sh.ReadWithin(Purge(Sh.After(cs), now), t, r);
    Col.ReadsAgree(Purge(Col.After(cs), now), t, r);
    KnownPointersResolve(Purge(Sh.After(cs), now), t, r);
  }

  /** Where the table's alias still has its pointer, the validated read serves it. */
  lemma KnownPointersResolve(ix: Index, t: Table, r: Ref)
    requires Sh.Agrees(ix, t)
    ensures TGetByAlias(t, r).Some? ==> (Sharded.Get(ix, r) == TGetByAlias(t, r) <==> r in ix.pointers)
  {
    if Owner(t, r).Some? && r in ix.pointers {
      var p := Owner(t, r).value;
      assert Owns(t, p, r) && Member(ix, p, r) && ix.pointers[r].val == p;
    }
  }
}
