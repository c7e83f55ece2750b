/** Sequential runs of one alias group: what the strategies' callers do, and when. */
module Runs {
  import opened Basics
  import opened Expiries
  import opened Keyspace
  import opened AliasIndex
  import opened RecordTable

  datatype Op =
    | PutValueOp(pk: string, val: string, ttl: int)
    | PutByAliasOp(pk: string, ref: Ref, val: string, ttl: int)
    | EvictByPrimaryOp(pk: string)
    | EvictByAliasOp(ref: Ref)
    | EvictByPrefixOp(prefix: string)

  /** One call and the clock readings taken while it runs, in order. */
  datatype Call = Call(op: Op, at: int, later: int, latest: int)

  predicate InOrder(c: Call) {
    c.at <= c.later <= c.latest
  }

  /** The clock never runs backwards between calls, and reads now. */
  ghost predicate InTime(cs: seq<Call>, now: int) {
    && (forall i, j :: 0 <= i < j < |cs| ==> cs[i].at <= cs[j].at)
    && (forall i :: 0 <= i < |cs| ==> cs[i].at <= now)
  }

  predicate GoodOp(op: Op) {
    match op
    case PutByAliasOp(_, ref, _, _) => GoodField(ref.field)
    case EvictByAliasOp(ref) => GoodField(ref.field)
    case _ => true
  }

  ghost predicate GoodCalls(cs: seq<Call>) {
    forall i :: 0 <= i < |cs| ==> GoodOp(cs[i].op) && InOrder(cs[i])
  }

  /** What an operation means on the record table. */
  ghost function TableOp(t: Table, op: Op, now: int): Table {
    match op
    case PutValueOp(pk, val, ttl) => TPutValue(t, pk, val, Expiry(now, ttl))
    case PutByAliasOp(pk, ref, val, ttl) => TPutByAlias(t, pk, ref, val, Expiry(now, ttl))
    case EvictByPrimaryOp(pk) => TEvict(t, pk)
    case EvictByAliasOp(ref) => TEvictByAlias(t, ref)
    case EvictByPrefixOp(prefix) => TEvictByPrefix(t, prefix)
  }

  /** The table after a run in which expired records are gone for good. */
  ghost function TableAfter(cs: seq<Call>): Table {
    if cs == [] then map[]
    else var c := cs[|cs| - 1];
         TableOp(TExpire(TableAfter(cs[..|cs| - 1]), c.at), c.op, c.at)
  }

  /** The table after a run in which an expired record is only hidden from readers. */
  ghost function LastingTableAfter(cs: seq<Call>): Table {
    if cs == [] then map[]
    else var c := cs[|cs| - 1];
         TableOp(LastingTableAfter(cs[..|cs| - 1]), c.op, c.at)
  }
}

/** Runs of the colocated strategy agree with the record table at every time. */
module ColocatedRefinement {
  import opened Basics
  import opened Expiries
  import opened AliasIndex
  import opened AliasInverse
  import opened RecordTable
  import opened TableRefinement
  import opened Lifetimes
  import opened BulkIndex
  import opened Runs
  import Colocated

  /** One colocated call: the clock moves, then one script runs. */
  function Step(ix: Index, c: Call): Index {
    var live := Purge(ix, c.at);
    match c.op
    case PutValueOp(pk, val, ttl) => Colocated.Put(live, pk, None, val, Expiry(c.at, ttl))
    case PutByAliasOp(pk, ref, val, ttl) => Colocated.Put(live, pk, Some(ref), val, Expiry(c.at, ttl))
    case EvictByPrimaryOp(pk) => Evict(live, pk)
    case EvictByAliasOp(ref) => EvictByAlias(live, ref)
    case EvictByPrefixOp(prefix) => EvictAll(live, Matching(live, prefix))
  }

  function After(cs: seq<Call>): Index {
    if cs == [] then EMPTY else Step(After(cs[..|cs| - 1]), cs[|cs| - 1])
  }

  /** The index carries the table and each record has a single lifetime. */
  ghost predicate Agrees(ix: Index, t: Table) {
    Carries(ix, t) && OneExpiry(ix)
  }

  /** Because a record's items share one lifetime, expiry removes whole records. */
  lemma PurgeAgrees(ix: Index, t: Table, now: int)
    requires Agrees(ix, t)
    ensures Agrees(Purge(ix, now), TExpire(t, now))
  {
    var ix', t' := Purge(ix, now), TExpire(t, now);
    forall p, r
      ensures Member(ix', p, r) <==> p in t' && Member(ix, p, r)
      ensures PointsTo(ix', r, p) <==> p in t' && PointsTo(ix, r, p)
      ensures Owns(t', p, r) <==> p in t' && Owns(t, p, r)
    {
      assert Member(ix, p, r) <==> PointsTo(ix, r, p);
    }
    forall p, r
      ensures Member(ix', p, r) <==> Owns(t', p, r)
      ensures Member(ix', p, r) <==> PointsTo(ix', r, p)
    {
      assert Member(ix, p, r) <==> Owns(t, p, r);
      assert Member(ix, p, r) <==> PointsTo(ix, r, p);
    }
  }

  lemma OpAgrees(ix: Index, t: Table, c: Call)
    requires Agrees(Purge(ix, c.at), TExpire(t, c.at))
    ensures Agrees(Step(ix, c), TableOp(TExpire(t, c.at), c.op, c.at))
  {
    var live, tlive := Purge(ix, c.at), TExpire(t, c.at);
    match c.op
    case PutValueOp(pk, val, ttl) =>
      PutValueCarries(live, tlive, pk, val, Expiry(c.at, ttl), Expiry(c.at, ttl));
      PutValueLifetime(live, pk, val, Expiry(c.at, ttl), Expiry(c.at, ttl));
    case PutByAliasOp(pk, ref, val, ttl) =>
      PutByAliasCarries(live, tlive, pk, ref, val, false, Expiry(c.at, ttl), Expiry(c.at, ttl));
      PutByAliasLifetime(live, pk, ref, val, false, Expiry(c.at, ttl), Expiry(c.at, ttl));
    case EvictByPrimaryOp(pk) =>
      EvictCarries(live, tlive, pk);
      EvictLifetime(live, pk);
    case EvictByAliasOp(ref) =>
      PointerOwner(live, tlive, ref);
      if ref in live.pointers {
        EvictCarries(live, tlive, live.pointers[ref].val);
        EvictLifetime(live, live.pointers[ref].val);
      }
    case EvictByPrefixOp(prefix) =>
      EvictMatchingCarries(live, tlive, prefix);
      EvictAllLifetime(live, Matching(live, prefix));
  }

  /** In every run the colocated indexes carry exactly the record table, expiry included. */
  lemma {:induction false} EveryRunAgrees(cs: seq<Call>)
    ensures Agrees(After(cs), TableAfter(cs))
  {
    if cs != [] {
      var c := cs[|cs| - 1];
      EveryRunAgrees(cs[..|cs| - 1]);
      PurgeAgrees(After(cs[..|cs| - 1]), TableAfter(cs[..|cs| - 1]), c.at);
      OpAgrees(After(cs[..|cs| - 1]), TableAfter(cs[..|cs| - 1]), c);
    }
  }

  /** At every time in every run, each read answers what the record table answers. */
  lemma EveryReadAgrees(cs: seq<Call>, now: int, pk: string, ref: Ref)
    ensures Colocated.ReadValue(Purge(After(cs), now), pk) == TGetValue(TExpire(TableAfter(cs), now), pk)
    ensures Colocated.UnvalidatedGet(Purge(After(cs), now), ref) == TGetByAlias(TExpire(TableAfter(cs), now), ref)
  {
    EveryRunAgrees(cs);
    PurgeAgrees(After(cs), TableAfter(cs), now);
    ReadsAgree(Purge(After(cs), now), TExpire(TableAfter(cs), now), ref);
  }

  lemma ReadsAgree(ix: Index, t: Table, ref: Ref)
    requires Agrees(ix, t)
    ensures Colocated.UnvalidatedGet(ix, ref) == TGetByAlias(t, ref)
  {
    PointerOwner(ix, t, ref);
  }

  /** A read that also checks the members hash, as the sharded strategy does. */
  function ValidatedGet(ix: Index, ref: Ref): Option<string> {
    if ref in ix.pointers && Member(ix, ix.pointers[ref].val, ref) then Colocated.UnvalidatedGet(ix, ref) else None
  }

  /** In every reachable state at every time, validation would change no answer. */
  lemma ValidationIsRedundant(cs: seq<Call>, now: int, ref: Ref)
    ensures var ix := Purge(After(cs), now); Colocated.UnvalidatedGet(ix, ref) == ValidatedGet(ix, ref)
  {
    var ix := Purge(After(cs), now);
    EveryRunAgrees(cs);
    PurgeAgrees(After(cs), TableAfter(cs), now);
    if ref in ix.pointers {
      assert PointsTo(ix, ref, ix.pointers[ref].val);
    }
  }
}
