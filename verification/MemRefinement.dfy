/** Runs of the in-memory strategy. It keeps expired records and only hides them from readers,
    so a later write brings their aliases back: it agrees with the lasting table. */
module MemRefinement {
  import opened Basics
  import opened Expiries
  import opened AliasIndex
  import opened AliasInverse
  import opened RecordTable
  import opened TableRefinement
  import opened Lifetimes
  import opened BulkIndex
  import opened Runs
  import opened MemStore

  function Step(ix: Index, c: Call): Index {
    match c.op
    case PutValueOp(pk, val, ttl) => PutValue(ix, pk, val, Expiry(c.at, ttl), Expiry(c.later, ttl))
    case PutByAliasOp(pk, ref, val, ttl) => PutByAlias(ix, pk, ref, val, true, Expiry(c.at, ttl), Expiry(c.latest, ttl))
    case EvictByPrimaryOp(pk) => Evict(ix, pk)
    case EvictByAliasOp(ref) => EvictByAlias(ix, ref)
    case EvictByPrefixOp(prefix) => EvictAll(ix, Matching(ix, prefix))
  }

  function After(cs: seq<Call>): Index {
    if cs == [] then EMPTY else Step(After(cs[..|cs| - 1]), cs[|cs| - 1])
  }

  ghost predicate Agrees(ix: Index, t: Table) {
    Carries(ix, t) && GroupExpiry(ix)
  }

  lemma {:induction false} EveryRunAgrees(cs: seq<Call>)
    requires forall i :: 0 <= i < |cs| ==> InOrder(cs[i])
    ensures Agrees(After(cs), LastingTableAfter(cs))
  {
    if cs != [] {
      var c, before := cs[|cs| - 1], cs[..|cs| - 1];
      EveryRunAgrees(before);
      StepAgrees(After(before), LastingTableAfter(before), c);
    }
  }

  lemma StepAgrees(ix: Index, t: Table, c: Call)
    requires Agrees(ix, t) && InOrder(c)
    ensures Agrees(Step(ix, c), TableOp(t, c.op, c.at))
  {
    match c.op
    case PutValueOp(pk, val, ttl) =>
      PutValueCarries(ix, t, pk, val, Expiry(c.at, ttl), Expiry(c.later, ttl));
      PutValueLifetime(ix, pk, val, Expiry(c.at, ttl), Expiry(c.later, ttl));
    case PutByAliasOp(pk, ref, val, ttl) =>
      PutByAliasCarries(ix, t, pk, ref, val, true, Expiry(c.at, ttl), Expiry(c.latest, ttl));
      PutByAliasLifetime(ix, pk, ref, val, true, Expiry(c.at, ttl), Expiry(c.latest, ttl));
    case EvictByPrimaryOp(pk) =>
      EvictCarries(ix, t, pk);
      EvictLifetime(ix, pk);
    case EvictByAliasOp(ref) =>
      PointerOwner(ix, t, ref);
      if ref in ix.pointers {
        EvictCarries(ix, t, ix.pointers[ref].val);
        EvictLifetime(ix, ix.pointers[ref].val);
      }
    case EvictByPrefixOp(prefix) =>
      EvictMatchingCarries(ix, t, prefix);
      EvictAllLifetime(ix, Matching(ix, prefix));
  }

  /** Reading the lasting table: an expired record is hidden. */
  function LastingGet(t: Table, pk: string, now: int): Option<string> {
    if pk in t && LiveAt(t[pk].exp, now) then Some(t[pk].val) else None
  }

  ghost function LastingGetByAlias(t: Table, r: Ref, now: int): Option<string> {
    match Owner(t, r)
    case None => None
    case Some(p) => LastingGet(t, p, now)
  }

  /** With one lifetime per group, an alias read hits exactly when a pointer exists and its
      owner's value is live at the last of the three clock readings. */
  lemma AliasReadIsOwnerRead(ix: Index, r: Ref, at: int, later: int, latest: int)
    requires Inverse(ix) && GroupExpiry(ix) && at <= later <= latest
    ensures MemGetByAlias(ix, r, at, later, latest) ==
            if r in ix.pointers then MemGetValue(ix, ix.pointers[r].val, latest) else None
  {
    if r in ix.pointers {
      var pk := ix.pointers[r].val;
      assert Member(ix, pk, r) <==> PointsTo(ix, r, pk);
    }
  }

  /** At every time after every run, each read answers what the lasting table answers. */
  lemma EveryReadAgrees(cs: seq<Call>, pk: string, r: Ref, at: int, later: int, latest: int)
    requires forall i :: 0 <= i < |cs| ==> InOrder(cs[i])
    requires at <= later <= latest
    ensures MemGetValue(After(cs), pk, at) == LastingGet(LastingTableAfter(cs), pk, at)
    ensures MemGetByAlias(After(cs), r, at, later, latest) == LastingGetByAlias(LastingTableAfter(cs), r, latest)
  {
    EveryRunAgrees(cs);
    AliasReadIsOwnerRead(After(cs), r, at, later, latest);
    PointerOwner(After(cs), LastingTableAfter(cs), r);
  }
}
