/** When a sharded pointer runs out: its lifetime is that of the alias's last registration. */
module PointerHistory {
  import opened Basics
  import opened Expiries
  import opened AliasIndex
  import opened RecordTable
  import opened TableRefinement
  import opened Runs
  import Colocated
  import Sharded
  import Col = ColocatedRefinement
  import Sh = ShardedRefinement
  import E = Equivalence

  /** The call that last registered the alias, if any. */
  function LastRegistration(cs: seq<Call>, r: Ref): Option<Call> {
    if cs == [] then None
    else var c := cs[|cs| - 1];
         if c.op.PutByAliasOp? && c.op.ref == r then Some(c) else LastRegistration(cs[..|cs| - 1], r)
  }

  /** Whether the TTL given with the alias's last registration is still running. */
  predicate StillRegistered(cs: seq<Call>, r: Ref, now: int) {
    var c := LastRegistration(cs, r);
    c.Some? && c.value.op.PutByAliasOp? && LiveAt(Expiry(c.value.at, c.value.op.ttl), now)
  }

  /** p's pointer r lives exactly as long as the last registration said. */
  ghost predicate PointerLives(ix: Index, cs: seq<Call>, r: Ref, now: int) {
    var c := LastRegistration(cs, r);
    && c.Some? && c.value.op.PutByAliasOp?
    && (if r in ix.pointers then ix.pointers[r].exp == Expiry(c.value.at, c.value.op.ttl)
        else !StillRegistered(cs, r, now))
  }

  lemma PurgeKeepsLives(ix: Index, cs: seq<Call>, r: Ref, before: int, now: int)
    requires PointerLives(ix, cs, r, before) && before <= now
    ensures PointerLives(Purge(ix, now), cs, r, now)
    ensures r in Purge(ix, now).pointers <==> StillRegistered(cs, r, now)
  {
  }

  /** An eviction that leaves p leaves the pointer that leads to p. */
  lemma StepKeepsPointer(ix: Index, t: Table, c: Call, p: string, r: Ref)
    requires Sh.Agrees(Purge(ix, c.at), TExpire(t, c.at))
    requires Sh.Agrees(Sh.Step(ix, c), TableOp(TExpire(t, c.at), c.op, c.at))
    requires !(c.op.PutByAliasOp? && c.op.ref == r) && Owns(TableOp(TExpire(t, c.at), c.op, c.at), p, r)
    ensures Owns(TExpire(t, c.at), p, r)
    ensures r in Sh.Step(ix, c).pointers <==> r in Purge(ix, c.at).pointers
    ensures r in Sh.Step(ix, c).pointers ==> Sh.Step(ix, c).pointers[r] == Purge(ix, c.at).pointers[r]
  {
    var live, t0 := Purge(ix, c.at), TExpire(t, c.at);
    if c.op.PutByAliasOp? {
      PutByAliasOwns(t0, c.op.pk, c.op.ref, c.op.val, Expiry(c.at, c.op.ttl), p, r);
    }
    assert Owns(t0, p, r);
    assert r in live.pointers ==> live.pointers[r].val == p;
    assert p in Sh.Step(ix, c).values;
  }

  lemma {:induction false} OwnedPointersLive(cs: seq<Call>, p: string, r: Ref, now: int)
    requires Sh.EvictsRightly(cs) && InTime(cs, now) && Owns(TableAfter(cs), p, r)
    requires cs != [] ==> now == cs[|cs| - 1].at
    ensures PointerLives(Sh.After(cs), cs, r, now)
  {
    var c, before := cs[|cs| - 1], cs[..|cs| - 1];
    assert forall i :: 0 <= i < |before| ==> before[..i] == cs[..i];
    if !(c.op.PutByAliasOp? && c.op.ref == r) {
      var last := if before == [] then now else before[|before| - 1].at;
      StaysOwned(cs, p, r);
      OwnedPointersLive(before, p, r, last);
      PurgeKeepsLives(Sh.After(before), before, r, last, c.at);
    }
  }

  /** The last call, if it does not register the alias, finds it owned and leaves its pointer. */
  lemma {:induction false} StaysOwned(cs: seq<Call>, p: string, r: Ref)
    requires Sh.EvictsRightly(cs) && cs != [] && Owns(TableAfter(cs), p, r)
    requires var c := cs[|cs| - 1]; !(c.op.PutByAliasOp? && c.op.ref == r)
    ensures var c, before := cs[|cs| - 1], cs[..|cs| - 1];
            var live := Purge(Sh.After(before), c.at);
            && Owns(TableAfter(before), p, r)
            && (r in Sh.After(cs).pointers <==> r in live.pointers)
            && (r in Sh.After(cs).pointers ==> Sh.After(cs).pointers[r] == live.pointers[r])
  {
    var c, before := cs[|cs| - 1], cs[..|cs| - 1];
    assert forall i :: 0 <= i < |before| ==> before[..i] == cs[..i];
    Sh.EveryRunWithin(cs);
    Sh.EveryRunWithinAt(before, c.at);
    StepKeepsPointer(Sh.After(before), TableAfter(before), c, p, r);
  }

  /** A sharded read by alias differs from the colocated one exactly when the alias has an owner but
      the TTL given with its last registration has run out: only registrations refresh pointers. */
  lemma ShardedDiffersIff(cs: seq<Call>, now: int, r: Ref)
    requires Sh.EvictsRightly(cs) && InTime(cs, now)
    ensures Sharded.Get(Purge(Sh.After(cs), now), r) != Colocated.UnvalidatedGet(Purge(Col.After(cs), now), r) <==>
            Owner(TExpire(TableAfter(cs), now), r).Some? && !StillRegistered(cs, r, now)
  {
    E.ShardedHitsAreColocatedHits(cs, now, r);
    Col.EveryReadAgrees(cs, now, "", r);
    var t := TExpire(TableAfter(cs), now);
    if Owner(t, r).Some? {
      var p := Owner(t, r).value;
      assert Owns(TableAfter(cs), p, r);
      assert cs != [];
      var last := cs[|cs| - 1].at;
      OwnedPointersLive(cs, p, r, last);
      PurgeKeepsLives(Sh.After(cs), cs, r, last, now);
    }
  }
}
