/** How old a served value can be: every hit was stored by a known call at most one TTL ago. */
module Staleness {
  import opened Basics
  import opened Expiries
  import opened AliasIndex
  import opened RecordTable
  import opened TableRefinement
  import opened Runs
  import opened Jitter
  import Colocated
  import M = MemStore
  import Col = ColocatedRefinement
  import Mem = MemRefinement
  import E = Equivalence
  import ReadThrough

  predicate IsPut(op: Op) {
    op.PutValueOp? || op.PutByAliasOp?
  }

  predicate PutsTo(op: Op, pk: string) {
    IsPut(op) && op.pk == pk
  }

  /** The last call before n that put to pk. */
  ghost predicate LastPut(cs: seq<Call>, i: nat, pk: string) {
    && i < |cs| && PutsTo(cs[i].op, pk)
    && forall j :: i < j < |cs| ==> !PutsTo(cs[j].op, pk)
  }

  /** pk's entry in t is what the i-th call stored. */
  predicate StoredBy(t: Table, pk: string, c: Call) {
    && pk in t && PutsTo(c.op, pk)
    && t[pk].val == c.op.val && t[pk].exp == Expiry(c.at, c.op.ttl)
  }

  lemma OpStores(t: Table, c: Call, pk: string)
    requires pk in TableOp(t, c.op, c.at)
    ensures PutsTo(c.op, pk) ==> StoredBy(TableOp(t, c.op, c.at), pk, c)
    ensures !PutsTo(c.op, pk) ==>
              && pk in t
              && TableOp(t, c.op, c.at)[pk].val == t[pk].val
              && TableOp(t, c.op, c.at)[pk].exp == t[pk].exp
  {
  }

  lemma {:induction false} LastingEntryIsLastPut(cs: seq<Call>, pk: string) returns (i: nat)
    requires pk in LastingTableAfter(cs)
    ensures LastPut(cs, i, pk) && StoredBy(LastingTableAfter(cs), pk, cs[i])
  {
    var n := |cs| - 1;
    OpStores(LastingTableAfter(cs[..n]), cs[n], pk);
    if PutsTo(cs[n].op, pk) {
      i := n;
    } else {
      i := LastingEntryIsLastPut(cs[..n], pk);
    }
  }

  lemma {:induction false} EntryIsLastPut(cs: seq<Call>, pk: string) returns (i: nat)
    requires pk in TableAfter(cs)
    ensures LastPut(cs, i, pk) && StoredBy(TableAfter(cs), pk, cs[i])
  {
    var n := |cs| - 1;
    OpStores(TExpire(TableAfter(cs[..n]), cs[n].at), cs[n], pk);
    if PutsTo(cs[n].op, pk) {
      i := n;
    } else {
      i := EntryIsLastPut(cs[..n], pk);
    }
  }

  // ---- a configured cache ----

  /** A cache without AllowInfinite, in nanoseconds. */
  datatype Settings = Settings(ttl: int, negativeTtl: int, fraction: real)

  /** What Register accepts. */
  predicate GoodSettings(s: Settings) {
    s.ttl > 0 && GoodFraction(s.fraction)
  }

  /** The configured lifetime of a stored string: a value's, or a not-found marker's. */
  function Base(s: Settings, val: string): int {
    if val == ReadThrough.MARKER then s.negativeTtl else s.ttl
  }

  /** The TTL was drawn for this string; markers are written only when they have a TTL. */
  ghost predicate Drawn(s: Settings, val: string, ttl: int) {
    Base(s, val) > 0 && exists rand :: IsRandom(rand) && ttl == Jittered(Base(s, val), s.fraction, rand)
  }

  ghost predicate DrawnRun(s: Settings, cs: seq<Call>) {
    forall i :: 0 <= i < |cs| && IsPut(cs[i].op) ==> Drawn(s, cs[i].op.val, cs[i].op.ttl)
  }

  lemma DrawnTtl(s: Settings, val: string, ttl: int)
    requires GoodSettings(s) && Drawn(s, val, ttl)
    ensures 0 < ttl <= Base(s, val)
    ensures Lowest(Base(s, val), s.fraction) >= MILLI ==> 0 < Millis(ttl) <= Millis(Base(s, val))
  {
    var rand :| IsRandom(rand) && ttl == Jittered(Base(s, val), s.fraction, rand);
    JitteredRange(Base(s, val), s.fraction, rand);
    LowestIsLowest(Base(s, val), s.fraction, rand);
  }

  /** The bytes were stored for pk by the i-th call, the last to write pk, at most bound before now. */
  ghost predicate Fresh(cs: seq<Call>, pk: string, val: string, now: int, bound: int) {
    exists i: nat :: LastPut(cs, i, pk) && cs[i].op.val == val && now - cs[i].at <= bound
  }

  // ---- memstore ----

  lemma LastingEntryIsFresh(s: Settings, cs: seq<Call>, pk: string, now: int)
    requires GoodSettings(s) && DrawnRun(s, cs)
    requires pk in LastingTableAfter(cs) && LiveAt(LastingTableAfter(cs)[pk].exp, now)
    ensures var val := LastingTableAfter(cs)[pk].val; Fresh(cs, pk, val, now, Base(s, val))
  {
    var i := LastingEntryIsLastPut(cs, pk);
    DrawnTtl(s, cs[i].op.val, cs[i].op.ttl);
  }

  /** In memory, a hit by primary serves the value last written to it, at most its configured TTL
      earlier. */
  lemma MemValueIsFresh(s: Settings, cs: seq<Call>, pk: string, now: int)
    requires GoodSettings(s) && DrawnRun(s, cs) && forall i :: 0 <= i < |cs| ==> InOrder(cs[i])
    ensures var got := M.MemGetValue(Mem.After(cs), pk, now);
            got.Some? ==> Fresh(cs, pk, got.value, now, Base(s, got.value))
  {
    Mem.EveryReadAgrees(cs, pk, Ref("", ""), now, now, now);
    if Mem.LastingGet(LastingTableAfter(cs), pk, now).Some? {
      LastingEntryIsFresh(s, cs, pk, now);
    }
  }

  /** So does a hit by alias, for the primary the alias belongs to. */
  lemma MemAliasIsFresh(s: Settings, cs: seq<Call>, r: Ref, at: int, later: int, latest: int)
    requires GoodSettings(s) && DrawnRun(s, cs) && forall i :: 0 <= i < |cs| ==> InOrder(cs[i])
    requires at <= later <= latest
    ensures var got := M.MemGetByAlias(Mem.After(cs), r, at, later, latest);
            got.Some? ==> Owner(LastingTableAfter(cs), r).Some? &&
                          Fresh(cs, Owner(LastingTableAfter(cs), r).value, got.value, latest, Base(s, got.value))
  {
    Mem.EveryReadAgrees(cs, "", r, at, later, latest);
    if Mem.LastingGetByAlias(LastingTableAfter(cs), r, latest).Some? {
      LastingEntryIsFresh(s, cs, Owner(LastingTableAfter(cs), r).value, latest);
    }
  }

  // ---- Redis ----

  /** No draw of either TTL truncates to 0 ms. */
  predicate NeverZero(s: Settings) {
    Lowest(s.ttl, s.fraction) >= MILLI && (s.negativeTtl > 0 ==> Lowest(s.negativeTtl, s.fraction) >= MILLI)
  }

  /** On Redis's millisecond clock, a colocated hit by primary serves a value stored at most its
      configured TTL earlier. */
  lemma ColocatedValueIsFresh(s: Settings, cs: seq<Call>, pk: string, now: int)
    requires GoodSettings(s) && NeverZero(s) && DrawnRun(s, cs)
    ensures var got := Colocated.ReadValue(Purge(Col.After(E.InMillis(cs)), now), pk);
            got.Some? ==> Fresh(E.InMillis(cs), pk, got.value, now, Millis(Base(s, got.value)))
  {
    var ms := E.InMillis(cs);
    Col.EveryReadAgrees(ms, now, pk, Ref("", ""));
    if TGetValue(TExpire(TableAfter(ms), now), pk).Some? {
      EntryIsFresh(s, cs, pk, now);
    }
  }

  lemma ColocatedAliasIsFresh(s: Settings, cs: seq<Call>, r: Ref, now: int)
    requires GoodSettings(s) && NeverZero(s) && DrawnRun(s, cs)
    ensures var got := Colocated.UnvalidatedGet(Purge(Col.After(E.InMillis(cs)), now), r);
            var t := TExpire(TableAfter(E.InMillis(cs)), now);
            got.Some? ==> Owner(t, r).Some? &&
                          Fresh(E.InMillis(cs), Owner(t, r).value, got.value, now, Millis(Base(s, got.value)))
  {
    var ms := E.InMillis(cs);
    var t := TExpire(TableAfter(ms), now);
    Col.EveryReadAgrees(ms, now, "", r);
    if TGetByAlias(t, r).Some? {
      EntryIsFresh(s, cs, Owner(t, r).value, now);
    }
  }

  lemma EntryIsFresh(s: Settings, cs: seq<Call>, pk: string, now: int)
    requires GoodSettings(s) && NeverZero(s) && DrawnRun(s, cs)
    requires pk in TExpire(TableAfter(E.InMillis(cs)), now)
    ensures var val := TableAfter(E.InMillis(cs))[pk].val;
            Fresh(E.InMillis(cs), pk, val, now, Millis(Base(s, val)))
  {
    var ms := E.InMillis(cs);
    var i := EntryIsLastPut(ms, pk);
    E.InMillisAt(cs, i);
    DrawnTtl(s, cs[i].op.val, cs[i].op.ttl);
  }

  /** Without that condition the bound is lost: a TTL of less than a millisecond is stored without
      expiry, and the value is served at every later time. */
  lemma TruncatedTtlNeverExpires(pk: string, val: string, at: int, ttl: int, now: int)
    requires 0 < ttl < MILLI
    ensures var ms := E.InMillis([Call(PutValueOp(pk, val, ttl), at, at, at)]);
            Colocated.ReadValue(Purge(Col.After(ms), now), pk) == Some(val)
  {
    var cs := [Call(PutValueOp(pk, val, ttl), at, at, at)];
    var ms := E.InMillis(cs);
    assert cs[..0] == [] && ms == [E.CallInMillis(cs[0])];
    assert ms[..0] == [];
    assert TableAfter(ms) == TPutValue(TExpire(map[], ClockMillis(at)), pk, val, None);
    Col.EveryReadAgrees(ms, now, pk, Ref("", ""));
  }

  /** Both bounds on a colocated cache in one run: by key, and by alias for the alias's owner. */
  ghost predicate Bounded(s: Settings, cs: seq<Call>, now: int, pk: string, r: Ref) {
    var ms := E.InMillis(cs);
    var ix, t := Purge(Col.After(ms), now), TExpire(TableAfter(ms), now);
    var byKey, byAlias := Colocated.ReadValue(ix, pk), Colocated.UnvalidatedGet(ix, r);
    && (byKey.Some? ==> Fresh(ms, pk, byKey.value, now, Millis(Base(s, byKey.value))))
    && (byAlias.Some? ==> Owner(t, r).Some? &&
                          Fresh(ms, Owner(t, r).value, byAlias.value, now, Millis(Base(s, byAlias.value))))
  }

  /** Staleness on Redis is bounded in every run the settings can produce exactly when no draw of
      either TTL truncates to 0 ms. */
  lemma BoundedIff(s: Settings)
    requires GoodSettings(s)
    ensures (forall cs, now, pk, r :: DrawnRun(s, cs) ==> Bounded(s, cs, now, pk, r)) <==> NeverZero(s)
  {
    if NeverZero(s) {
      forall cs, now, pk, r | DrawnRun(s, cs) ensures Bounded(s, cs, now, pk, r) {
        ColocatedValueIsFresh(s, cs, pk, now);
        ColocatedAliasIsFresh(s, cs, r, now);
      }
    } else {
      var val := if Lowest(s.ttl, s.fraction) < MILLI then "" else ReadThrough.MARKER;
      var cs, now := StaleRun(s, val);
      assert !Bounded(s, cs, now, "", Ref("", ""));
    }
  }

  /** A TTL that can truncate to 0 has a run whose value outlives it. */
  lemma StaleRun(s: Settings, val: string) returns (cs: seq<Call>, now: int)
    requires GoodSettings(s) && Base(s, val) > 0 && Lowest(Base(s, val), s.fraction) < MILLI
    ensures DrawnRun(s, cs) && !Bounded(s, cs, now, "", Ref("", ""))
  {
    LowestIsReached(Base(s, val), s.fraction);
    var rand :| IsRandom(rand) && Jittered(Base(s, val), s.fraction, rand) == Lowest(Base(s, val), s.fraction);
    JitteredRange(Base(s, val), s.fraction, rand);
    var ttl := Lowest(Base(s, val), s.fraction);
    cs := [Call(PutValueOp("", val, ttl), 0, 0, 0)];
    now := Millis(Base(s, val)) + 1;
    TruncatedTtlNeverExpires("", val, 0, ttl, now);
    var ms := E.InMillis(cs);
    E.InMillisAt(cs, 0);
    assert |ms| == 1 && ms[0].at == 0;
  }
}
