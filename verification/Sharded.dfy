/** The sharded strategy (redisstore/sharded.go and redisstore/scripts/sharded): one atomic
    script per record step, and separate best-effort pointer commands. */
module Sharded {
  import opened Basics
  import opened Expiries
  import opened Keyspace
  import opened Redis
  import opened AliasIndex
  import opened CellLayout
  import opened GroupConnection
  import BulkIndex

  /** record_put.lua: the value, at most one members field, one expiry for both. */
  function RecordPut(ix: Index, pk: string, ref: Option<Ref>, val: string, exp: Option<int>): Index {
    var stored := SetValue(ix, pk, val, exp);
    ExpireMembers(match ref case None => stored case Some(r) => SetField(stored, pk, r), pk, exp)
  }

  /** record_get_validate.lua: a value, unless the members hash no longer names the alias. */
  function ValidatedRead(ix: Index, pk: string, r: Ref): Option<string> {
    if pk in ix.values && Member(ix, pk, r) then Some(ix.values[pk].val) else None
  }

  /** pointer_cdel.lua: the pointer goes only if it still targets pk. */
  function CompareAndDelete(ix: Index, r: Ref, pk: string): Index {
    if PointsTo(ix, r, pk) then DelPointer(ix, r) else ix
  }

  function ReadValue(ix: Index, pk: string): Option<string> {
    if pk in ix.values then Some(ix.values[pk].val) else None
  }

  // ---- the operations with no other client in between ----

  function Put(ix: Index, pk: string, r: Ref, val: string, exp: Option<int>): Index {
    SetPointer(RecordPut(ix, pk, Some(r), val, exp), r, pk, exp)
  }

  function Get(ix: Index, r: Ref): Option<string> {
    if r in ix.pointers then ValidatedRead(ix, ix.pointers[r].val, r) else None
  }

  /** Of the pointers the record named, only those that still target it go. */
  function EvictRecord(ix: Index, pk: string): Index {
    CleanPointers(DelRecord(ix, pk), FieldsOf(ix, pk), pk)
  }

  function CleanPointers(ix: Index, h: map<string, string>, pk: string): Index {
    ix.(pointers := ix.pointers - (set r | r in ix.pointers && Names(h, r) && ix.pointers[r].val == pk))
  }

  /** Many records gone at once, each with the pointers it named that still target it. */
  function EvictRecords(ix: Index, ps: set<string>): Index {
    Index(ix.values - ps, ix.members - ps,
          ix.pointers - (set r | r in ix.pointers && ix.pointers[r].val in ps && Member(ix, ix.pointers[r].val, r)))
  }

  lemma EvictNoRecords(ix: Index)
    ensures EvictRecords(ix, {}) == ix
  {
  }

  lemma EvictRecordsOneMore(ix: Index, ps: set<string>, pk: string)
    requires pk !in ps
    ensures EvictRecords(ix, ps + {pk}) == EvictRecord(EvictRecords(ix, ps), pk)
  {
    assert FieldsOf(EvictRecords(ix, ps), pk) == FieldsOf(ix, pk);
  }

  lemma EvictRecordsClears(ix: Index, prefix: string, failing: set<string>, ps: set<string>)
    requires forall p :: p in ps <==> p in Matching(ix, prefix) && p !in failing
    ensures BulkIndex.Cleared(true, ix, EvictRecords(ix, ps), prefix, failing)
  {
  }

  function EvictThrough(ix: Index, r: Ref): Index {
    if r in ix.pointers then EvictRecord(ix, ix.pointers[r].val) else ix
  }

  class ShardedOps {
    const conn: GroupConn

    ghost predicate Valid()
      reads conn, conn.server
    {
      conn.Valid() && conn.sharded
    }

    constructor (ns: string)
      requires GoodNs(ns)
      ensures Valid() && conn.ix == EMPTY && conn.ns == ns && fresh(conn) && fresh(conn.server)
      ensures conn.server.now == 0
    {
      conn := new GroupConn(ns, true);
    }

    method GetValue(primary: string) returns (r: Option<string>)
      requires Valid()
      ensures r == ReadValue(conn.ix, primary)
    {
      r := conn.GetValue(ValueKey(conn.ns, primary, true), primary);
    }

    method PutValue(primary: string, val: string, ttl: int)
      requires Valid()
      modifies conn.server`cells, conn`ix
      ensures Valid() && conn.OthersKept()
      ensures conn.ix == RecordPut(old(conn.ix), primary, None, val, Expiry(conn.server.now, ttl))
      ensures conn.ForeignKept()
    {
      RecordPutScript(ValueKey(conn.ns, primary, true), MembersKey(conn.ns, primary, true), val, ttl, "", "", primary);
      conn.KeepsForeign();
    }

    /** The record script, then the pointer's SET, which may fail alone and is then reported. */
    method PutByAlias(primary: string, ref: Ref, val: string, ttl: int, pointerFails: bool) returns (ok: bool)
      requires Valid() && GoodField(ref.field)
      modifies conn.server`cells, conn`ix
      ensures Valid() && conn.OthersKept() && ok == !pointerFails
      ensures conn.ix ==
              if pointerFails then RecordPut(old(conn.ix), primary, Some(ref), val, Expiry(conn.server.now, ttl))
                         else Put(old(conn.ix), primary, ref, val, Expiry(conn.server.now, ttl))
      ensures conn.ForeignKept()
    {
      RecordPutScript(ValueKey(conn.ns, primary, true), MembersKey(conn.ns, primary, true), val, ttl,
                      ref.field, ref.value, primary);
      ok := !pointerFails;
      if ok {
        conn.SetPointer(PointerKey(conn.ns, ref.field, ref.value, true), ref, primary, ttl);
      }
      conn.KeepsForeign();
    }

    method GetByAlias(ref: Ref) returns (v: Option<string>)
      requires Valid() && GoodField(ref.field)
      ensures v == Get(conn.ix, ref)
    {
      var pk := conn.GetPointer(PointerKey(conn.ns, ref.field, ref.value, true), ref);
      if pk.None? { return None; }
      v := GetValidateScript(ValueKey(conn.ns, pk.value, true), MembersKey(conn.ns, pk.value, true),
                             ref.field, ref.value, pk.value);
    }

    method EvictByPrimary(primary: string)
      requires Valid()
      modifies conn.server`cells, conn`ix
      ensures Valid() && conn.OthersKept() && conn.ix == EvictRecord(old(conn.ix), primary)
      ensures conn.ForeignKept()
    {
      var arr := RecordEvictScript(ValueKey(conn.ns, primary, true), MembersKey(conn.ns, primary, true), primary);
      ghost var dropped := conn.ix;
      for i := 0 to |arr|
        invariant Valid() && conn.OthersKept()
        invariant conn.ix == CleanListed(dropped, arr[..i], primary)
      {
        PointerCDelScript(PointerKey(conn.ns, arr[i].0, arr[i].1, true), primary, Ref(arr[i].0, arr[i].1));
        CleanListedNext(dropped, arr, i, primary);
      }
      assert arr[..|arr|] == arr;
      CleanPointersOf(dropped, arr, FieldsOf(old(conn.ix), primary), primary);
      conn.KeepsForeign();
    }

    method EvictByAlias(ref: Ref)
      requires Valid() && GoodField(ref.field)
      modifies conn.server`cells, conn`ix
      ensures Valid() && conn.OthersKept() && conn.ix == EvictThrough(old(conn.ix), ref)
      ensures conn.ForeignKept()
    {
      var pk := conn.GetPointer(PointerKey(conn.ns, ref.field, ref.value, true), ref);
      if pk.None? { return; }
      EvictByPrimary(pk.value);
      conn.KeepsForeign();
    }

    /** record_put.lua. An empty field means "no alias". */
    method RecordPutScript(vkey: string, mkey: string, val: string, ttl: int, field: string, aval: string,
                           ghost pk: string)
      requires Valid() && (field != "" ==> GoodField(field))
      requires vkey == ValueKey(conn.ns, pk, true) && mkey == MembersKey(conn.ns, pk, true)
      modifies conn.server`cells, conn`ix
      ensures Valid() && conn.OthersKept()
      ensures conn.ix == RecordPut(old(conn.ix), pk, if field == "" then None else Some(Ref(field, aval)), val,
                                   Expiry(conn.server.now, ttl))
    {
      conn.SetValue(vkey, pk, val, ttl);
      if field != "" {
        conn.SetField(mkey, pk, field, aval);
      }
      conn.ExpireMembers(mkey, pk, ttl);
    }

    /** record_get_validate.lua */
    method GetValidateScript(vkey: string, mkey: string, field: string, aval: string, ghost pk: string)
      returns (v: Option<string>)
      requires Valid()
      requires vkey == ValueKey(conn.ns, pk, true) && mkey == MembersKey(conn.ns, pk, true)
      ensures v == ValidatedRead(conn.ix, pk, Ref(field, aval))
    {
      v := conn.GetValue(vkey, pk);
      if v.None? { return None; }
      var current := conn.GetField(mkey, pk, field);
      if current != Some(aval) { return None; }
    }

    /** record_evict.lua */
    method RecordEvictScript(vkey: string, mkey: string, ghost pk: string) returns (all: seq<(string, string)>)
      requires Valid()
      requires vkey == ValueKey(conn.ns, pk, true) && mkey == MembersKey(conn.ns, pk, true)
      modifies conn.server`cells, conn`ix
      ensures Valid() && conn.OthersKept() && conn.ix == DelRecord(old(conn.ix), pk)
      ensures Lists(all, FieldsOf(old(conn.ix), pk))
      ensures forall i :: 0 <= i < |all| ==> GoodField(all[i].0)
    {
      all := conn.GetFields(mkey, pk);
      conn.DelValue(vkey, pk);
      conn.DelMembers(mkey, pk);
    }

    /** pointer_cdel.lua */
    method PointerCDelScript(pkey: string, pk: string, ghost ref: Ref)
      requires Valid() && GoodField(ref.field) && pkey == PointerKey(conn.ns, ref.field, ref.value, true)
      modifies conn.server`cells, conn`ix
      ensures Valid() && conn.OthersKept() && conn.ix == CompareAndDelete(old(conn.ix), ref, pk)
    {
      var current := conn.GetPointer(pkey, ref);
      if current == Some(pk) {
        conn.DelPointer(pkey, ref);
      }
    }
  }

  // ---- the clean-up loop, whatever order HGETALL chose ----

  function CleanListed(ix: Index, all: seq<(string, string)>, pk: string): Index {
    ix.(pointers := ix.pointers - (set r | r in ix.pointers && (r.field, r.value) in all && ix.pointers[r].val == pk))
  }

  lemma CleanListedNext(ix: Index, all: seq<(string, string)>, i: nat, pk: string)
    requires i < |all|
    ensures CleanListed(ix, all[..i + 1], pk) ==
            CompareAndDelete(CleanListed(ix, all[..i], pk), Ref(all[i].0, all[i].1), pk)
  {
    assert all[..i + 1] == all[..i] + [all[i]];
  }

  lemma CleanPointersOf(ix: Index, all: seq<(string, string)>, h: map<string, string>, pk: string)
    requires Lists(all, h)
    ensures CleanListed(ix, all, pk) == CleanPointers(ix, h, pk)
  {
    assert forall r: Ref :: (r.field, r.value) in all <==> Names(h, r);
  }
}

/** Sequential runs of the sharded strategy against the record table. It keeps stale pointers
    and stolen members fields, and validation on read hides them. */
module ShardedRefinement {
  import opened Basics
  import opened Expiries
  import opened AliasIndex
  import opened RecordTable
  import opened TableRefinement
  import opened Runs
  import AliasInverse
  import Col = ColocatedRefinement
  import Sharded

  function Step(ix: Index, c: Call): Index {
    var live := Purge(ix, c.at);
    match c.op
    case PutValueOp(pk, val, ttl) => Sharded.RecordPut(live, pk, None, val, Expiry(c.at, ttl))
    case PutByAliasOp(pk, ref, val, ttl) => Sharded.Put(live, pk, ref, val, Expiry(c.at, ttl))
    case EvictByPrimaryOp(pk) => Sharded.EvictRecord(live, pk)
    case EvictByAliasOp(ref) => Sharded.EvictThrough(live, ref)
    case EvictByPrefixOp(prefix) => Sharded.EvictRecords(live, Matching(live, prefix))
  }

  function After(cs: seq<Call>): Index {
    if cs == [] then EMPTY else Step(After(cs[..|cs| - 1]), cs[|cs| - 1])
  }

  /** pk is reachable by r: the pointer leads there and the members hash confirms it. */
  predicate Resolves(ix: Index, r: Ref, pk: string) {
    PointsTo(ix, r, pk) && Member(ix, pk, r)
  }

  /** Value and members of a record share one expiry. */
  ghost predicate RecordExpiry(ix: Index) {
    forall p :: p in ix.members ==> p in ix.values && ix.members[p].exp == ix.values[p].exp
  }

  /** Everything the sharded index serves is right: the same values, and only true aliases. */
  ghost predicate Within(ix: Index, t: Table) {
    && SameValues(ix, t) && RecordExpiry(ix)
    && (forall p, r :: Resolves(ix, r, p) ==> Owns(t, p, r))
  }

  /** It also serves every alias of the table. */
  ghost predicate Complete(ix: Index, t: Table) {
    forall p, r :: Owns(t, p, r) ==> Resolves(ix, r, p)
  }

  lemma PutResolves(ix: Index, pk: string, r: Ref, val: string, exp: Option<int>, p: string, s: Ref)
    ensures Resolves(Sharded.Put(ix, pk, r, val, exp), s, p) <==> Moved(pk, r, p, s, Resolves(ix, s, p))
  {
    var stored := SetValue(ix, pk, val, exp);
    AliasInverse.SetFieldMembers(stored, pk, r, p, s);
    assert Member(stored, p, s) <==> Member(ix, p, s);
    var ix' := Sharded.Put(ix, pk, r, val, exp);
    assert Member(ix', p, s) <==> Member(SetField(stored, pk, r), p, s);
  }

  lemma RecordPutResolves(ix: Index, pk: string, val: string, exp: Option<int>, p: string, s: Ref)
    ensures Resolves(Sharded.RecordPut(ix, pk, None, val, exp), s, p) <==> Resolves(ix, s, p)
  {
  }

  lemma EvictResolves(ix: Index, pk: string, p: string, s: Ref)
    ensures Resolves(Sharded.EvictRecord(ix, pk), s, p) <==> p != pk && Resolves(ix, s, p)
  {
  }

  lemma PutWithin(ix: Index, t: Table, pk: string, r: Ref, val: string, exp: Option<int>)
    requires Within(ix, t)
    ensures var ix', t' := Sharded.Put(ix, pk, r, val, exp), TPutByAlias(t, pk, r, val, exp);
            Within(ix', t') && (Complete(ix, t) ==> Complete(ix', t'))
  {
    var ix', t' := Sharded.Put(ix, pk, r, val, exp), TPutByAlias(t, pk, r, val, exp);
    forall p, s
      ensures Resolves(ix', s, p) ==> Owns(t', p, s)
      ensures Complete(ix, t) && Owns(t', p, s) ==> Resolves(ix', s, p)
    {
      PutResolves(ix, pk, r, val, exp, p, s);
      PutByAliasOwns(t, pk, r, val, exp, p, s);
      assert Resolves(ix, s, p) ==> Owns(t, p, s);
    }
  }

  lemma PutValueWithin(ix: Index, t: Table, pk: string, val: string, exp: Option<int>)
    requires Within(ix, t)
    ensures var ix', t' := Sharded.RecordPut(ix, pk, None, val, exp), TPutValue(t, pk, val, exp);
            Within(ix', t') && (Complete(ix, t) ==> Complete(ix', t'))
  {
    var ix', t' := Sharded.RecordPut(ix, pk, None, val, exp), TPutValue(t, pk, val, exp);
    forall p, s
      ensures Resolves(ix', s, p) <==> Resolves(ix, s, p)
      ensures Owns(t', p, s) <==> Owns(t, p, s)
    {
      RecordPutResolves(ix, pk, val, exp, p, s);
    }
  }

  lemma EvictWithin(ix: Index, t: Table, pk: string)
    requires Within(ix, t)
    ensures var ix', t' := Sharded.EvictRecord(ix, pk), TEvict(t, pk);
            Within(ix', t') && (Complete(ix, t) ==> Complete(ix', t'))
  {
    var ix', t' := Sharded.EvictRecord(ix, pk), TEvict(t, pk);
    forall p, s
      ensures Resolves(ix', s, p) <==> p != pk && Resolves(ix, s, p)
      ensures Owns(t', p, s) <==> p != pk && Owns(t, p, s)
    {
      EvictResolves(ix, pk, p, s);
    }
  }

  /** Expiry may take a pointer before its record, never a record's members without its value. */
  lemma PurgeWithin(ix: Index, t: Table, now: int)
    requires Within(ix, t)
    ensures Within(Purge(ix, now), TExpire(t, now))
  {
    forall p, r | Resolves(Purge(ix, now), r, p) ensures Owns(TExpire(t, now), p, r) {
      assert Resolves(ix, r, p);
    }
  }

  /** Every owned alias is in its record's members hash, and its pointer, if still there, leads to
      that record. Pointers may run out before their records, members fields may not. */
  ghost predicate Knows(ix: Index, t: Table) {
    forall p, r :: Owns(t, p, r) ==> Member(ix, p, r) && (r in ix.pointers ==> ix.pointers[r].val == p)
  }

  lemma PutKnows(ix: Index, t: Table, pk: string, r: Ref, val: string, exp: Option<int>)
    requires Knows(ix, t)
    ensures Knows(Sharded.Put(ix, pk, r, val, exp), TPutByAlias(t, pk, r, val, exp))
  {
    var ix', t' := Sharded.Put(ix, pk, r, val, exp), TPutByAlias(t, pk, r, val, exp);
    forall p, s | Owns(t', p, s)
      ensures Member(ix', p, s) && (s in ix'.pointers ==> ix'.pointers[s].val == p)
    {
      PutByAliasOwns(t, pk, r, val, exp, p, s);
      AliasInverse.SetFieldMembers(SetValue(ix, pk, val, exp), pk, r, p, s);
    }
  }

  lemma PutValueKnows(ix: Index, t: Table, pk: string, val: string, exp: Option<int>)
    requires Knows(ix, t)
    ensures Knows(Sharded.RecordPut(ix, pk, None, val, exp), TPutValue(t, pk, val, exp))
  {
    forall p, s | Owns(TPutValue(t, pk, val, exp), p, s) ensures Owns(t, p, s) {
    }
  }

  /** Many records gone at once: what resolves, and what is known, is the rest. */
  lemma EvictRecordsWithin(ix: Index, t: Table, ps: set<string>)
    requires Within(ix, t)
    ensures var ix', t' := Sharded.EvictRecords(ix, ps), t - ps;
            && Within(ix', t')
            && (Complete(ix, t) ==> Complete(ix', t'))
            && (Knows(ix, t) ==> Knows(ix', t'))
  {
    var ix', t' := Sharded.EvictRecords(ix, ps), t - ps;
    forall p, s
      ensures Resolves(ix', s, p) <==> p !in ps && Resolves(ix, s, p)
      ensures Owns(t', p, s) <==> p !in ps && Owns(t, p, s)
    {
    }
  }

  lemma EvictOneRecord(ix: Index, pk: string)
    ensures Sharded.EvictRecord(ix, pk) == Sharded.EvictRecords(ix, {pk})
  {
    assert Sharded.EvictRecords(ix, {}) == ix;
    assert {} + {pk} == {pk};
    Sharded.EvictRecordsOneMore(ix, {}, pk);
  }

  lemma EvictKnows(ix: Index, t: Table, pk: string)
    requires Within(ix, t) && Knows(ix, t)
    ensures Knows(Sharded.EvictRecord(ix, pk), TEvict(t, pk))
  {
    EvictOneRecord(ix, pk);
    EvictRecordsWithin(ix, t, {pk});
  }

  lemma EvictMatchingWithin(ix: Index, t: Table, prefix: string)
    requires Within(ix, t)
    ensures var ix', t' := Sharded.EvictRecords(ix, Matching(ix, prefix)), TEvictByPrefix(t, prefix);
            && Within(ix', t')
            && (Complete(ix, t) ==> Complete(ix', t'))
            && (Knows(ix, t) ==> Knows(ix', t'))
  {
    assert Matching(ix, prefix) == set p | p in t && prefix <= p;
    EvictRecordsWithin(ix, t, Matching(ix, prefix));
  }

  lemma PurgeKnows(ix: Index, t: Table, now: int)
    requires Within(ix, t) && Knows(ix, t)
    ensures Knows(Purge(ix, now), TExpire(t, now))
  {
    forall p, r | Owns(TExpire(t, now), p, r)
      ensures Member(Purge(ix, now), p, r)
      ensures r in Purge(ix, now).pointers ==> Purge(ix, now).pointers[r].val == p
    {
      assert Owns(t, p, r);
    }
  }

  /** An eviction by alias takes the record the alias belongs to: the pointer's target, if it has a
      value, is confirmed by its members hash; otherwise nobody owns the alias. */
  ghost predicate RightEviction(ix: Index, t: Table, r: Ref) {
    if r in ix.pointers && ix.pointers[r].val in ix.values then Member(ix, ix.pointers[r].val, r)
    else Owner(t, r).None?
  }

  lemma RightEvictionIff(ix: Index, t: Table, r: Ref)
    requires Within(ix, t) && Knows(ix, t) && OneOwner(t)
    ensures Within(Sharded.EvictThrough(ix, r), TEvictByAlias(t, r)) <==> RightEviction(ix, t, r)
    ensures RightEviction(ix, t, r) ==> Knows(Sharded.EvictThrough(ix, r), TEvictByAlias(t, r))
  {
    if r in ix.pointers {
      var pk := ix.pointers[r].val;
      EvictWithin(ix, t, pk);
      EvictKnows(ix, t, pk);
      if Member(ix, pk, r) {
        assert Resolves(ix, r, pk);
        OwnerIs(t, pk, r);
      } else {
        forall p ensures !Owns(t, p, r) {
          assert Owns(t, p, r) ==> Member(ix, p, r) && pk == p;
        }
        assert TEvictByAlias(t, r) == t;
        if pk !in ix.values {
          assert TEvict(t, pk) == t;
        }
      }
    }
  }

  /** Every eviction by alias in the run takes the record the alias belongs to. */
  ghost predicate EvictsRightly(cs: seq<Call>) {
    forall i :: 0 <= i < |cs| && cs[i].op.EvictByAliasOp? ==>
      RightEviction(Purge(After(cs[..i]), cs[i].at), TExpire(TableAfter(cs[..i]), cs[i].at), cs[i].op.ref)
  }

  ghost predicate Agrees(ix: Index, t: Table) {
    Within(ix, t) && Knows(ix, t) && OneOwner(t)
  }

  lemma TablesHaveOneOwner(cs: seq<Call>, now: int)
    ensures OneOwner(TableAfter(cs)) && OneOwner(TExpire(TableAfter(cs), now))
  {
    Col.EveryRunAgrees(cs);
    CarriesOneOwner(Col.After(cs), TableAfter(cs));
    Col.PurgeAgrees(Col.After(cs), TableAfter(cs), now);
    CarriesOneOwner(Purge(Col.After(cs), now), TExpire(TableAfter(cs), now));
  }

  lemma OpWithin(ix: Index, t: Table, c: Call)
    requires Agrees(Purge(ix, c.at), TExpire(t, c.at))
    requires c.op.EvictByAliasOp? ==> RightEviction(Purge(ix, c.at), TExpire(t, c.at), c.op.ref)
    ensures var t' := TableOp(TExpire(t, c.at), c.op, c.at); Within(Step(ix, c), t') && Knows(Step(ix, c), t')
  {
    var live, tlive := Purge(ix, c.at), TExpire(t, c.at);
    match c.op
    case PutValueOp(pk, val, ttl) =>
      PutValueWithin(live, tlive, pk, val, Expiry(c.at, ttl));
      PutValueKnows(live, tlive, pk, val, Expiry(c.at, ttl));
    case PutByAliasOp(pk, ref, val, ttl) =>
      PutWithin(live, tlive, pk, ref, val, Expiry(c.at, ttl));
      PutKnows(live, tlive, pk, ref, val, Expiry(c.at, ttl));
    case EvictByPrimaryOp(pk) =>
      EvictWithin(live, tlive, pk);
      EvictKnows(live, tlive, pk);
    case EvictByAliasOp(ref) => RightEvictionIff(live, tlive, ref);
    case EvictByPrefixOp(prefix) => EvictMatchingWithin(live, tlive, prefix);
  }

  /** In every run whose evictions by alias are right, in particular in every run without any, the
      sharded index serves only what the table holds and knows every alias of the table. */
  lemma {:induction false} EveryRunWithin(cs: seq<Call>)
    requires EvictsRightly(cs)
    ensures Agrees(After(cs), TableAfter(cs))
  {
    TablesHaveOneOwner(cs, 0);
    if cs != [] {
      var c, before := cs[|cs| - 1], cs[..|cs| - 1];
      assert forall i :: 0 <= i < |before| ==> before[..i] == cs[..i];
      EveryRunWithin(before);
      TablesHaveOneOwner(before, c.at);
      PurgeWithin(After(before), TableAfter(before), c.at);
      PurgeKnows(After(before), TableAfter(before), c.at);
      OpWithin(After(before), TableAfter(before), c);
    }
  }

  /** At any later time too. */
  lemma EveryRunWithinAt(cs: seq<Call>, now: int)
    requires EvictsRightly(cs)
    ensures Agrees(Purge(After(cs), now), TExpire(TableAfter(cs), now))
  {
    EveryRunWithin(cs);
    TablesHaveOneOwner(cs, now);
    PurgeWithin(After(cs), TableAfter(cs), now);
    PurgeKnows(After(cs), TableAfter(cs), now);
  }

  lemma ReadWithin(ix: Index, t: Table, r: Ref)
    requires Within(ix, t) && OneOwner(t)
    ensures Sharded.Get(ix, r).Some? ==> Sharded.Get(ix, r) == TGetByAlias(t, r)
    ensures Complete(ix, t) ==> Sharded.Get(ix, r) == TGetByAlias(t, r)
  {
    if Sharded.Get(ix, r).Some? {
      assert Resolves(ix, r, ix.pointers[r].val);
      OwnerIs(t, ix.pointers[r].val, r);
    }
  }
}
