/** The colocated strategy: every operation is one atomic script (redisstore/colocated.go and
    redisstore/scripts/colocated). */
module Colocated {
  import opened Basics
  import opened Expiries
  import opened Keyspace
  import opened Redis
  import opened AliasIndex
  import opened CellLayout
  import opened GroupConnection

  /** get.lua: pointer, then value, with no validation. */
  function UnvalidatedGet(ix: Index, r: Ref): Option<string> {
    if r in ix.pointers && ix.pointers[r].val in ix.values then Some(ix.values[ix.pointers[r].val].val) else None
  }

  function ReadValue(ix: Index, pk: string): Option<string> {
    if pk in ix.values then Some(ix.values[pk].val) else None
  }

  function Put(ix: Index, pk: string, ref: Option<Ref>, val: string, exp: Option<int>): Index {
    match ref
    case None => PutValue(ix, pk, val, exp, exp)
    case Some(r) => PutByAlias(ix, pk, r, val, false, exp, exp)
  }

  class ColocatedOps {
    const conn: GroupConn

    ghost predicate Valid()
      reads conn, conn.server
    {
      conn.Valid() && !conn.sharded
    }

    constructor (ns: string)
      requires GoodNs(ns)
      ensures Valid() && conn.ix == EMPTY && conn.ns == ns && fresh(conn) && fresh(conn.server)
      ensures conn.server.now == 0
    {
      conn := new GroupConn(ns, false);
    }

    method GetValue(primary: string) returns (r: Option<string>)
      requires Valid()
      ensures r == ReadValue(conn.ix, primary)
    {
      r := conn.GetValue(ValueKey(conn.ns, primary, false), primary);
    }

    method PutValue(primary: string, val: string, ttl: int)
      requires Valid()
      modifies conn.server`cells, conn`ix
      ensures Valid() && conn.OthersKept()
      ensures conn.ix == Put(old(conn.ix), primary, None, val, Expiry(conn.server.now, ttl))
      ensures conn.ForeignKept()
    {
      PutScript(ValueKey(conn.ns, primary, false), MembersKey(conn.ns, primary, false), val, ttl, "", "", primary,
                ColocatedGrpPrefix(conn.ns), ColocatedMembersPrefix(conn.ns));
      conn.KeepsForeign();
    }

    method PutByAlias(primary: string, ref: Ref, val: string, ttl: int)
      requires Valid() && GoodField(ref.field)
      modifies conn.server`cells, conn`ix
      ensures Valid() && conn.OthersKept()
      ensures conn.ix == Put(old(conn.ix), primary, Some(ref), val, Expiry(conn.server.now, ttl))
      ensures conn.ForeignKept()
    {
      PutScript(ValueKey(conn.ns, primary, false), MembersKey(conn.ns, primary, false), val, ttl, ref.field, ref.value,
                primary, ColocatedGrpPrefix(conn.ns), ColocatedMembersPrefix(conn.ns));
      conn.KeepsForeign();
    }

    method GetByAlias(ref: Ref) returns (r: Option<string>)
      requires Valid() && GoodField(ref.field)
      ensures r == UnvalidatedGet(conn.ix, ref)
    {
      r := GetScript(PointerKey(conn.ns, ref.field, ref.value, false), ColocatedValuePrefix(conn.ns), ref);
    }

    method EvictByPrimary(primary: string)
      requires Valid()
      modifies conn.server`cells, conn`ix
      ensures Valid() && conn.OthersKept() && conn.ix == Evict(old(conn.ix), primary)
      ensures conn.ForeignKept()
    {
      EvictByPrimaryScript(ValueKey(conn.ns, primary, false), MembersKey(conn.ns, primary, false),
                           ColocatedGrpPrefix(conn.ns), primary);
      conn.KeepsForeign();
    }

    method EvictByAlias(ref: Ref)
      requires Valid() && GoodField(ref.field)
      modifies conn.server`cells, conn`ix
      ensures Valid() && conn.OthersKept() && conn.ix == AliasIndex.EvictByAlias(old(conn.ix), ref)
      ensures conn.ForeignKept()
    {
      EvictByAliasScript(PointerKey(conn.ns, ref.field, ref.value, false), ColocatedValuePrefix(conn.ns),
                         ColocatedMembersPrefix(conn.ns), ColocatedGrpPrefix(conn.ns), ref);
      conn.KeepsForeign();
    }

    /** get.lua */
    method GetScript(pkey: string, vpx: string, ghost ref: Ref) returns (v: Option<string>)
      requires Valid() && GoodField(ref.field)
      requires pkey == PointerKey(conn.ns, ref.field, ref.value, false) && vpx == ColocatedValuePrefix(conn.ns)
      ensures v == UnvalidatedGet(conn.ix, ref)
    {
      var pk := conn.GetPointer(pkey, ref);
      if pk.None? { return None; }
      v := conn.GetValue(vpx + pk.value, pk.value);
    }

    /** put.lua. An empty field means "no alias". */
    method PutScript(vkey: string, mkey: string, val: string, ttl: int, field: string, aval: string, pk: string,
                     grpx: string, mpx: string)
      requires Valid() && (field != "" ==> GoodField(field))
      requires vkey == ValueKey(conn.ns, pk, false) && mkey == MembersKey(conn.ns, pk, false)
      requires grpx == ColocatedGrpPrefix(conn.ns) && mpx == ColocatedMembersPrefix(conn.ns)
      modifies conn.server`cells, conn`ix
      ensures Valid() && conn.OthersKept()
      ensures conn.ix == Put(old(conn.ix), pk, if field == "" then None else Some(Ref(field, aval)), val,
                             Expiry(conn.server.now, ttl))
    {
      ghost var exp := Expiry(conn.server.now, ttl);
      conn.SetValue(vkey, pk, val, ttl);
      if field != "" {
        LinkSteps(mkey, field, aval, pk, grpx, mpx, ttl);
      }
      ghost var linked := conn.ix;
      conn.ExpireMembers(mkey, pk, ttl);
      var all := conn.GetFields(mkey, pk);
      ExpireAll(all, grpx, ttl);
      WithPointerExpiryOf(ExpireMembers(linked, pk, exp), all, FieldsOf(linked, pk), exp);
    }

    /** Replace, steal and set one alias. */
    method LinkSteps(mkey: string, field: string, aval: string, pk: string, grpx: string, mpx: string, ttl: int)
      requires Valid() && GoodField(field)
      requires mkey == MembersKey(conn.ns, pk, false)
      requires grpx == ColocatedGrpPrefix(conn.ns) && mpx == ColocatedMembersPrefix(conn.ns)
      modifies conn.server`cells, conn`ix
      ensures Valid() && conn.OthersKept()
      ensures conn.ix == Link(old(conn.ix), pk, Ref(field, aval), false, Expiry(conn.server.now, ttl))
    {
      var pkey := grpx + field + "::" + aval;
      var oldVal := conn.GetField(mkey, pk, field);
      if oldVal.Some? && oldVal.value != aval {
        conn.DelPointer(grpx + field + "::" + oldVal.value, Ref(field, oldVal.value));
      }
      var oldPk := conn.GetPointer(pkey, Ref(field, aval));
      if oldPk.Some? && oldPk.value != pk {
        conn.DelField(mpx + oldPk.value, oldPk.value, field);
      }
      conn.SetField(mkey, pk, field, aval);
      conn.SetPointer(pkey, Ref(field, aval), pk, ttl);
    }

    /** The pointer loop of put.lua: PEXPIRE or PERSIST each listed pointer. */
    method ExpireAll(all: seq<(string, string)>, grpx: string, ttl: int)
      requires Valid() && grpx == ColocatedGrpPrefix(conn.ns)
      requires forall i :: 0 <= i < |all| ==> GoodField(all[i].0)
      modifies conn.server`cells, conn`ix
      ensures Valid() && conn.OthersKept()
      ensures conn.ix == ExpireListed(old(conn.ix), all, Expiry(conn.server.now, ttl))
    {
      for i := 0 to |all|
        invariant Valid() && conn.OthersKept()
        invariant conn.ix == ExpireListed(old(conn.ix), all[..i], Expiry(conn.server.now, ttl))
      {
        conn.ExpirePointer(grpx + all[i].0 + "::" + all[i].1, Ref(all[i].0, all[i].1), ttl);
        ExpireListedNext(old(conn.ix), all, i, Expiry(conn.server.now, ttl));
      }
      assert all[..|all|] == all;
    }

    /** The pointer loop of both evict scripts. */
    method DelAll(all: seq<(string, string)>, grpx: string)
      requires Valid() && grpx == ColocatedGrpPrefix(conn.ns)
      requires forall i :: 0 <= i < |all| ==> GoodField(all[i].0)
      modifies conn.server`cells, conn`ix
      ensures Valid() && conn.OthersKept()
      ensures conn.ix == DelListed(old(conn.ix), all)
    {
      for i := 0 to |all|
        invariant Valid() && conn.OthersKept()
        invariant conn.ix == DelListed(old(conn.ix), all[..i])
      {
        conn.DelPointer(grpx + all[i].0 + "::" + all[i].1, Ref(all[i].0, all[i].1));
        DelListedNext(old(conn.ix), all, i);
      }
      assert all[..|all|] == all;
    }

    /** evict_by_primary.lua */
    method EvictByPrimaryScript(vkey: string, mkey: string, grpx: string, ghost pk: string)
      requires Valid()
      requires vkey == ValueKey(conn.ns, pk, false) && mkey == MembersKey(conn.ns, pk, false)
      requires grpx == ColocatedGrpPrefix(conn.ns)
      modifies conn.server`cells, conn`ix
      ensures Valid() && conn.OthersKept() && conn.ix == Evict(old(conn.ix), pk)
    {
      conn.DelValue(vkey, pk);
      var all := conn.GetFields(mkey, pk);
      DelAll(all, grpx);
      conn.DelMembers(mkey, pk);
      WithoutPointersOf(old(conn.ix), all, FieldsOf(old(conn.ix), pk));
    }

    /** evict_by_alias.lua */
    method EvictByAliasScript(pkey: string, vpx: string, mpx: string, grpx: string, ghost ref: Ref)
      requires Valid() && GoodField(ref.field)
      requires pkey == PointerKey(conn.ns, ref.field, ref.value, false)
      requires vpx == ColocatedValuePrefix(conn.ns) && mpx == ColocatedMembersPrefix(conn.ns)
      requires grpx == ColocatedGrpPrefix(conn.ns)
      modifies conn.server`cells, conn`ix
      ensures Valid() && conn.OthersKept() && conn.ix == AliasIndex.EvictByAlias(old(conn.ix), ref)
    {
      var pk := conn.GetPointer(pkey, ref);
      if pk.None? { return; }
      conn.DelValue(vpx + pk.value, pk.value);
      var mkey := mpx + pk.value;
      var all := conn.GetFields(mkey, pk.value);
      DelAll(all, grpx);
      conn.DelMembers(mkey, pk.value);
      WithoutPointersOf(old(conn.ix), all, FieldsOf(old(conn.ix), pk.value));
    }
  }

  // ---- the script loops, whatever order HGETALL chose ----

  function ExpireListed(ix: Index, all: seq<(string, string)>, exp: Option<int>): Index {
    ix.(pointers := map r | r in ix.pointers ::
          if (r.field, r.value) in all then ix.pointers[r].(exp := exp) else ix.pointers[r])
  }

  function DelListed(ix: Index, all: seq<(string, string)>): Index {
    ix.(pointers := ix.pointers - (set r | r in ix.pointers && (r.field, r.value) in all))
  }

  lemma ExpireListedNext(ix: Index, all: seq<(string, string)>, i: nat, exp: Option<int>)
    requires i < |all|
    ensures ExpireListed(ix, all[..i + 1], exp) ==
            ExpirePointer(ExpireListed(ix, all[..i], exp), Ref(all[i].0, all[i].1), exp)
  {
    assert all[..i + 1] == all[..i] + [all[i]];
  }

  lemma DelListedNext(ix: Index, all: seq<(string, string)>, i: nat)
    requires i < |all|
    ensures DelListed(ix, all[..i + 1]) == DelPointer(DelListed(ix, all[..i]), Ref(all[i].0, all[i].1))
  {
    assert all[..i + 1] == all[..i] + [all[i]];
  }

  lemma WithPointerExpiryOf(ix: Index, all: seq<(string, string)>, h: map<string, string>, exp: Option<int>)
    requires Lists(all, h)
    ensures ExpireListed(ix, all, exp) == WithPointerExpiry(ix, h, exp)
  {
    assert forall r: Ref :: (r.field, r.value) in all <==> Names(h, r);
  }

  lemma WithoutPointersOf(ix: Index, all: seq<(string, string)>, h: map<string, string>)
    requires Lists(all, h)
    ensures DelListed(ix, all) == WithoutPointers(ix, h)
  {
    assert forall r: Ref :: (r.field, r.value) in all <==> Names(h, r);
  }
}
