/** A Redis connection as one alias group uses it. Every command acts on a real key string and
    says what it does to the group's index, given what that key is for. */
module GroupConnection {
  import opened Basics
  import opened Expiries
  import opened Keyspace
  import opened KeyCodec
  import opened Redis
  import opened AliasIndex
  import opened CellLayout

  class GroupConn {
    const server: Server
    const ns: string
    const sharded: bool
    ghost var ix: Index

    ghost function Layout(): Layout {
      Keys(ns, sharded)
    }

    /** The server's cells at this group's keys are exactly ix. */
    ghost predicate Valid()
      reads this, server
    {
      Holds(Layout(), server.cells, ix)
    }

    /** No key outside the group has changed. */
    twostate predicate OthersKept()
      reads this, server
    {
      SameElsewhere(Layout(), old(server.cells), server.cells)
    }

    /** Every plain cache's key, and every key of another namespace or of the other mode, holds the
        same cell as before. */
    twostate predicate ForeignKept()
      reads this, server
    {
      forall id :: Good(id) && !Ours(ns, sharded, id) ==>
        Lookup(server.cells, Encode(id)) == Lookup(old(server.cells), Encode(id))
    }

    twostate lemma KeepsForeign()
      requires OthersKept()
      ensures ForeignKept()
    {
      forall id | Good(id) && !Ours(ns, sharded, id)
        ensures Lookup(server.cells, Encode(id)) == Lookup(old(server.cells), Encode(id))
      {
        ForeignIsElsewhere(ns, sharded, id);
        assert Layout().slot(Encode(id)) == Elsewhere;
      }
    }

    constructor (ns: string, sharded: bool)
      requires GoodNs(ns)
      ensures Valid() && ix == EMPTY && this.ns == ns && this.sharded == sharded
      ensures fresh(server) && server.now == 0
    {
      var redis := new Server();
      this.server := redis;
      this.ns := ns;
      this.sharded := sharded;
      this.ix := EMPTY;
      new;
      KeysSound(ns, sharded);
    }

    method AdvanceTo(time: int)
      requires Valid() && server.now <= time
      modifies server, this`ix
      ensures Valid() && server.now == time && ix == AliasIndex.Purge(old(ix), time)
    {
      HoldsPurge(Layout(), server.cells, ix, time);
      server.AdvanceTo(time);
      ix := AliasIndex.Purge(ix, time);
    }

    method GetValue(key: string, ghost pk: string) returns (r: Option<string>)
      requires Valid() && key == ValueKey(ns, pk, sharded)
      ensures r == if pk in ix.values then Some(ix.values[pk].val) else None
    {
      HoldsValue(Layout(), server.cells, ix, pk);
      r := server.Get(key);
    }

    method SetValue(key: string, ghost pk: string, val: string, ttl: int)
      requires Valid() && key == ValueKey(ns, pk, sharded)
      modifies server`cells, this`ix
      ensures Valid() && OthersKept()
      ensures ix == AliasIndex.SetValue(old(ix), pk, val, Expiry(server.now, ttl))
    {
      HoldsSetValue(Layout(), server.cells, ix, pk, val, Expiry(server.now, ttl));
      server.Set(key, val, ttl);
      ix := AliasIndex.SetValue(ix, pk, val, Expiry(server.now, ttl));
    }

    method DelValue(key: string, ghost pk: string)
      requires Valid() && key == ValueKey(ns, pk, sharded)
      modifies server`cells, this`ix
      ensures Valid() && OthersKept() && ix == AliasIndex.DelValue(old(ix), pk)
    {
      HoldsDelValue(Layout(), server.cells, ix, pk);
      var _ := server.Del(key);
      ix := AliasIndex.DelValue(ix, pk);
    }

    method DelMembers(key: string, ghost pk: string)
      requires Valid() && key == MembersKey(ns, pk, sharded)
      modifies server`cells, this`ix
      ensures Valid() && OthersKept() && ix == AliasIndex.DelMembers(old(ix), pk)
    {
      HoldsDelMembers(Layout(), server.cells, ix, pk);
      var _ := server.Del(key);
      ix := AliasIndex.DelMembers(ix, pk);
    }

    method GetPointer(key: string, ghost r: Ref) returns (pk: Option<string>)
      requires Valid() && GoodField(r.field) && key == PointerKey(ns, r.field, r.value, sharded)
      ensures pk == if r in ix.pointers then Some(ix.pointers[r].val) else None
    {
      HoldsPointer(Layout(), server.cells, ix, r);
      pk := server.Get(key);
    }

    method SetPointer(key: string, ghost r: Ref, pk: string, ttl: int)
      requires Valid() && GoodField(r.field) && key == PointerKey(ns, r.field, r.value, sharded)
      modifies server`cells, this`ix
      ensures Valid() && OthersKept()
      ensures ix == AliasIndex.SetPointer(old(ix), r, pk, Expiry(server.now, ttl))
    {
      HoldsSetPointer(Layout(), server.cells, ix, r, pk, Expiry(server.now, ttl));
      server.Set(key, pk, ttl);
      ix := AliasIndex.SetPointer(ix, r, pk, Expiry(server.now, ttl));
    }

    method DelPointer(key: string, ghost r: Ref)
      requires Valid() && GoodField(r.field) && key == PointerKey(ns, r.field, r.value, sharded)
      modifies server`cells, this`ix
      ensures Valid() && OthersKept() && ix == AliasIndex.DelPointer(old(ix), r)
    {
      HoldsDelPointer(Layout(), server.cells, ix, r);
      var _ := server.Del(key);
      ix := AliasIndex.DelPointer(ix, r);
    }

    method GetField(key: string, ghost pk: string, field: string) returns (v: Option<string>)
      requires Valid() && key == MembersKey(ns, pk, sharded)
      ensures v == if field in FieldsOf(ix, pk) then Some(FieldsOf(ix, pk)[field]) else None
    {
      HoldsFields(Layout(), server.cells, ix, pk);
      v := server.HGet(key, field);
    }

    method GetFields(key: string, ghost pk: string) returns (all: seq<(string, string)>)
      requires Valid() && key == MembersKey(ns, pk, sharded)
      ensures Lists(all, FieldsOf(ix, pk))
      ensures forall i :: 0 <= i < |all| ==> GoodField(all[i].0)
    {
      HoldsFields(Layout(), server.cells, ix, pk);
      all := server.HGetAll(key);
      forall i | 0 <= i < |all| ensures GoodField(all[i].0) {
        assert (all[i].0, all[i].1) in all;
      }
    }

    method SetField(key: string, ghost pk: string, field: string, value: string)
      requires Valid() && GoodField(field) && key == MembersKey(ns, pk, sharded)
      modifies server`cells, this`ix
      ensures Valid() && OthersKept() && ix == AliasIndex.SetField(old(ix), pk, Ref(field, value))
    {
      HoldsFields(Layout(), server.cells, ix, pk);
      HoldsSetField(Layout(), server.cells, ix, pk, Ref(field, value));
      server.HSet(key, field, value);
      ix := AliasIndex.SetField(ix, pk, Ref(field, value));
    }

    method DelField(key: string, ghost pk: string, field: string)
      requires Valid() && key == MembersKey(ns, pk, sharded)
      modifies server`cells, this`ix
      ensures Valid() && OthersKept() && ix == AliasIndex.DelField(old(ix), pk, field, false)
    {
      HoldsFields(Layout(), server.cells, ix, pk);
      HoldsDelField(Layout(), server.cells, ix, pk, field);
      server.HDel(key, field);
      ix := AliasIndex.DelField(ix, pk, field, false);
    }

    /** PEXPIRE for a positive TTL, PERSIST otherwise. */
    method ExpireMembers(key: string, ghost pk: string, ttl: int)
      requires Valid() && key == MembersKey(ns, pk, sharded)
      modifies server`cells, this`ix
      ensures Valid() && OthersKept()
      ensures ix == AliasIndex.ExpireMembers(old(ix), pk, Expiry(server.now, ttl))
    {
      HoldsExpireMembers(Layout(), server.cells, ix, pk, Expiry(server.now, ttl));
      if ttl > 0 { server.PExpire(key, ttl); } else { server.Persist(key); }
      ix := AliasIndex.ExpireMembers(ix, pk, Expiry(server.now, ttl));
    }

    method ExpirePointer(key: string, ghost r: Ref, ttl: int)
      requires Valid() && GoodField(r.field) && key == PointerKey(ns, r.field, r.value, sharded)
      modifies server`cells, this`ix
      ensures Valid() && OthersKept()
      ensures ix == AliasIndex.ExpirePointer(old(ix), r, Expiry(server.now, ttl))
    {
      HoldsExpirePointer(Layout(), server.cells, ix, r, Expiry(server.now, ttl));
      if ttl > 0 { server.PExpire(key, ttl); } else { server.Persist(key); }
      ix := AliasIndex.ExpirePointer(ix, r, Expiry(server.now, ttl));
    }
  }
}
