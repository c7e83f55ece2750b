/** The in-memory store (memstore): one map of entries and one of members hashes, changed in
    place under one lock. Clock readings are parameters, in the order the code takes them. */
module MemStore {
  import opened Basics
  import opened Expiries
  import opened Keyspace
  import opened KeyCodec
  import opened AliasIndex
  import opened BulkIndex
  import opened CellLayout
  import Redis

  class MembersHash {
    var fields: map<string, string>
    var expiresAt: Option<int>

    constructor ()
      ensures fields == map[] && expiresAt == None
    {
      fields := map[];
      expiresAt := None;
    }
  }

  class Store {
    var data: map<string, Entry>
    var members: map<string, MembersHash>

    constructor ()
      ensures data == map[] && members == map[]
    {
      data := map[];
      members := map[];
    }

    /** Two keys never share a hash object. */
    ghost predicate Unshared()
      reads this`members
    {
      forall k, j :: k in members && j in members && k != j ==> members[k] != members[j]
    }

    /** The members hashes as values. */
    ghost function Hashes(): map<string, Hash>
      reads this`members, members.Values
    {
      map k | k in members :: Hash(members[k].fields, members[k].expiresAt)
    }

    /** Rewrites the hash under k, in place. */
    method SetHash(k: string, fields: map<string, string>, exp: Option<int>)
      requires Unshared() && k in members
      modifies members[k]
      ensures Hashes() == old(Hashes())[k := Hash(fields, exp)]
    {
      members[k].fields := fields;
      members[k].expiresAt := exp;
    }

    method DropHash(k: string)
      requires Unshared()
      modifies this`members
      ensures Unshared() && members == old(members) - {k}
      ensures members.Values <= old(members.Values)
      ensures Hashes() == old(Hashes()) - {k}
    {
      members := members - {k};
    }

    /** A new, empty hash under k. */
    method AddHash(k: string)
      requires Unshared() && k !in members
      modifies this`members
      ensures Unshared() && k in members && fresh(members[k])
      ensures members == old(members)[k := members[k]]
      ensures Hashes() == old(Hashes())[k := Hash(map[], None)]
    {
      var mh := new MembersHash();
      members := members[k := mh];
    }
  }

  /** What the two maps hold for a slot. */
  function Stored(l: Layout, data: map<string, Entry>, hashes: map<string, Hash>, s: Slot): Option<Redis.Cell>
    requires !s.Elsewhere?
  {
    var k := KeyOf(l, s);
    if s.MembersSlot? then (if k in hashes then Some(HashCell(hashes[k])) else None)
    else (if k in data then Some(StrCell(data[k])) else None)
  }

  /** At this group's keys the two maps are exactly the index. */
  ghost predicate HoldsMaps(l: Layout, data: map<string, Entry>, hashes: map<string, Hash>, ix: Index) {
    && Sound(l)
    && GoodFields(ix)
    && (forall s :: Usable(s) ==> Stored(l, data, hashes, s) == Wanted(ix, s))
  }

  function EntryAt(data: map<string, Entry>, k: string): Option<Entry> {
    if k in data then Some(data[k]) else None
  }

  function HashAt(hashes: map<string, Hash>, k: string): Option<Hash> {
    if k in hashes then Some(hashes[k]) else None
  }

  /** Every key outside the group is as before, in both maps. */
  ghost predicate MapsElsewhere(l: Layout, data: map<string, Entry>, hashes: map<string, Hash>,
                                data': map<string, Entry>, hashes': map<string, Hash>) {
    forall k :: l.slot(k) == Elsewhere ==>
      EntryAt(data', k) == EntryAt(data, k) && HashAt(hashes', k) == HashAt(hashes, k)
  }

  lemma OneDataSlot(l: Layout, data: map<string, Entry>, hashes: map<string, Hash>, ix: Index, s0: Slot,
                    data': map<string, Entry>, ix': Index)
    requires HoldsMaps(l, data, hashes, ix) && Usable(s0) && !s0.MembersSlot? && GoodFields(ix')
    requires forall k :: k != KeyOf(l, s0) ==> EntryAt(data', k) == EntryAt(data, k)
    requires forall s :: s != s0 ==> Wanted(ix', s) == Wanted(ix, s)
    requires Stored(l, data', hashes, s0) == Wanted(ix', s0)
    ensures HoldsMaps(l, data', hashes, ix') && MapsElsewhere(l, data, hashes, data', hashes)
  {
    forall s | Usable(s) ensures Stored(l, data', hashes, s) == Wanted(ix', s) {
      if s != s0 {
        assert l.slot(KeyOf(l, s)) == s && l.slot(KeyOf(l, s0)) == s0;
        assert EntryAt(data', KeyOf(l, s)) == EntryAt(data, KeyOf(l, s));
        assert Stored(l, data, hashes, s) == Wanted(ix, s);
      }
    }
    forall k | l.slot(k) == Elsewhere ensures EntryAt(data', k) == EntryAt(data, k) {
      assert l.slot(KeyOf(l, s0)) == s0;
    }
  }

  lemma OneHashSlot(l: Layout, data: map<string, Entry>, hashes: map<string, Hash>, ix: Index, pk: string,
                    hashes': map<string, Hash>, ix': Index)
    requires HoldsMaps(l, data, hashes, ix) && GoodFields(ix')
    requires forall k :: k != l.members(pk) ==> HashAt(hashes', k) == HashAt(hashes, k)
    requires forall s :: s != MembersSlot(pk) ==> Wanted(ix', s) == Wanted(ix, s)
    requires Stored(l, data, hashes', MembersSlot(pk)) == Wanted(ix', MembersSlot(pk))
    ensures HoldsMaps(l, data, hashes', ix') && MapsElsewhere(l, data, hashes, data, hashes')
  {
    forall s | Usable(s) ensures Stored(l, data, hashes', s) == Wanted(ix', s) {
      if s != MembersSlot(pk) {
        assert l.slot(KeyOf(l, s)) == s && l.slot(KeyOf(l, MembersSlot(pk))) == MembersSlot(pk);
        assert HashAt(hashes', KeyOf(l, s)) == HashAt(hashes, KeyOf(l, s));
        assert Stored(l, data, hashes, s) == Wanted(ix, s);
      }
    }
    forall k | l.slot(k) == Elsewhere ensures HashAt(hashes', k) == HashAt(hashes, k) {
      assert l.slot(KeyOf(l, MembersSlot(pk))) == MembersSlot(pk);
    }
  }

  // ---- map accesses, each at the key of one slot ----

  lemma MapsSetValue(l: Layout, data: map<string, Entry>, hashes: map<string, Hash>, ix: Index,
                     pk: string, val: string, exp: Option<int>)
    requires HoldsMaps(l, data, hashes, ix)
    ensures var data' := data[l.value(pk) := Entry(val, exp)];
            HoldsMaps(l, data', hashes, SetValue(ix, pk, val, exp)) && MapsElsewhere(l, data, hashes, data', hashes)
  {
    OneDataSlot(l, data, hashes, ix, ValueSlot(pk), data[l.value(pk) := Entry(val, exp)], SetValue(ix, pk, val, exp));
  }

  lemma MapsDelValue(l: Layout, data: map<string, Entry>, hashes: map<string, Hash>, ix: Index, pk: string)
    requires HoldsMaps(l, data, hashes, ix)
    ensures var data' := data - {l.value(pk)};
            HoldsMaps(l, data', hashes, DelValue(ix, pk)) && MapsElsewhere(l, data, hashes, data', hashes)
  {
    OneDataSlot(l, data, hashes, ix, ValueSlot(pk), data - {l.value(pk)}, DelValue(ix, pk));
  }

  lemma MapsSetPointer(l: Layout, data: map<string, Entry>, hashes: map<string, Hash>, ix: Index,
                       r: Ref, pk: string, exp: Option<int>)
    requires HoldsMaps(l, data, hashes, ix) && GoodField(r.field)
    ensures var data' := data[l.pointer(r) := Entry(pk, exp)];
            HoldsMaps(l, data', hashes, SetPointer(ix, r, pk, exp)) && MapsElsewhere(l, data, hashes, data', hashes)
  {
    OneDataSlot(l, data, hashes, ix, PointerSlot(r), data[l.pointer(r) := Entry(pk, exp)], SetPointer(ix, r, pk, exp));
  }

  lemma MapsDelPointer(l: Layout, data: map<string, Entry>, hashes: map<string, Hash>, ix: Index, r: Ref)
    requires HoldsMaps(l, data, hashes, ix) && GoodField(r.field)
    ensures var data' := data - {l.pointer(r)};
            HoldsMaps(l, data', hashes, DelPointer(ix, r)) && MapsElsewhere(l, data, hashes, data', hashes)
  {
    OneDataSlot(l, data, hashes, ix, PointerSlot(r), data - {l.pointer(r)}, DelPointer(ix, r));
  }

  lemma MapsSetHash(l: Layout, data: map<string, Entry>, hashes: map<string, Hash>, ix: Index, pk: string, h: Hash)
    requires HoldsMaps(l, data, hashes, ix) && (forall f :: f in h.fields ==> GoodField(f))
    ensures var hashes', ix' := hashes[l.members(pk) := h], ix.(members := ix.members[pk := h]);
            HoldsMaps(l, data, hashes', ix') && MapsElsewhere(l, data, hashes, data, hashes')
  {
    OneHashSlot(l, data, hashes, ix, pk, hashes[l.members(pk) := h], ix.(members := ix.members[pk := h]));
  }

  lemma MapsDelHash(l: Layout, data: map<string, Entry>, hashes: map<string, Hash>, ix: Index, pk: string)
    requires HoldsMaps(l, data, hashes, ix)
    ensures var hashes' := hashes - {l.members(pk)};
            HoldsMaps(l, data, hashes', DelMembers(ix, pk)) && MapsElsewhere(l, data, hashes, data, hashes')
  {
    OneHashSlot(l, data, hashes, ix, pk, hashes - {l.members(pk)}, DelMembers(ix, pk));
  }

  /** What each map access reads. */
  lemma MapsRead(l: Layout, data: map<string, Entry>, hashes: map<string, Hash>, ix: Index, pk: string, r: Ref)
    requires HoldsMaps(l, data, hashes, ix)
    ensures EntryAt(data, l.value(pk)) == if pk in ix.values then Some(ix.values[pk]) else None
    ensures HashAt(hashes, l.members(pk)) == if pk in ix.members then Some(ix.members[pk]) else None
    ensures GoodField(r.field) ==>
              EntryAt(data, l.pointer(r)) == if r in ix.pointers then Some(ix.pointers[r]) else None
  {
    assert Stored(l, data, hashes, ValueSlot(pk)) == Wanted(ix, ValueSlot(pk));
    assert Stored(l, data, hashes, MembersSlot(pk)) == Wanted(ix, MembersSlot(pk));
    if GoodField(r.field) {
      assert Stored(l, data, hashes, PointerSlot(r)) == Wanted(ix, PointerSlot(r));
    }
  }

  // ---- specification of the operations ----

  /** Go reads a missing map key as "". */
  function FieldOrEmpty(h: map<string, string>, field: string): string {
    if field in h then h[field] else ""
  }

  /** GetByAlias reads the clock up to three times: for the pointer, the members and the value. */
  function MemGetByAlias(ix: Index, r: Ref, at: int, later: int, latest: int): Option<string> {
    if r !in ix.pointers || !LiveAt(ix.pointers[r].exp, at) then None
    else var pk := ix.pointers[r].val;
         if pk !in ix.members || !LiveAt(ix.members[pk].exp, later)
            || FieldOrEmpty(ix.members[pk].fields, r.field) != r.value then None
         else MemGetValue(ix, pk, latest)
  }

  function MemGetValue(ix: Index, pk: string, at: int): Option<string> {
    if pk in ix.values && LiveAt(ix.values[pk].exp, at) then Some(ix.values[pk].val) else None
  }

  class MemAliasOps {
    const s: Store
    const ns: string
    const sharded: bool
    ghost var ix: Index

    ghost predicate Valid()
      reads this, s, s.members.Values
    {
      s.Unshared() && HoldsMaps(Keys(ns, sharded), s.data, s.Hashes(), ix)
    }

    constructor (ns: string, sharded: bool)
      requires GoodNs(ns)
      ensures Valid() && ix == EMPTY && this.ns == ns && this.sharded == sharded
      ensures fresh(s) && s.members == map[]
    {
      var store := new Store();
      this.s := store;
      this.ns := ns;
      this.sharded := sharded;
      this.ix := EMPTY;
      new;
      KeysSound(ns, sharded);
    }

    ghost function L(): Layout {
      Keys(ns, sharded)
    }

    /** Nothing outside the group has changed. */
    twostate predicate OthersKept()
      reads this, s, s.members.Values
    {
      MapsElsewhere(L(), old(s.data), old(s.Hashes()), s.data, s.Hashes())
    }

    /** Every plain cache's key, and every key of another namespace or of the other mode, holds the
        same in both maps as before. */
    twostate predicate ForeignKept()
      reads this, s, s.members.Values
    {
      forall id :: Good(id) && !Ours(ns, sharded, id) ==>
        && EntryAt(s.data, Encode(id)) == EntryAt(old(s.data), Encode(id))
        && HashAt(s.Hashes(), Encode(id)) == HashAt(old(s.Hashes()), Encode(id))
    }

    twostate lemma KeepsForeign()
      requires OthersKept()
      ensures ForeignKept()
    {
      forall id | Good(id) && !Ours(ns, sharded, id)
        ensures EntryAt(s.data, Encode(id)) == EntryAt(old(s.data), Encode(id))
        ensures HashAt(s.Hashes(), Encode(id)) == HashAt(old(s.Hashes()), Encode(id))
      {
        ForeignIsElsewhere(ns, sharded, id);
        assert L().slot(Encode(id)) == Elsewhere;
      }
    }

    method GetValue(primary: string, at: int) returns (r: Option<string>)
      requires Valid()
      ensures r == MemGetValue(ix, primary, at)
    {
      MapsRead(L(), s.data, s.Hashes(), ix, primary, Ref("", ""));
      var key := ValueKey(ns, primary, sharded);
      if key !in s.data || !LiveAt(s.data[key].exp, at) { return None; }
      r := Some(s.data[key].val);
    }

    method GetByAlias(ref: Ref, at: int, later: int, latest: int) returns (r: Option<string>)
      requires Valid() && GoodField(ref.field)
      ensures r == MemGetByAlias(ix, ref, at, later, latest)
    {
      MapsRead(L(), s.data, s.Hashes(), ix, "", ref);
      var pkey := PointerKey(ns, ref.field, ref.value, sharded);
      if pkey !in s.data || !LiveAt(s.data[pkey].exp, at) { return None; }
      var pk := s.data[pkey].val;
      MapsRead(L(), s.data, s.Hashes(), ix, pk, ref);
      var mkey := MembersKey(ns, pk, sharded);
      if mkey !in s.members { return None; }
      var mh := s.members[mkey];
      assert s.Hashes()[mkey] == Hash(mh.fields, mh.expiresAt);
      if !LiveAt(mh.expiresAt, later) || FieldOrEmpty(mh.fields, ref.field) != ref.value { return None; }
      r := GetValue(pk, latest);
    }

    method PutValue(primary: string, val: string, ttl: int, at: int, later: int)
      requires Valid()
      modifies s, s.members.Values, this`ix
      ensures Valid() && OthersKept()
      ensures ix == AliasIndex.PutValue(old(ix), primary, val, Expiry(at, ttl), Expiry(later, ttl))
      ensures s.members == old(s.members)
      ensures ForeignKept()
    {
      WriteValueLocked(primary, val, Expiry(at, ttl));
      RefreshGroupLocked(primary, Expiry(later, ttl));
      KeepsForeign();
    }

    method WriteValueLocked(primary: string, val: string, exp: Option<int>)
      requires Valid()
      modifies s`data, this`ix
      ensures Valid() && OthersKept() && ix == SetValue(old(ix), primary, val, exp)
    {
      MapsSetValue(L(), s.data, s.Hashes(), ix, primary, val, exp);
      s.data := s.data[ValueKey(ns, primary, sharded) := Entry(val, exp)];
      ix := SetValue(ix, primary, val, exp);
    }

    method WritePointer(ref: Ref, pk: string, exp: Option<int>)
      requires Valid() && GoodField(ref.field)
      modifies s`data, this`ix
      ensures Valid() && OthersKept() && ix == SetPointer(old(ix), ref, pk, exp)
    {
      MapsSetPointer(L(), s.data, s.Hashes(), ix, ref, pk, exp);
      s.data := s.data[PointerKey(ns, ref.field, ref.value, sharded) := Entry(pk, exp)];
      ix := SetPointer(ix, ref, pk, exp);
    }

    method DeletePointer(ref: Ref)
      requires Valid() && GoodField(ref.field)
      modifies s`data, this`ix
      ensures Valid() && OthersKept() && ix == DelPointer(old(ix), ref)
    {
      MapsDelPointer(L(), s.data, s.Hashes(), ix, ref);
      s.data := s.data - {PointerKey(ns, ref.field, ref.value, sharded)};
      ix := DelPointer(ix, ref);
    }

    /** Rewrites primary's members hash, in place. */
    method EditHash(primary: string, fields: map<string, string>, exp: Option<int>)
      requires Valid() && MembersKey(ns, primary, sharded) in s.members
      requires forall f :: f in fields ==> GoodField(f)
      modifies s.members[MembersKey(ns, primary, sharded)], this`ix
      ensures Valid() && OthersKept()
      ensures ix == old(ix).(members := old(ix).members[primary := Hash(fields, exp)])
      ensures s.Hashes() == old(s.Hashes())[MembersKey(ns, primary, sharded) := Hash(fields, exp)]
    {
      MapsSetHash(L(), s.data, s.Hashes(), ix, primary, Hash(fields, exp));
      s.SetHash(MembersKey(ns, primary, sharded), fields, exp);
      ix := ix.(members := ix.members[primary := Hash(fields, exp)]);
    }

    /** A new, empty members hash for a primary that has none. */
    method NewHash(primary: string)
      requires Valid() && MembersKey(ns, primary, sharded) !in s.members
      modifies s`members, this`ix
      ensures Valid() && OthersKept()
      ensures var k := MembersKey(ns, primary, sharded);
              k in s.members && fresh(s.members[k]) && s.members == old(s.members)[k := s.members[k]]
      ensures ix == old(ix).(members := old(ix).members[primary := Hash(map[], None)])
    {
      MapsSetHash(L(), s.data, s.Hashes(), ix, primary, Hash(map[], None));
      s.AddHash(MembersKey(ns, primary, sharded));
      ix := ix.(members := ix.members[primary := Hash(map[], None)]);
    }

    method RefreshGroupLocked(primary: string, exp: Option<int>)
      requires Valid()
      modifies s`data, s.members.Values, this`ix
      ensures Valid() && OthersKept() && ix == Refresh(old(ix), primary, exp)
    {
      MapsRead(L(), s.data, s.Hashes(), ix, primary, Ref("", ""));
      var mkey := MembersKey(ns, primary, sharded);
      if mkey !in s.members {
        return;
      }
      var fields := s.members[mkey].fields;
      assert s.Hashes()[mkey] == Hash(fields, s.members[mkey].expiresAt);
      EditHash(primary, fields, exp);
      ExpirePointers(fields, exp);
    }

    /** The loop of refreshGroupLocked over the fields of one hash, in any order. */
    method ExpirePointers(fields: map<string, string>, exp: Option<int>)
      requires Valid() && forall f :: f in fields ==> GoodField(f)
      modifies s`data, this`ix
      ensures Valid() && OthersKept() && ix == WithPointerExpiry(old(ix), fields, exp)
    {
      var rest := fields.Keys;
      while rest != {}
        invariant Valid() && OthersKept() && rest <= fields.Keys
        invariant ix == WithPointerExpiry(old(ix), Without(fields, rest), exp)
      {
        var field :| field in rest;
        ExpireOne(Ref(field, fields[field]), exp);
        ExpiryStep(old(ix), fields, rest, field, exp);
        rest := rest - {field};
      }
      assert Without(fields, rest) == fields;
    }

    method ExpireOne(ref: Ref, exp: Option<int>)
      requires Valid() && GoodField(ref.field)
      modifies s`data, this`ix
      ensures Valid() && OthersKept() && ix == ExpirePointer(old(ix), ref, exp)
    {
      MapsRead(L(), s.data, s.Hashes(), ix, "", ref);
      var pkey := PointerKey(ns, ref.field, ref.value, sharded);
      if pkey in s.data {
        WritePointer(ref, s.data[pkey].val, exp);
      }
    }

    method PutByAlias(primary: string, ref: Ref, val: string, ttl: int, at: int, later: int, latest: int)
      requires Valid() && GoodField(ref.field)
      modifies s, s.members.Values, this`ix
      ensures Valid() && OthersKept()
      ensures ix == AliasIndex.PutByAlias(old(ix), primary, ref, val, true, Expiry(at, ttl), Expiry(latest, ttl))
      ensures fresh(s.members.Values - old(s.members.Values))
      ensures ForeignKept()
    {
      WriteValueLocked(primary, val, Expiry(at, ttl));
      ghost var stored := ix;
      LinkLocked(primary, ref, Expiry(later, ttl));
      RefreshGroupLocked(primary, Expiry(latest, ttl));
      RefreshSetsPointerExpiry(stored, primary, ref, Expiry(later, ttl), Expiry(latest, ttl));
      KeepsForeign();
    }

    /** The alias moves to primary: its pointer and its members field. */
    method LinkLocked(primary: string, ref: Ref, exp: Option<int>)
      requires Valid() && GoodField(ref.field)
      modifies s, s.members.Values, this`ix
      ensures Valid() && OthersKept()
      ensures ix == SetField(SetPointer(Steal(Replace(old(ix), primary, ref), primary, ref, true), ref, primary, exp),
                             primary, ref)
      ensures fresh(s.members.Values - old(s.members.Values))
    {
      ReplaceLocked(primary, ref);
      StealLocked(primary, ref);
      WritePointer(ref, primary, exp);
      SetFieldLocked(primary, ref);
    }

    /** One alias per field: the pointer of a replaced value goes. */
    method ReplaceLocked(primary: string, ref: Ref)
      requires Valid() && GoodField(ref.field)
      modifies s`data, this`ix
      ensures Valid() && OthersKept() && ix == Replace(old(ix), primary, ref)
    {
      MapsRead(L(), s.data, s.Hashes(), ix, primary, ref);
      var mkey := MembersKey(ns, primary, sharded);
      if mkey in s.members {
        var mh := s.members[mkey];
        assert s.Hashes()[mkey] == Hash(mh.fields, mh.expiresAt);
        if ref.field in mh.fields && mh.fields[ref.field] != ref.value {
          DeletePointer(Ref(ref.field, mh.fields[ref.field]));
        }
      }
    }

    /** A pointer that targets another primary is stolen from its members hash. */
    method StealLocked(primary: string, ref: Ref)
      requires Valid() && GoodField(ref.field)
      modifies s.members.Values, this`ix
      ensures Valid() && OthersKept() && ix == Steal(old(ix), primary, ref, true)
    {
      MapsRead(L(), s.data, s.Hashes(), ix, "", ref);
      var pkey := PointerKey(ns, ref.field, ref.value, sharded);
      if pkey in s.data && s.data[pkey].val != primary {
        var oldPk := s.data[pkey].val;
        MapsRead(L(), s.data, s.Hashes(), ix, oldPk, ref);
        var mkey := MembersKey(ns, oldPk, sharded);
        if mkey in s.members {
          var oldMh := s.members[mkey];
          assert s.Hashes()[mkey] == Hash(oldMh.fields, oldMh.expiresAt);
          StealFieldIs(ix, oldPk, ref.field);
          EditHash(oldPk, oldMh.fields - {ref.field}, oldMh.expiresAt);
        }
      }
    }

    method SetFieldLocked(primary: string, ref: Ref)
      requires Valid() && GoodField(ref.field)
      modifies s`members, s.members.Values, this`ix
      ensures Valid() && OthersKept() && ix == SetField(old(ix), primary, ref)
      ensures fresh(s.members.Values - old(s.members.Values))
    {
      EnsureHash(primary);
      SetFieldIs(old(ix), ix, primary, ref);
      var mkey := MembersKey(ns, primary, sharded);
      var fields := s.members[mkey].fields;
      assert s.Hashes()[mkey] == Hash(fields, s.members[mkey].expiresAt);
      EditHash(primary, fields[ref.field := ref.value], s.members[mkey].expiresAt);
    }

    method EnsureHash(primary: string)
      requires Valid()
      modifies s`members, this`ix
      ensures Valid() && OthersKept()
      ensures fresh(s.members.Values - old(s.members.Values))
      ensures var k := MembersKey(ns, primary, sharded);
              k in s.members && primary in ix.members && s.Hashes()[k] == ix.members[primary]
      ensures ix == if primary in old(ix).members then old(ix)
                    else old(ix).(members := old(ix).members[primary := Hash(map[], None)])
    {
      MapsRead(L(), s.data, s.Hashes(), ix, primary, Ref("", ""));
      if MembersKey(ns, primary, sharded) !in s.members {
        NewHash(primary);
        MapsRead(L(), s.data, s.Hashes(), ix, primary, Ref("", ""));
      }
    }

    method EvictByPrimary(primary: string)
      requires Valid()
      modifies s, this`ix
      ensures Valid() && OthersKept() && ix == Evict(old(ix), primary)
      ensures s.members.Values <= old(s.members.Values)
      ensures ForeignKept()
    {
      EvictLocked(primary);
      KeepsForeign();
    }

    /** EvictByAlias follows the pointer even when it has expired. */
    method EvictByAlias(ref: Ref)
      requires Valid() && GoodField(ref.field)
      modifies s, this`ix
      ensures Valid() && OthersKept() && ix == AliasIndex.EvictByAlias(old(ix), ref)
      ensures s.members.Values <= old(s.members.Values)
      ensures ForeignKept()
    {
      MapsRead(L(), s.data, s.Hashes(), ix, "", ref);
      var pkey := PointerKey(ns, ref.field, ref.value, sharded);
      if pkey !in s.data {
        KeepsForeign();
        return;
      }
      EvictLocked(s.data[pkey].val);
      KeepsForeign();
    }

    method EvictLocked(primary: string)
      requires Valid()
      modifies s, this`ix
      ensures Valid() && OthersKept() && ix == Evict(old(ix), primary)
      ensures s.members.Values <= old(s.members.Values)
    {
      MapsRead(L(), s.data, s.Hashes(), ix, primary, Ref("", ""));
      var mkey := MembersKey(ns, primary, sharded);
      DeleteValue(primary);
      if mkey in s.members {
        var mh := s.members[mkey];
        assert s.Hashes()[mkey] == Hash(mh.fields, mh.expiresAt);
        DeletePointers(mh.fields);
      }
      DeleteHash(primary);
    }

    method DeleteValue(primary: string)
      requires Valid()
      modifies s`data, this`ix
      ensures Valid() && OthersKept() && ix == DelValue(old(ix), primary)
    {
      MapsDelValue(L(), s.data, s.Hashes(), ix, primary);
      s.data := s.data - {ValueKey(ns, primary, sharded)};
      ix := DelValue(ix, primary);
    }

    method DeleteHash(primary: string)
      requires Valid()
      modifies s`members, this`ix
      ensures Valid() && OthersKept() && ix == DelMembers(old(ix), primary)
      ensures s.members.Values <= old(s.members.Values)
    {
      MapsDelHash(L(), s.data, s.Hashes(), ix, primary);
      s.DropHash(MembersKey(ns, primary, sharded));
      ix := DelMembers(ix, primary);
    }

    /** The loop of evictLocked over the fields of one hash, in any order. */
    method DeletePointers(fields: map<string, string>)
      requires Valid() && forall f :: f in fields ==> GoodField(f)
      modifies s`data, this`ix
      ensures Valid() && OthersKept() && ix == WithoutPointers(old(ix), fields)
    {
      var rest := fields.Keys;
      while rest != {}
        invariant Valid() && OthersKept() && rest <= fields.Keys
        invariant ix == WithoutPointers(old(ix), Without(fields, rest))
      {
        var field :| field in rest;
        DeletePointer(Ref(field, fields[field]));
        DeleteStep(old(ix), fields, rest, field);
        rest := rest - {field};
      }
      assert Without(fields, rest) == fields;
    }

    /** Collects the matching primaries from both maps, then evicts each, in any order. */
    method EvictByPrimaryPrefix(primaryPrefix: string) returns (n: int)
      requires Valid()
      modifies s, this`ix
      ensures Valid() && OthersKept()
      ensures ix == EvictAll(old(ix), Matching(old(ix), primaryPrefix))
      ensures Cleared(false, old(ix), ix, primaryPrefix, {})
      ensures n == |set p | p in old(ix).values.Keys + old(ix).members.Keys && primaryPrefix <= p|
      ensures s.members.Values <= old(s.members.Values)
      ensures ForeignKept()
    {
      MatchingIs(ix, primaryPrefix);
      var fromValues := CollectFromValues(primaryPrefix);
      var fromMembers := CollectFromMembers(primaryPrefix);
      EvictEach(fromValues + fromMembers);
      n := |fromValues + fromMembers|;
      KeepsForeign();
    }

    method EvictEach(primaries: set<string>)
      requires Valid()
      modifies s, this`ix
      ensures Valid() && OthersKept() && ix == EvictAll(old(ix), primaries)
      ensures s.members.Values <= old(s.members.Values)
    {
      var rest := primaries;
      ghost var done := {};
      EvictNone(ix);
      while rest != {}
        invariant Valid() && OthersKept() && s.members.Values <= old(s.members.Values)
        invariant done !! rest && done + rest == primaries
        invariant ix == EvictAll(old(ix), done)
      {
        var pk :| pk in rest;
        EvictOneMore(old(ix), done, pk);
        EvictLocked(pk);
        done := done + {pk};
        rest := rest - {pk};
      }
      assert done == primaries;
    }

    method CollectFromValues(primaryPrefix: string) returns (primaries: set<string>)
      requires Valid()
      ensures primaries == set p | p in ix.values && primaryPrefix <= p
    {
      primaries := {};
      var keys := s.data.Keys;
      ValueKeysStored();
      while keys != {}
        invariant keys <= s.data.Keys
        invariant forall p :: p in primaries <==>
                    p in ix.values && primaryPrefix <= p && ValueKey(ns, p, sharded) !in keys
      {
        var k :| k in keys;
        var pk := PrimaryFromValueKey(ns, k, sharded);
        forall p ensures pk == Some(p) <==> k == ValueKey(ns, p, sharded) {
          ValueKeyInverse(ns, k, sharded, p);
        }
        if pk.Some? && primaryPrefix <= pk.value {
          primaries := primaries + {pk.value};
        }
        keys := keys - {k};
      }
    }

    method CollectFromMembers(primaryPrefix: string) returns (primaries: set<string>)
      requires Valid()
      ensures primaries == set p | p in ix.members && primaryPrefix <= p
    {
      primaries := {};
      var keys := s.members.Keys;
      MembersKeysStored();
      while keys != {}
        invariant keys <= s.members.Keys
        invariant forall p :: p in primaries <==>
                    p in ix.members && primaryPrefix <= p && MembersKey(ns, p, sharded) !in keys
      {
        var k :| k in keys;
        var pk := PrimaryFromMembersKey(ns, k, sharded);
        forall p ensures pk == Some(p) <==> k == MembersKey(ns, p, sharded) {
          MembersKeyInverse(ns, k, sharded, p);
        }
        if pk.Some? && primaryPrefix <= pk.value {
          primaries := primaries + {pk.value};
        }
        keys := keys - {k};
      }
    }

    lemma ValueKeysStored()
      requires Valid()
      ensures forall p :: ValueKey(ns, p, sharded) in s.data <==> p in ix.values
    {
      forall p ensures ValueKey(ns, p, sharded) in s.data <==> p in ix.values {
        MapsRead(L(), s.data, s.Hashes(), ix, p, Ref("", ""));
      }
    }

    lemma MembersKeysStored()
      requires Valid()
      ensures forall p :: MembersKey(ns, p, sharded) in s.members <==> p in ix.members
    {
      forall p ensures MembersKey(ns, p, sharded) in s.members <==> p in ix.members {
        MapsRead(L(), s.data, s.Hashes(), ix, p, Ref("", ""));
      }
    }
  }

  /** The part of h whose fields the loop has done. */
  function Without(h: map<string, string>, rest: set<string>): map<string, string> {
    h - rest
  }

  /** Adding a field to a hash that was made on demand. */
  lemma SetFieldIs(ix: Index, ensured: Index, pk: string, r: Ref)
    requires ensured == if pk in ix.members then ix else ix.(members := ix.members[pk := Hash(map[], None)])
    ensures var h := ensured.members[pk];
            ensured.(members := ensured.members[pk := Hash(h.fields[r.field := r.value], h.exp)]) == SetField(ix, pk, r)
  {
  }

  lemma ExpiryStep(ix: Index, h: map<string, string>, rest: set<string>, field: string, exp: Option<int>)
    requires field in rest && rest <= h.Keys
    ensures WithPointerExpiry(ix, Without(h, rest - {field}), exp) ==
            ExpirePointer(WithPointerExpiry(ix, Without(h, rest), exp), Ref(field, h[field]), exp)
  {
  }

  lemma DeleteStep(ix: Index, h: map<string, string>, rest: set<string>, field: string)
    requires field in rest && rest <= h.Keys
    ensures WithoutPointers(ix, Without(h, rest - {field})) ==
            DelPointer(WithoutPointers(ix, Without(h, rest)), Ref(field, h[field]))
  {
  }

  lemma StealFieldIs(ix: Index, q: string, field: string)
    requires q in ix.members
    ensures DelField(ix, q, field, true) ==
            ix.(members := ix.members[q := Hash(ix.members[q].fields - {field}, ix.members[q].exp)])
  {
    var h := ix.members[q];
    if field !in h.fields {
      assert h.fields - {field} == h.fields;
      assert ix.members[q := Hash(h.fields - {field}, h.exp)] == ix.members;
    }
  }

  /** The refresh that ends a put decides the new pointer's expiry. */
  lemma RefreshSetsPointerExpiry(ix: Index, pk: string, r: Ref, first: Option<int>, exp: Option<int>)
    ensures Refresh(Link(ix, pk, r, true, first), pk, exp) == Refresh(Link(ix, pk, r, true, exp), pk, exp)
  {
    var a, b := Link(ix, pk, r, true, first), Link(ix, pk, r, true, exp);
    assert Names(FieldsOf(a, pk), r);
    assert Refresh(a, pk, exp).pointers == Refresh(b, pk, exp).pointers;
  }
}
