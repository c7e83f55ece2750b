/** How an index lies in a keyed store: which string key each of its items is stored under. */
module CellLayout {
  import opened Basics
  import opened Keyspace
  import opened KeyCodec
  import opened Redis
  import opened Expiries
  import opened AliasIndex

  /** What a key of the store is for, seen from one alias group. */
  datatype Slot = ValueSlot(pk: string) | MembersSlot(pk: string) | PointerSlot(r: Ref) | Elsewhere

  predicate Usable(s: Slot) {
    match s
    case PointerSlot(r) => GoodField(r.field)
    case Elsewhere => false
    case _ => true
  }

  /** The three key builders of one group, and the reading that tells their keys apart. */
  datatype Layout = Layout(value: string -> string, members: string -> string, pointer: Ref -> string,
                           slot: string -> Slot)

  function KeyOf(l: Layout, s: Slot): string
    requires !s.Elsewhere?
  {
    match s
    case ValueSlot(pk) => l.value(pk)
    case MembersSlot(pk) => l.members(pk)
    case PointerSlot(r) => l.pointer(r)
  }

  ghost predicate Sound(l: Layout) {
    forall s :: Usable(s) ==> l.slot(KeyOf(l, s)) == s
  }

  function SlotOf(ns: string, sharded: bool, key: string): Slot {
    match Decode(key)
    case ValueId(n, pk, s) => if n == ns && s == sharded then ValueSlot(pk) else Elsewhere
    case MembersId(n, pk, s) => if n == ns && s == sharded then MembersSlot(pk) else Elsewhere
    case PointerId(n, f, v, s) => if n == ns && s == sharded then PointerSlot(Ref(f, v)) else Elsewhere
    case _ => Elsewhere
  }

  /** The layout of the group ns in the given mode. */
  function Keys(ns: string, sharded: bool): Layout {
    Layout(pk => ValueKey(ns, pk, sharded), pk => MembersKey(ns, pk, sharded),
           (r: Ref) => PointerKey(ns, r.field, r.value, sharded), key => SlotOf(ns, sharded, key))
  }

  /** The real key strings never collide. */
  lemma KeysSound(ns: string, sharded: bool)
    requires GoodNs(ns)
    ensures Sound(Keys(ns, sharded))
  {
    var l := Keys(ns, sharded);
    forall s | Usable(s) ensures l.slot(KeyOf(l, s)) == s {
      match s
      case ValueSlot(pk) => DecodeValue(ns, pk, sharded);
      case MembersSlot(pk) => DecodeMembers(ns, pk, sharded);
      case PointerSlot(r) => DecodePointer(ns, r.field, r.value, sharded);
    }
  }

  /** The key belongs to the alias group ns in the given mode. */
  predicate Ours(ns: string, sharded: bool, id: KeyId) {
    (id.ValueId? || id.MembersId? || id.PointerId?) && id.ns == ns && id.sharded == sharded
  }

  /** Every other well-formed key, of a plain cache, of another namespace or of the other mode, is none
      of the group's. */
  lemma ForeignIsElsewhere(ns: string, sharded: bool, id: KeyId)
    requires Good(id)
    ensures SlotOf(ns, sharded, Encode(id)) == Elsewhere <==> !Ours(ns, sharded, id)
  {
    DecodeEncode(id);
  }

  /** The cell an index wants in a slot. */
  function Wanted(ix: Index, s: Slot): Option<Cell> {
    match s
    case ValueSlot(pk) => if pk in ix.values then Some(StrCell(ix.values[pk])) else None
    case MembersSlot(pk) => if pk in ix.members then Some(HashCell(ix.members[pk])) else None
    case PointerSlot(r) => if r in ix.pointers then Some(StrCell(ix.pointers[r])) else None
    case Elsewhere => None
  }

  function StrCell(e: Entry): Cell { Cell(Str(e.val), e.exp) }

  function HashCell(h: Hash): Cell { Cell(Value.Hash(h.fields), h.exp) }

  function Lookup(c: Cells, k: string): Option<Cell> {
    if k in c then Some(c[k]) else None
  }

  ghost predicate GoodFields(ix: Index) {
    && (forall p, f :: p in ix.members && f in ix.members[p].fields ==> GoodField(f))
    && (forall r :: r in ix.pointers ==> GoodField(r.field))
  }

  /** The cells at this group's keys are exactly the index. */
  ghost predicate Holds(l: Layout, c: Cells, ix: Index) {
    && Sound(l)
    && GoodFields(ix)
    && (forall s :: Usable(s) ==> Lookup(c, KeyOf(l, s)) == Wanted(ix, s))
  }

  /** Everything outside the group is as before. */
  ghost predicate SameElsewhere(l: Layout, c: Cells, c': Cells) {
    forall k :: l.slot(k) == Elsewhere ==> Lookup(c', k) == Lookup(c, k)
  }

  /** Changing one slot's cell changes nothing else of the group, and nothing outside it. */
  lemma OneSlot(l: Layout, c: Cells, ix: Index, s0: Slot, c': Cells, ix': Index)
    requires Holds(l, c, ix) && Usable(s0) && GoodFields(ix')
    requires forall k :: k != KeyOf(l, s0) ==> Lookup(c', k) == Lookup(c, k)
    requires forall s :: s != s0 ==> Wanted(ix', s) == Wanted(ix, s)
    requires Lookup(c', KeyOf(l, s0)) == Wanted(ix', s0)
    ensures Holds(l, c', ix') && SameElsewhere(l, c, c')
  {
    forall s | Usable(s) ensures Lookup(c', KeyOf(l, s)) == Wanted(ix', s) {
      if s != s0 {
        assert l.slot(KeyOf(l, s)) == s && l.slot(KeyOf(l, s0)) == s0;
      }
    }
    forall k | l.slot(k) == Elsewhere ensures Lookup(c', k) == Lookup(c, k) {
      assert l.slot(KeyOf(l, s0)) == s0;
    }
  }

  lemma HoldsSetValue(l: Layout, c: Cells, ix: Index, pk: string, val: string, exp: Option<int>)
    requires Holds(l, c, ix)
    ensures var c' := c[l.value(pk) := Cell(Str(val), exp)];
            Holds(l, c', SetValue(ix, pk, val, exp)) && SameElsewhere(l, c, c')
  {
    OneSlot(l, c, ix, ValueSlot(pk), c[l.value(pk) := Cell(Str(val), exp)], SetValue(ix, pk, val, exp));
  }

  lemma HoldsDelValue(l: Layout, c: Cells, ix: Index, pk: string)
    requires Holds(l, c, ix)
    ensures Holds(l, c - {l.value(pk)}, DelValue(ix, pk)) && SameElsewhere(l, c, c - {l.value(pk)})
  {
    OneSlot(l, c, ix, ValueSlot(pk), c - {l.value(pk)}, DelValue(ix, pk));
  }

  lemma HoldsDelMembers(l: Layout, c: Cells, ix: Index, pk: string)
    requires Holds(l, c, ix)
    ensures Holds(l, c - {l.members(pk)}, DelMembers(ix, pk)) && SameElsewhere(l, c, c - {l.members(pk)})
  {
    OneSlot(l, c, ix, MembersSlot(pk), c - {l.members(pk)}, DelMembers(ix, pk));
  }

  lemma HoldsSetPointer(l: Layout, c: Cells, ix: Index, r: Ref, pk: string, exp: Option<int>)
    requires Holds(l, c, ix) && GoodField(r.field)
    ensures var c' := c[l.pointer(r) := Cell(Str(pk), exp)];
            Holds(l, c', SetPointer(ix, r, pk, exp)) && SameElsewhere(l, c, c')
  {
    OneSlot(l, c, ix, PointerSlot(r), c[l.pointer(r) := Cell(Str(pk), exp)], SetPointer(ix, r, pk, exp));
  }

  lemma HoldsDelPointer(l: Layout, c: Cells, ix: Index, r: Ref)
    requires Holds(l, c, ix) && GoodField(r.field)
    ensures Holds(l, c - {l.pointer(r)}, DelPointer(ix, r)) && SameElsewhere(l, c, c - {l.pointer(r)})
  {
    OneSlot(l, c, ix, PointerSlot(r), c - {l.pointer(r)}, DelPointer(ix, r));
  }

  /** HGETALL on the members key reads the index's hash. */
  lemma HoldsFields(l: Layout, c: Cells, ix: Index, pk: string)
    requires Holds(l, c, ix)
    ensures l.members(pk) in c ==> c[l.members(pk)].val.Hash?
    ensures FieldsAt(c, l.members(pk)) == FieldsOf(ix, pk)
  {
    assert Lookup(c, KeyOf(l, MembersSlot(pk))) == Wanted(ix, MembersSlot(pk));
  }

  lemma HoldsPointer(l: Layout, c: Cells, ix: Index, r: Ref)
    requires Holds(l, c, ix) && GoodField(r.field)
    ensures l.pointer(r) in c ==> c[l.pointer(r)].val.Str?
    ensures StrAt(c, l.pointer(r)) == if r in ix.pointers then Some(ix.pointers[r].val) else None
  {
    assert Lookup(c, KeyOf(l, PointerSlot(r))) == Wanted(ix, PointerSlot(r));
  }

  lemma HoldsValue(l: Layout, c: Cells, ix: Index, pk: string)
    requires Holds(l, c, ix)
    ensures l.value(pk) in c ==> c[l.value(pk)].val.Str?
    ensures StrAt(c, l.value(pk)) == if pk in ix.values then Some(ix.values[pk].val) else None
  {
    assert Lookup(c, KeyOf(l, ValueSlot(pk))) == Wanted(ix, ValueSlot(pk));
  }

  lemma HoldsSetField(l: Layout, c: Cells, ix: Index, pk: string, r: Ref)
    requires Holds(l, c, ix) && GoodField(r.field)
    ensures var c' := WithField(c, l.members(pk), r.field, r.value);
            Holds(l, c', SetField(ix, pk, r)) && SameElsewhere(l, c, c')
  {
    HoldsFields(l, c, ix, pk);
    assert Lookup(c, KeyOf(l, MembersSlot(pk))) == Wanted(ix, MembersSlot(pk));
    OneSlot(l, c, ix, MembersSlot(pk), WithField(c, l.members(pk), r.field, r.value), SetField(ix, pk, r));
  }

  lemma HoldsDelField(l: Layout, c: Cells, ix: Index, pk: string, field: string)
    requires Holds(l, c, ix)
    ensures var c' := WithoutField(c, l.members(pk), field);
            Holds(l, c', DelField(ix, pk, field, false)) && SameElsewhere(l, c, c')
  {
    HoldsFields(l, c, ix, pk);
    assert Lookup(c, KeyOf(l, MembersSlot(pk))) == Wanted(ix, MembersSlot(pk));
    OneSlot(l, c, ix, MembersSlot(pk), WithoutField(c, l.members(pk), field), DelField(ix, pk, field, false));
  }

  lemma HoldsExpireMembers(l: Layout, c: Cells, ix: Index, pk: string, exp: Option<int>)
    requires Holds(l, c, ix)
    ensures var c' := WithExpiry(c, l.members(pk), exp);
            Holds(l, c', ExpireMembers(ix, pk, exp)) && SameElsewhere(l, c, c')
  {
    assert Lookup(c, KeyOf(l, MembersSlot(pk))) == Wanted(ix, MembersSlot(pk));
    OneSlot(l, c, ix, MembersSlot(pk), WithExpiry(c, l.members(pk), exp), ExpireMembers(ix, pk, exp));
  }

  lemma HoldsExpirePointer(l: Layout, c: Cells, ix: Index, r: Ref, exp: Option<int>)
    requires Holds(l, c, ix) && GoodField(r.field)
    ensures var c' := WithExpiry(c, l.pointer(r), exp);
            Holds(l, c', ExpirePointer(ix, r, exp)) && SameElsewhere(l, c, c')
  {
    assert Lookup(c, KeyOf(l, PointerSlot(r))) == Wanted(ix, PointerSlot(r));
    OneSlot(l, c, ix, PointerSlot(r), WithExpiry(c, l.pointer(r), exp), ExpirePointer(ix, r, exp));
  }

  /** Moving the clock drops the same items on both sides. */
  lemma HoldsPurge(l: Layout, c: Cells, ix: Index, now: int)
    requires Holds(l, c, ix)
    ensures Holds(l, Redis.Purge(c, now), AliasIndex.Purge(ix, now))
  {
    forall s | Usable(s) ensures Lookup(Redis.Purge(c, now), KeyOf(l, s)) == Wanted(AliasIndex.Purge(ix, now), s) {
      assert Lookup(c, KeyOf(l, s)) == Wanted(ix, s);
    }
  }
}
