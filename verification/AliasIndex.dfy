/** The two opposite indexes of an alias group, free of key strings: values and members by
    primary, pointers by alias. All three strategies keep these, in different ways. */
module AliasIndex {
  import opened Basics
  import opened Expiries

  /** One alias: a field ("email") and a value. */
  datatype Ref = Ref(field: string, value: string)

  /** A stored string with its expiry; a pointer's string is a primary key. */
  datatype Entry = Entry(val: string, exp: Option<int>)

  datatype Hash = Hash(fields: map<string, string>, exp: Option<int>)

  datatype Index = Index(values: map<string, Entry>, members: map<string, Hash>, pointers: map<Ref, Entry>)

  const EMPTY := Index(map[], map[], map[])

  predicate Names(h: map<string, string>, r: Ref) {
    r.field in h && h[r.field] == r.value
  }

  /** pk's members hash, empty when there is none. */
  function FieldsOf(ix: Index, pk: string): map<string, string> {
    if pk in ix.members then ix.members[pk].fields else map[]
  }

  predicate Member(ix: Index, pk: string, r: Ref) {
    pk in ix.members && Names(ix.members[pk].fields, r)
  }

  predicate PointsTo(ix: Index, r: Ref, pk: string) {
    r in ix.pointers && ix.pointers[r].val == pk
  }

  /** Who holds which alias once it has moved to pk. */
  predicate Moved(pk: string, r: Ref, p: string, s: Ref, before: bool) {
    (p == pk && s == r) || (s != r && !(p == pk && s.field == r.field) && before)
  }

  // ---- single commands ----

  function SetValue(ix: Index, pk: string, val: string, exp: Option<int>): Index {
    ix.(values := ix.values[pk := Entry(val, exp)])
  }

  function SetPointer(ix: Index, r: Ref, pk: string, exp: Option<int>): Index {
    ix.(pointers := ix.pointers[r := Entry(pk, exp)])
  }

  function DelPointer(ix: Index, r: Ref): Index {
    ix.(pointers := ix.pointers - {r})
  }

  /** A new hash has no expiry yet; an existing one keeps its own. */
  function SetField(ix: Index, pk: string, r: Ref): Index {
    ix.(members := ix.members[pk := Hash(FieldsOf(ix, pk)[r.field := r.value],
                                         if pk in ix.members then ix.members[pk].exp else None)])
  }

  /** Redis drops a hash with its last field; a Go map stays behind empty. */
  function DelField(ix: Index, pk: string, field: string, keepEmpty: bool): Index {
    if field !in FieldsOf(ix, pk) then ix
    else if FieldsOf(ix, pk) - {field} == map[] && !keepEmpty then ix.(members := ix.members - {pk})
    else ix.(members := ix.members[pk := ix.members[pk].(fields := FieldsOf(ix, pk) - {field})])
  }

  function DelValue(ix: Index, pk: string): Index {
    ix.(values := ix.values - {pk})
  }

  function DelMembers(ix: Index, pk: string): Index {
    ix.(members := ix.members - {pk})
  }

  function DelRecord(ix: Index, pk: string): Index {
    DelMembers(DelValue(ix, pk), pk)
  }

  function ExpireMembers(ix: Index, pk: string, exp: Option<int>): Index {
    if pk in ix.members then ix.(members := ix.members[pk := ix.members[pk].(exp := exp)]) else ix
  }

  function ExpirePointer(ix: Index, r: Ref, exp: Option<int>): Index {
    if r in ix.pointers then ix.(pointers := ix.pointers[r := ix.pointers[r].(exp := exp)]) else ix
  }

  /** Moving the clock drops what has expired. */
  function Purge(ix: Index, now: int): Index {
    Index(ix.values - (set p | p in ix.values && !LiveAt(ix.values[p].exp, now)),
          ix.members - (set p | p in ix.members && !LiveAt(ix.members[p].exp, now)),
          ix.pointers - (set r | r in ix.pointers && !LiveAt(ix.pointers[r].exp, now)))
  }

  // ---- whole operations ----

  /** Gives pk's members hash and every pointer it names one expiry. */
  function Refresh(ix: Index, pk: string, exp: Option<int>): Index {
    WithPointerExpiry(ExpireMembers(ix, pk, exp), FieldsOf(ix, pk), exp)
  }

  function WithPointerExpiry(ix: Index, h: map<string, string>, exp: Option<int>): Index {
    ix.(pointers := map r | r in ix.pointers :: if Names(h, r) then ix.pointers[r].(exp := exp) else ix.pointers[r])
  }

  function WithoutPointers(ix: Index, h: map<string, string>): Index {
    ix.(pointers := ix.pointers - (set r | r in ix.pointers && Names(h, r)))
  }

  /** pk's field is about to take a new value: the pointer of the old one goes. */
  function Replace(ix: Index, pk: string, r: Ref): Index {
    var h := FieldsOf(ix, pk);
    if r.field in h && h[r.field] != r.value then DelPointer(ix, Ref(r.field, h[r.field])) else ix
  }

  /** The alias is about to move to pk: its former owner's field goes. */
  function Steal(ix: Index, pk: string, r: Ref, keepEmpty: bool): Index {
    if r in ix.pointers && ix.pointers[r].val != pk
    then DelField(ix, ix.pointers[r].val, r.field, keepEmpty) else ix
  }

  function PutValue(ix: Index, pk: string, val: string, valueExp: Option<int>, groupExp: Option<int>): Index {
    Refresh(SetValue(ix, pk, val, valueExp), pk, groupExp)
  }

  function PutByAlias(ix: Index, pk: string, r: Ref, val: string, keepEmpty: bool,
                      valueExp: Option<int>, groupExp: Option<int>): Index {
    Refresh(Link(SetValue(ix, pk, val, valueExp), pk, r, keepEmpty, groupExp), pk, groupExp)
  }

  function Link(ix: Index, pk: string, r: Ref, keepEmpty: bool, exp: Option<int>): Index {
    SetPointer(SetField(Steal(Replace(ix, pk, r), pk, r, keepEmpty), pk, r), r, pk, exp)
  }

  function Evict(ix: Index, pk: string): Index {
    WithoutPointers(DelRecord(ix, pk), FieldsOf(ix, pk))
  }

  function EvictByAlias(ix: Index, r: Ref): Index {
    if r in ix.pointers then Evict(ix, ix.pointers[r].val) else ix
  }

  /** The primaries of the group with the prefix that have a value or a members hash. */
  function Matching(ix: Index, prefix: string): set<string> {
    (set p | p in ix.values && prefix <= p) + (set p | p in ix.members && prefix <= p)
  }

  /** All of ps gone at once, with every pointer their members name. */
  function EvictAll(ix: Index, ps: set<string>): Index {
    Index(ix.values - ps, ix.members - ps, ix.pointers - (set r | r in ix.pointers && NamedBy(ix, ps, r)))
  }

  predicate NamedBy(ix: Index, ps: set<string>, r: Ref) {
    exists p :: p in ps && Member(ix, p, r)
  }
}

/** Members and pointers stay inverse of each other under every operation. */
module AliasInverse {
  import opened Basics
  import opened AliasIndex

  /** members[pk].fields[f] = v exactly when the pointer (f, v) targets pk; in particular an
      alias has one owner. */
  ghost predicate Inverse(ix: Index) {
    forall p, r :: Member(ix, p, r) <==> PointsTo(ix, r, p)
  }

  lemma DelFieldMembers(ix: Index, q: string, field: string, keepEmpty: bool, p: string, s: Ref)
    ensures Member(DelField(ix, q, field, keepEmpty), p, s) <==> Member(ix, p, s) && !(p == q && s.field == field)
  {
    if p == q && p in ix.members {
      var h := ix.members[p].fields;
      assert Names(h - {field}, s) <==> Names(h, s) && s.field != field;
    }
  }

  lemma SetFieldMembers(ix: Index, pk: string, r: Ref, p: string, s: Ref)
    ensures Member(SetField(ix, pk, r), p, s) <==> if p == pk && s.field == r.field then s == r else Member(ix, p, s)
  {
    if p == pk && s.field == r.field {
      assert s == Ref(s.field, s.value) && r == Ref(r.field, r.value);
    }
  }

  /** Stealing takes the alias from everyone but pk. */
  lemma StealMembers(ix: Index, pk: string, r: Ref, keepEmpty: bool, p: string, s: Ref)
    requires forall q :: Member(ix, q, r) <==> PointsTo(ix, r, q)
    ensures Member(Steal(ix, pk, r, keepEmpty), p, s) <==> Member(ix, p, s) && (s != r || p == pk)
  {
    assert Member(ix, p, r) <==> PointsTo(ix, r, p);
    if r in ix.pointers {
      var q := ix.pointers[r].val;
      assert Member(ix, q, r) <==> PointsTo(ix, r, q);
      DelFieldMembers(ix, q, r.field, keepEmpty, p, s);
    }
  }

  lemma LinkMembers(ix: Index, pk: string, r: Ref, keepEmpty: bool, exp: Option<int>, p: string, s: Ref)
    requires Inverse(ix)
    ensures Member(Link(ix, pk, r, keepEmpty, exp), p, s) <==> Moved(pk, r, p, s, Member(ix, p, s))
  {
    var ix1 := Replace(ix, pk, r);
    forall q ensures Member(ix1, q, r) <==> PointsTo(ix1, r, q) {
      assert Member(ix, q, r) <==> PointsTo(ix, r, q);
    }
    StealMembers(ix1, pk, r, keepEmpty, p, s);
    SetFieldMembers(Steal(ix1, pk, r, keepEmpty), pk, r, p, s);
    assert Member(ix, p, s) <==> Member(ix1, p, s);
  }

  lemma LinkPointers(ix: Index, pk: string, r: Ref, keepEmpty: bool, exp: Option<int>, p: string, s: Ref)
    requires Inverse(ix)
    ensures PointsTo(Link(ix, pk, r, keepEmpty, exp), s, p) <==> Moved(pk, r, p, s, PointsTo(ix, s, p))
  {
    assert Member(ix, p, s) <==> PointsTo(ix, s, p);
    assert Member(ix, pk, s) <==> PointsTo(ix, s, pk);
    if s.field == r.field {
      assert s == Ref(r.field, s.value);
    }
  }

  lemma LinkInverse(ix: Index, pk: string, r: Ref, keepEmpty: bool, exp: Option<int>)
    requires Inverse(ix)
    ensures Inverse(Link(ix, pk, r, keepEmpty, exp))
  {
    forall p, s
      ensures Member(Link(ix, pk, r, keepEmpty, exp), p, s) <==> PointsTo(Link(ix, pk, r, keepEmpty, exp), s, p)
    {
      LinkMembers(ix, pk, r, keepEmpty, exp, p, s);
      LinkPointers(ix, pk, r, keepEmpty, exp, p, s);
      assert Member(ix, p, s) <==> PointsTo(ix, s, p);
    }
  }
}
