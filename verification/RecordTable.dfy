/** What an alias group means to its callers: one record per primary, holding a value, its
    aliases (one value per field) and one expiry. */
module RecordTable {
  import opened Basics
  import opened Expiries
  import opened AliasIndex

  datatype Record = Record(val: string, aliases: map<string, string>, exp: Option<int>)

  type Table = map<string, Record>

  predicate Owns(t: Table, pk: string, r: Ref) {
    pk in t && Names(t[pk].aliases, r)
  }

  /** Every alias has at most one owner. */
  ghost predicate OneOwner(t: Table) {
    forall p, q, r :: Owns(t, p, r) && Owns(t, q, r) ==> p == q
  }

  function AliasesOf(t: Table, pk: string): map<string, string> {
    if pk in t then t[pk].aliases else map[]
  }

  function TPutValue(t: Table, pk: string, val: string, exp: Option<int>): Table {
    t[pk := Record(val, AliasesOf(t, pk), exp)]
  }

  /** Everyone but pk gives the alias up; pk's field takes the new alias value. */
  function TPutByAlias(t: Table, pk: string, r: Ref, val: string, exp: Option<int>): Table {
    Disowned(t, r)[pk := Record(val, AliasesOf(t, pk)[r.field := r.value], exp)]
  }

  function Disowned(t: Table, r: Ref): Table {
    map q | q in t :: if Owns(t, q, r) then t[q].(aliases := t[q].aliases - {r.field}) else t[q]
  }

  function TEvict(t: Table, pk: string): Table {
    t - {pk}
  }

  function TEvictByPrefix(t: Table, prefix: string): Table {
    t - (set p | p in t && prefix <= p)
  }

  function TExpire(t: Table, now: int): Table {
    t - (set p | p in t && !LiveAt(t[p].exp, now))
  }

  /** The primary an alias resolves to. */
  ghost function Owner(t: Table, r: Ref): (o: Option<string>)
    ensures o.Some? ==> Owns(t, o.value, r)
    ensures o.None? ==> forall p :: !Owns(t, p, r)
  {
    if p :| Owns(t, p, r) then Some(p) else None
  }

  function TGetValue(t: Table, pk: string): Option<string> {
    if pk in t then Some(t[pk].val) else None
  }

  ghost function TGetByAlias(t: Table, r: Ref): Option<string> {
    match Owner(t, r)
    case None => None
    case Some(p) => Some(t[p].val)
  }

  ghost function TEvictByAlias(t: Table, r: Ref): Table {
    match Owner(t, r)
    case None => t
    case Some(p) => TEvict(t, p)
  }

  /** Two tables that differ at most in expiries. */
  ghost predicate SameContent(t: Table, u: Table) {
    && (forall p :: p in t <==> p in u)
    && (forall p :: p in t && p in u ==> t[p].val == u[p].val && t[p].aliases == u[p].aliases)
  }

  lemma OwnerIs(t: Table, pk: string, r: Ref)
    requires OneOwner(t) && Owns(t, pk, r)
    ensures Owner(t, r) == Some(pk)
  {
  }

  lemma PutByAliasOwns(t: Table, pk: string, r: Ref, val: string, exp: Option<int>, p: string, s: Ref)
    ensures Owns(TPutByAlias(t, pk, r, val, exp), p, s) <==> Moved(pk, r, p, s, Owns(t, p, s))
  {
    if p == pk {
      assert Names(AliasesOf(t, pk)[r.field := r.value], s) <==>
             s == r || (s.field != r.field && Names(AliasesOf(t, pk), s)) by {
        assert s == Ref(s.field, s.value) && r == Ref(r.field, r.value);
      }
    } else if p in t && Owns(t, p, r) {
      assert Names(t[p].aliases - {r.field}, s) <==> Names(t[p].aliases, s) && s.field != r.field;
      assert Names(t[p].aliases, s) && s.field == r.field ==> s == Ref(r.field, r.value);
    }
  }

  lemma PutByAliasOneOwner(t: Table, pk: string, r: Ref, val: string, exp: Option<int>)
    requires OneOwner(t)
    ensures OneOwner(TPutByAlias(t, pk, r, val, exp))
  {
    var t' := TPutByAlias(t, pk, r, val, exp);
    forall p, q, s | Owns(t', p, s) && Owns(t', q, s) ensures p == q {
      PutByAliasOwns(t, pk, r, val, exp, p, s);
      PutByAliasOwns(t, pk, r, val, exp, q, s);
    }
  }
}

/** When an index carries a table: same values, same expiries, same aliases, and the pointers
    invert the members. */
module TableRefinement {
  import opened Basics
  import opened AliasIndex
  import opened AliasInverse
  import opened RecordTable

  ghost predicate SameValues(ix: Index, t: Table) {
    && (forall p :: p in ix.values <==> p in t)
    && (forall p :: p in t ==> ix.values[p] == Entry(t[p].val, t[p].exp))
  }

  ghost predicate SameAliases(ix: Index, t: Table) {
    forall p, r :: Member(ix, p, r) <==> Owns(t, p, r)
  }

  /** A record with members has a value. */
  ghost predicate MembersHaveValues(ix: Index) {
    forall p :: p in ix.members ==> p in ix.values
  }

  ghost predicate Carries(ix: Index, t: Table) {
    SameValues(ix, t) && SameAliases(ix, t) && Inverse(ix) && MembersHaveValues(ix)
  }

  lemma CarriesOneOwner(ix: Index, t: Table)
    requires Carries(ix, t)
    ensures OneOwner(t)
  {
    forall p, q, r | Owns(t, p, r) && Owns(t, q, r) ensures p == q {
      assert Member(ix, p, r) && Member(ix, q, r);
      assert PointsTo(ix, r, p) && PointsTo(ix, r, q);
    }
  }

  /** The pointer map answers ownership. */
  lemma PointerOwner(ix: Index, t: Table, r: Ref)
    requires Carries(ix, t)
    ensures Owner(t, r) == if r in ix.pointers then Some(ix.pointers[r].val) else None
  {
    CarriesOneOwner(ix, t);
    if r in ix.pointers {
      assert PointsTo(ix, r, ix.pointers[r].val);
      assert Member(ix, ix.pointers[r].val, r);
      OwnerIs(t, ix.pointers[r].val, r);
    } else {
      forall p ensures !Owns(t, p, r) {
        assert Member(ix, p, r) <==> PointsTo(ix, r, p);
      }
    }
  }

  lemma RefreshKeepsLinks(ix: Index, pk: string, exp: Option<int>, p: string, r: Ref)
    ensures Member(Refresh(ix, pk, exp), p, r) <==> Member(ix, p, r)
    ensures PointsTo(Refresh(ix, pk, exp), r, p) <==> PointsTo(ix, r, p)
  {
  }

  lemma PutValueCarries(ix: Index, t: Table, pk: string, val: string, valueExp: Option<int>, groupExp: Option<int>)
    requires Carries(ix, t)
    ensures Carries(PutValue(ix, pk, val, valueExp, groupExp), TPutValue(t, pk, val, valueExp))
  {
    var ix', t' := PutValue(ix, pk, val, valueExp, groupExp), TPutValue(t, pk, val, valueExp);
    forall p, r
      ensures Member(ix', p, r) <==> Member(ix, p, r)
      ensures PointsTo(ix', r, p) <==> PointsTo(ix, r, p)
      ensures Owns(t', p, r) <==> Owns(t, p, r)
    {
      RefreshKeepsLinks(SetValue(ix, pk, val, valueExp), pk, groupExp, p, r);
    }
  }

  lemma LinkKeepsMembersHaveValues(ix: Index, pk: string, r: Ref, keepEmpty: bool, exp: Option<int>)
    requires MembersHaveValues(ix) && pk in ix.values
    ensures MembersHaveValues(Link(ix, pk, r, keepEmpty, exp))
  {
  }

  lemma SetValueKeepsInverse(ix: Index, pk: string, val: string, exp: Option<int>)
    requires Inverse(ix)
    ensures Inverse(SetValue(ix, pk, val, exp))
  {
    forall p, r
      ensures Member(SetValue(ix, pk, val, exp), p, r) <==> PointsTo(SetValue(ix, pk, val, exp), r, p)
    {
      assert Member(ix, p, r) <==> PointsTo(ix, r, p);
    }
  }

  /** The index and the table move the alias to pk in the same way. */
  lemma PutByAliasAliases(ix: Index, t: Table, pk: string, r: Ref, val: string, keepEmpty: bool,
                          valueExp: Option<int>, groupExp: Option<int>, p: string, s: Ref)
    requires Carries(ix, t)
    ensures var ix' := PutByAlias(ix, pk, r, val, keepEmpty, valueExp, groupExp);
            && (Member(ix', p, s) <==> Owns(TPutByAlias(t, pk, r, val, valueExp), p, s))
            && (PointsTo(ix', s, p) <==> Member(ix', p, s))
  {
    var stored := SetValue(ix, pk, val, valueExp);
    var linked := Link(stored, pk, r, keepEmpty, groupExp);
    SetValueKeepsInverse(ix, pk, val, valueExp);
    LinkInverse(stored, pk, r, keepEmpty, groupExp);
    LinkMembers(stored, pk, r, keepEmpty, groupExp, p, s);
    RefreshKeepsLinks(linked, pk, groupExp, p, s);
    PutByAliasOwns(t, pk, r, val, valueExp, p, s);
    assert Member(ix, p, s) <==> Owns(t, p, s);
    assert Member(linked, p, s) <==> PointsTo(linked, s, p);
  }

  lemma PutByAliasCarries(ix: Index, t: Table, pk: string, r: Ref, val: string, keepEmpty: bool,
                          valueExp: Option<int>, groupExp: Option<int>)
    requires Carries(ix, t)
    ensures Carries(PutByAlias(ix, pk, r, val, keepEmpty, valueExp, groupExp), TPutByAlias(t, pk, r, val, valueExp))
  {
    var ix', t' := PutByAlias(ix, pk, r, val, keepEmpty, valueExp, groupExp), TPutByAlias(t, pk, r, val, valueExp);
    forall p, s
      ensures Member(ix', p, s) <==> Owns(t', p, s)
      ensures Member(ix', p, s) <==> PointsTo(ix', s, p)
    {
      PutByAliasAliases(ix, t, pk, r, val, keepEmpty, valueExp, groupExp, p, s);
    }
    LinkKeepsMembersHaveValues(SetValue(ix, pk, val, valueExp), pk, r, keepEmpty, groupExp);
    PutByAliasValues(ix, t, pk, r, val, keepEmpty, valueExp, groupExp);
  }

  lemma PutByAliasValues(ix: Index, t: Table, pk: string, r: Ref, val: string, keepEmpty: bool,
                         valueExp: Option<int>, groupExp: Option<int>)
    requires SameValues(ix, t)
    ensures PutByAlias(ix, pk, r, val, keepEmpty, valueExp, groupExp).values == ix.values[pk := Entry(val, valueExp)]
    ensures SameValues(PutByAlias(ix, pk, r, val, keepEmpty, valueExp, groupExp), TPutByAlias(t, pk, r, val, valueExp))
  {
    assert Steal(Replace(SetValue(ix, pk, val, valueExp), pk, r), pk, r, keepEmpty).values ==
           ix.values[pk := Entry(val, valueExp)];
  }

  lemma EvictCarries(ix: Index, t: Table, pk: string)
    requires Carries(ix, t)
    ensures Carries(Evict(ix, pk), TEvict(t, pk))
  {
    var ix', t' := Evict(ix, pk), TEvict(t, pk);
    forall p, r
      ensures Member(ix', p, r) <==> p != pk && Member(ix, p, r)
      ensures PointsTo(ix', r, p) <==> p != pk && PointsTo(ix, r, p)
      ensures Owns(t', p, r) <==> p != pk && Owns(t, p, r)
    {
      assert Member(ix, p, r) <==> PointsTo(ix, r, p);
      assert Member(ix, pk, r) <==> PointsTo(ix, r, pk);
    }
  }
}
