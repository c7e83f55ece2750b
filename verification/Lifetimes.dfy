/** One lifetime per record: its members hash and all its pointers expire together. */
module Lifetimes {
  import opened Basics
  import opened Expiries
  import opened AliasIndex
  import opened AliasInverse
  import opened TableRefinement

  /** later is no earlier than exp. */
  predicate NotBefore(exp: Option<int>, later: Option<int>) {
    later.None? || (exp.Some? && exp.value <= later.value)
  }

  /** A record's members outlive its value, and its pointers live exactly as long as its members. */
  ghost predicate GroupExpiry(ix: Index) {
    && (forall p :: p in ix.members ==> p in ix.values && NotBefore(ix.values[p].exp, ix.members[p].exp))
    && (forall r :: r in ix.pointers ==>
          ix.pointers[r].val in ix.members && ix.pointers[r].exp == ix.members[ix.pointers[r].val].exp)
  }

  /** As GroupExpiry, for all records but pk. */
  ghost predicate GroupExpiryBut(ix: Index, pk: string) {
    && (forall p :: p in ix.members && p != pk ==> p in ix.values && NotBefore(ix.values[p].exp, ix.members[p].exp))
    && (forall r :: r in ix.pointers && ix.pointers[r].val != pk ==>
          ix.pointers[r].val in ix.members && ix.pointers[r].exp == ix.members[ix.pointers[r].val].exp)
  }

  /** A record's value, members and pointers share one expiry. */
  ghost predicate OneExpiry(ix: Index) {
    GroupExpiry(ix) && forall p :: p in ix.members ==> ix.members[p].exp == ix.values[p].exp
  }

  lemma RefreshCompletes(ix: Index, pk: string, exp: Option<int>)
    requires Inverse(ix) && GroupExpiryBut(ix, pk)
    requires pk in ix.values && NotBefore(ix.values[pk].exp, exp)
    ensures GroupExpiry(Refresh(ix, pk, exp))
  {
    var ix' := Refresh(ix, pk, exp);
    forall r | r in ix'.pointers
      ensures ix'.pointers[r].val in ix'.members && ix'.pointers[r].exp == ix'.members[ix'.pointers[r].val].exp
    {
      var q := ix.pointers[r].val;
      assert Member(ix, q, r) <==> PointsTo(ix, r, q);
      assert Member(ix, pk, r) <==> PointsTo(ix, r, pk);
    }
  }

  /** Linking changes no value, and no expiry of another record. */
  lemma LinkFrame(ix: Index, pk: string, r: Ref, keepEmpty: bool, exp: Option<int>)
    ensures var ix' := Link(ix, pk, r, keepEmpty, exp);
            && ix'.values == ix.values
            && (forall q :: q in ix'.members && q != pk ==> q in ix.members && ix'.members[q].exp == ix.members[q].exp)
            && (forall s :: s in ix'.pointers && s != r ==> s in ix.pointers && ix'.pointers[s] == ix.pointers[s])
  {
  }

  lemma LinkKeepsOthers(ix: Index, pk: string, r: Ref, keepEmpty: bool, exp: Option<int>)
    requires Inverse(ix) && GroupExpiryBut(ix, pk) && pk in ix.values
    ensures GroupExpiryBut(Link(ix, pk, r, keepEmpty, exp), pk)
  {
    var ix' := Link(ix, pk, r, keepEmpty, exp);
    LinkFrame(ix, pk, r, keepEmpty, exp);
    LinkInverse(ix, pk, r, keepEmpty, exp);
    forall s | s in ix'.pointers && ix'.pointers[s].val != pk
      ensures ix'.pointers[s].val in ix'.members && ix'.pointers[s].exp == ix'.members[ix'.pointers[s].val].exp
    {
      assert s != r;
      assert PointsTo(ix', s, ix'.pointers[s].val);
      assert Member(ix', ix'.pointers[s].val, s);
    }
  }

  lemma PutValueLifetime(ix: Index, pk: string, val: string, valueExp: Option<int>, groupExp: Option<int>)
    requires Inverse(ix) && GroupExpiry(ix) && NotBefore(valueExp, groupExp)
    ensures GroupExpiry(PutValue(ix, pk, val, valueExp, groupExp))
    ensures OneExpiry(ix) && valueExp == groupExp ==> OneExpiry(PutValue(ix, pk, val, valueExp, groupExp))
  {
    SetValueKeepsInverse(ix, pk, val, valueExp);
    RefreshCompletes(SetValue(ix, pk, val, valueExp), pk, groupExp);
  }

  lemma PutByAliasLifetime(ix: Index, pk: string, r: Ref, val: string, keepEmpty: bool,
                           valueExp: Option<int>, groupExp: Option<int>)
    requires Inverse(ix) && GroupExpiry(ix) && NotBefore(valueExp, groupExp)
    ensures var ix' := PutByAlias(ix, pk, r, val, keepEmpty, valueExp, groupExp);
            GroupExpiry(ix') && (OneExpiry(ix) && valueExp == groupExp ==> OneExpiry(ix'))
  {
    var stored := SetValue(ix, pk, val, valueExp);
    SetValueKeepsInverse(ix, pk, val, valueExp);
    LinkFrame(stored, pk, r, keepEmpty, groupExp);
    LinkKeepsOthers(stored, pk, r, keepEmpty, groupExp);
    LinkInverse(stored, pk, r, keepEmpty, groupExp);
    RefreshCompletes(Link(stored, pk, r, keepEmpty, groupExp), pk, groupExp);
  }

  lemma EvictLifetime(ix: Index, pk: string)
    requires Inverse(ix) && GroupExpiry(ix)
    ensures GroupExpiry(Evict(ix, pk))
    ensures OneExpiry(ix) ==> OneExpiry(Evict(ix, pk))
  {
    forall r | r in Evict(ix, pk).pointers ensures ix.pointers[r].val != pk {
      assert Member(ix, pk, r) <==> PointsTo(ix, r, pk);
    }
  }
}
