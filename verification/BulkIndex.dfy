/** Evicting many records of an index at once. */
module BulkIndex {
  import opened Basics
  import opened AliasIndex
  import opened AliasInverse
  import opened RecordTable
  import opened TableRefinement
  import opened Lifetimes

  lemma NamedByEvicted(ix: Index, ps: set<string>, r: Ref)
    requires Inverse(ix)
    ensures NamedBy(ix, ps, r) <==> r in ix.pointers && ix.pointers[r].val in ps
  {
    if r in ix.pointers && ix.pointers[r].val in ps {
      assert PointsTo(ix, r, ix.pointers[r].val);
      assert Member(ix, ix.pointers[r].val, r);
    }
    if NamedBy(ix, ps, r) {
      var p :| p in ps && Member(ix, p, r);
      assert PointsTo(ix, r, p);
    }
  }

  /** Exactly the records of ps go, each with all its aliases; every other record keeps its value,
      its members and its pointers. */
  lemma EvictAllIsExact(ix: Index, ps: set<string>)
    requires Inverse(ix)
    ensures var ix' := EvictAll(ix, ps);
            && (forall p :: p in ps ==> p !in ix'.values && p !in ix'.members)
            && (forall p :: p !in ps ==>
                  (p in ix'.values <==> p in ix.values) && (p in ix'.members <==> p in ix.members))
            && (forall p :: p in ix'.values ==> ix'.values[p] == ix.values[p])
            && (forall p :: p in ix'.members ==> ix'.members[p] == ix.members[p])
            && (forall r :: r in ix'.pointers <==> r in ix.pointers && ix.pointers[r].val !in ps)
            && (forall r :: r in ix'.pointers ==> ix'.pointers[r] == ix.pointers[r])
  {
    forall r ensures NamedBy(ix, ps, r) <==> r in ix.pointers && ix.pointers[r].val in ps {
      NamedByEvicted(ix, ps, r);
    }
  }

  lemma EvictAllCarries(ix: Index, t: Table, ps: set<string>)
    requires Carries(ix, t)
    ensures Carries(EvictAll(ix, ps), t - ps)
  {
    var ix', t' := EvictAll(ix, ps), t - ps;
    EvictAllIsExact(ix, ps);
    forall p, r
      ensures Member(ix', p, r) <==> Owns(t', p, r)
      ensures Member(ix', p, r) <==> PointsTo(ix', r, p)
    {
      assert Member(ix, p, r) <==> Owns(t, p, r);
      assert Member(ix, p, r) <==> PointsTo(ix, r, p);
    }
  }

  /** A second bulk eviction with the same prefix finds nothing. */
  lemma SecondCallFindsNothing(ix: Index, prefix: string)
    ensures Matching(EvictAll(ix, Matching(ix, prefix)), prefix) == {}
  {
  }

  /** In a carried table the matching records are those whose primary has the prefix. */
  lemma MatchingRecords(ix: Index, t: Table, prefix: string)
    requires Carries(ix, t)
    ensures Matching(ix, prefix) == set p | p in t && prefix <= p
  {
  }

  /** What a bulk eviction by prefix means on the record table. */
  lemma EvictMatchingCarries(ix: Index, t: Table, prefix: string)
    requires Carries(ix, t)
    ensures Carries(EvictAll(ix, Matching(ix, prefix)), TEvictByPrefix(t, prefix))
  {
    MatchingRecords(ix, t, prefix);
    EvictAllCarries(ix, t, Matching(ix, prefix));
  }

  /** The records that stay keep their lifetimes. */
  lemma EvictAllLifetime(ix: Index, ps: set<string>)
    requires Inverse(ix) && GroupExpiry(ix)
    ensures GroupExpiry(EvictAll(ix, ps))
    ensures OneExpiry(ix) ==> OneExpiry(EvictAll(ix, ps))
  {
    EvictAllIsExact(ix, ps);
  }

  lemma EvictNone(ix: Index)
    ensures EvictAll(ix, {}) == ix
  {
    assert forall r :: !NamedBy(ix, {}, r);
  }

  /** Evicting records one by one is evicting them all at once. */
  lemma EvictOneMore(ix: Index, ps: set<string>, pk: string)
    requires pk !in ps
    ensures EvictAll(ix, ps + {pk}) == Evict(EvictAll(ix, ps), pk)
  {
    forall r ensures NamedBy(ix, ps + {pk}, r) <==> NamedBy(ix, ps, r) || Member(ix, pk, r) {
      if Member(ix, pk, r) { assert pk in ps + {pk}; }
      if NamedBy(ix, ps, r) { var p :| p in ps && Member(ix, p, r); assert p in ps + {pk}; }
    }
    assert FieldsOf(EvictAll(ix, ps), pk) == FieldsOf(ix, pk);
  }

  /** What a bulk eviction by prefix leaves: no value and no members hash of a primary with the prefix,
      but those whose eviction fails; no pointer that an evicted primary's members named (in sharded: and
      that still targeted it); and everything else as it was. */
  ghost predicate Cleared(sharded: bool, before: Index, after: Index, prefix: string, failing: set<string>) {
    && (forall p :: p in after.values <==> p in before.values && !(prefix <= p && p !in failing))
    && (forall p :: p in after.values ==> after.values[p] == before.values[p])
    && (forall p :: p in after.members <==> p in before.members && !(prefix <= p && p !in failing))
    && (forall p :: p in after.members ==> after.members[p] == before.members[p])
    && (forall r :: r in after.pointers <==>
          r in before.pointers &&
          !exists p :: prefix <= p && p !in failing && Member(before, p, r) && (sharded ==> PointsTo(before, r, p)))
    && (forall r :: r in after.pointers ==> after.pointers[r] == before.pointers[r])
  }

  lemma EvictAllClears(ix: Index, prefix: string, failing: set<string>, ps: set<string>)
    requires forall p :: p in ps <==> p in Matching(ix, prefix) && p !in failing
    ensures Cleared(false, ix, EvictAll(ix, ps), prefix, failing)
  {
    forall r ensures NamedBy(ix, ps, r) <==> exists p :: prefix <= p && p !in failing && Member(ix, p, r) {
      if p :| prefix <= p && p !in failing && Member(ix, p, r) {
        assert p in ps;
      }
    }
  }

  lemma MatchingIs(ix: Index, prefix: string)
    ensures Matching(ix, prefix) == set p | p in ix.values.Keys + ix.members.Keys && prefix <= p
    ensures Cleared(false, ix, EvictAll(ix, Matching(ix, prefix)), prefix, {})
  {
    EvictAllClears(ix, prefix, {}, Matching(ix, prefix));
  }
}
