/** What bulk eviction by prefix does to the records of the group. */
module BulkEviction {
  import opened Basics
  import opened AliasIndex
  import opened BulkIndex
  import Sharded
  import opened SortedStrings

  function EvictedBy(sharded: bool, ix: Index, pk: string): Index {
    if sharded then Sharded.EvictRecord(ix, pk) else Evict(ix, pk)
  }

  /** Evicting each listed primary in turn, but for those whose eviction fails. */
  function EvictedInTurn(sharded: bool, ix: Index, order: seq<string>, failing: set<string>): Index {
    if order == [] then ix
    else var before := EvictedInTurn(sharded, ix, order[..|order| - 1], failing);
         var pk := order[|order| - 1];
         if pk in failing then before else EvictedBy(sharded, before, pk)
  }

  function Evicted(order: seq<string>, failing: set<string>): set<string> {
    set p | p in order && p !in failing
  }

  /** The colocated sweep is one eviction of all the records that did not fail. */
  lemma {:induction false} InTurnIsAtOnce(ix: Index, order: seq<string>, failing: set<string>)
    requires Ascending(order)
    ensures EvictedInTurn(false, ix, order, failing) == EvictAll(ix, Evicted(order, failing))
  {
    if order == [] {
      EvictNone(ix);
      assert Evicted(order, failing) == {};
    } else {
      var before, pk := order[..|order| - 1], order[|order| - 1];
      InTurnIsAtOnce(ix, before, failing);
      OneMoreEvicted(before, pk, failing, order);
      if pk !in failing {
        EvictOneMore(ix, Evicted(before, failing), pk);
      }
    }
  }

  /** So is the sharded sweep. */
  lemma {:induction false} ShardedInTurn(ix: Index, order: seq<string>, failing: set<string>)
    requires Ascending(order)
    ensures EvictedInTurn(true, ix, order, failing) == Sharded.EvictRecords(ix, Evicted(order, failing))
  {
    if order == [] {
      Sharded.EvictNoRecords(ix);
      assert Evicted(order, failing) == {};
    } else {
      var before, pk := order[..|order| - 1], order[|order| - 1];
      ShardedInTurn(ix, before, failing);
      OneMoreEvicted(before, pk, failing, order);
      if pk !in failing {
        Sharded.EvictRecordsOneMore(ix, Evicted(before, failing), pk);
      }
    }
  }

  lemma OneMoreEvicted(before: seq<string>, pk: string, failing: set<string>, order: seq<string>)
    requires order != [] && before == order[..|order| - 1] && pk == order[|order| - 1] && Ascending(order)
    ensures Ascending(before) && pk !in before && pk !in Evicted(before, failing)
    ensures Evicted(order, failing) ==
            if pk in failing then Evicted(before, failing) else Evicted(before, failing) + {pk}
  {
    assert order == before + [pk];
    forall j | 0 <= j < |before| ensures before[j] != pk { NotLessSelf(pk); }
  }

  /** A sweep in which no eviction failed took exactly the matching records, at once, and another
      sweep finds nothing, in either strategy. */
  lemma SweepIsAtOnce(ix: Index, order: seq<string>, prefix: string)
    requires Ascending(order) && forall p :: p in order <==> p in Matching(ix, prefix)
    ensures EvictedInTurn(false, ix, order, {}) == EvictAll(ix, Matching(ix, prefix))
    ensures EvictedInTurn(true, ix, order, {}) == Sharded.EvictRecords(ix, Matching(ix, prefix))
    ensures Matching(EvictedInTurn(false, ix, order, {}), prefix) == {}
    ensures Matching(EvictedInTurn(true, ix, order, {}), prefix) == {}
  {
    InTurnIsAtOnce(ix, order, {});
    ShardedInTurn(ix, order, {});
    assert Evicted(order, {}) == Matching(ix, prefix);
  }

  /** Whatever evictions fail, in-turn evictions of the records found sweep the rest of the prefix. */
  lemma InTurnClears(sharded: bool, ix: Index, order: seq<string>, prefix: string, failing: set<string>)
    requires Ascending(order)
    requires forall p :: p in order <==> p in ix.values.Keys + ix.members.Keys && prefix <= p
    ensures Cleared(sharded, ix, EvictedInTurn(sharded, ix, order, failing), prefix, failing)
  {
    if sharded {
      ShardedInTurn(ix, order, failing);
      Sharded.EvictRecordsClears(ix, prefix, failing, Evicted(order, failing));
    } else {
      InTurnIsAtOnce(ix, order, failing);
      EvictAllClears(ix, prefix, failing, Evicted(order, failing));
    }
  }
}
