/** The read-through by alias, over any strategy, answers and rebuilds what the record table says. */
module AliasAgreement {
  import opened Basics
  import opened Expiries
  import opened AliasIndex
  import opened RecordTable
  import opened TableRefinement
  import opened ReadThrough
  import opened Runs
  import opened AliasCache
  import AliasInverse
  import Lifetimes
  import Col = ColocatedRefinement
  import Mem = MemRefinement
  import Sh = ShardedRefinement
  import Sharded

  /** The index and the table agree as they do throughout the strategy's runs. */
  ghost predicate Holds(st: Strategy, ix: Index, t: Table) {
    match st
    case InMemory => Mem.Agrees(ix, t)
    case ColocatedRedis => Col.Agrees(ix, t)
    case ShardedRedis => Sh.Agrees(ix, t)
  }

  /** The table's answer by alias; an in-memory table also lists expired records. */
  ghost function TableRead(st: Strategy, t: Table, r: Ref, now: int): Option<string> {
    if st.InMemory? then Mem.LastingGetByAlias(t, r, now) else TGetByAlias(t, r)
  }

  /** A sharded pointer may be missing, having run out or been lost. */
  predicate LostPointer(st: Strategy, ix: Index, r: Ref) {
    st.ShardedRedis? && r !in ix.pointers
  }

  /** A sharded pointer that is there leads to the owner, or its target's members disown the alias. */
  lemma ShardedReadAgrees(ix: Index, t: Table, r: Ref)
    requires Holds(ShardedRedis, ix, t) && r in ix.pointers
    ensures Sharded.Get(ix, r) == TGetByAlias(t, r)
  {
    var pk := ix.pointers[r].val;
    if Member(ix, pk, r) {
      assert Sh.Resolves(ix, r, pk);
      OwnerIs(t, pk, r);
    } else {
      forall p ensures !Owns(t, p, r) {
        assert Owns(t, p, r) ==> Member(ix, p, r) && pk == p;
      }
    }
  }

  lemma ReadAgrees(st: Strategy, ix: Index, t: Table, r: Ref, now: int)
    requires Holds(st, ix, t)
    ensures ReadByAlias(st, ix, r, now) == if LostPointer(st, ix, r) then None else TableRead(st, t, r, now)
  {
    match st
    case InMemory =>
      Mem.AliasReadIsOwnerRead(ix, r, now, now, now);
      PointerOwner(ix, t, r);
    case ColocatedRedis => Col.ReadsAgree(ix, t, r);
    case ShardedRedis => if r in ix.pointers { ShardedReadAgrees(ix, t, r); }
  }

  /** What GetByAlias finds is what the table answers, unless the read fails or a pointer is lost. */
  lemma LookAgrees(cfg: Config, st: Strategy, ix: Index, t: Table, r: Ref)
    requires Holds(st, ix, t)
    ensures LookByAlias(cfg, st, ix, r) ==
            if r in cfg.failedAliasReads || LostPointer(st, ix, r) then Miss
            else Classify(cfg.codec, TableRead(st, t, r, cfg.now))
  {
    ReadAgrees(st, ix, t, r, cfg.now);
  }

  /** A served value is stored for a record whose own members name the alias: never a stale alias. */
  lemma ServedAliasIsNamed(cfg: Config, st: Strategy, ix: Index, t: Table, r: Ref)
    requires Holds(st, ix, t) && LookByAlias(cfg, st, ix, r).Served?
    ensures exists pk :: && Owns(t, pk, r) && Member(ix, pk, r) && pk in ix.values
                         && LookByAlias(cfg, st, ix, r) == Classify(cfg.codec, Some(ix.values[pk].val))
  {
    LookAgrees(cfg, st, ix, t, r);
    var pk := Owner(t, r).value;
    assert Owns(t, pk, r);
    assert Member(ix, pk, r);
  }

  /** pk's record written anew, without an alias of r's field. */
  function Fieldless(t: Table, pk: string, r: Ref, val: string, exp: Option<int>): Table {
    t[pk := Record(val, AliasesOf(t, pk) - {r.field}, exp)]
  }

  /** The table after a miss on r was loaded. A sharded record written without its pointer owns no
      alias of that field. */
  function TableFetch(cfg: Config, st: Strategy, ix: Index, t: Table, r: Ref, l: Loaded): Table {
    if !Stores(cfg, l) then t
    else var pk, bytes := l.v.primary, cfg.codec.marshal[l.v];
         if PointerFails(cfg, st, r) && !PointsTo(ix, r, pk)
         then Fieldless(t, pk, r, bytes, cfg.valueExp)
         else TPutByAlias(t, pk, r, bytes, cfg.valueExp)
  }

  /** A rebuild registers the alias and its record under the cache's TTL, and changes no other record
      beyond taking the alias from it. */
  lemma FetchAgrees(cfg: Config, st: Strategy, ix: Index, t: Table, r: Ref, l: Loaded)
    requires Holds(st, ix, t)
    ensures Holds(st, FetchByAlias(cfg, st, ix, r, l), TableFetch(cfg, st, ix, t, r, l))
  {
    if Stores(cfg, l) {
      var pk, bytes, exp := l.v.primary, cfg.codec.marshal[l.v], cfg.valueExp;
      match st
      case InMemory =>
        PutByAliasCarries(ix, t, pk, r, bytes, true, exp, exp);
        Lifetimes.PutByAliasLifetime(ix, pk, r, bytes, true, exp, exp);
      case ColocatedRedis =>
        PutByAliasCarries(ix, t, pk, r, bytes, false, exp, exp);
        Lifetimes.PutByAliasLifetime(ix, pk, r, bytes, false, exp, exp);
      case ShardedRedis =>
        if PointerFails(cfg, st, r) {
          if PointsTo(ix, r, pk) {
            RecordPutWithPointer(ix, t, pk, r, bytes, exp);
          } else {
            RecordPutWithoutPointer(ix, t, pk, r, bytes, exp);
          }
        } else {
          Sh.PutWithin(ix, t, pk, r, bytes, exp);
          Sh.PutKnows(ix, t, pk, r, bytes, exp);
          PutByAliasOneOwner(t, pk, r, bytes, exp);
        }
    }
  }

  /** A sharded record write whose pointer write fails, with an older pointer to the record. */
  lemma RecordPutWithPointer(ix: Index, t: Table, pk: string, r: Ref, val: string, exp: Option<int>)
    requires Holds(ShardedRedis, ix, t) && PointsTo(ix, r, pk)
    ensures Holds(ShardedRedis, Sharded.RecordPut(ix, pk, Some(r), val, exp), TPutByAlias(t, pk, r, val, exp))
  {
    var t' := TPutByAlias(t, pk, r, val, exp);
    RecordPutRecords(ix, t, pk, r, val, exp, t');
    PutByAliasOneOwner(t, pk, r, val, exp);
    forall p, s ensures TrueAlias(Sharded.RecordPut(ix, pk, Some(r), val, exp), t', p, s) {
      RecordPutMembers(ix, pk, r, val, exp, p, s);
      PutByAliasOwns(t, pk, r, val, exp, p, s);
      assert TrueAlias(ix, t, p, s);
    }
    AliasesHold(Sharded.RecordPut(ix, pk, Some(r), val, exp), t');
  }

  /** Without one, the record owns no alias of that field. */
  lemma RecordPutWithoutPointer(ix: Index, t: Table, pk: string, r: Ref, val: string, exp: Option<int>)
    requires Holds(ShardedRedis, ix, t) && !PointsTo(ix, r, pk)
    ensures Holds(ShardedRedis, Sharded.RecordPut(ix, pk, Some(r), val, exp), Fieldless(t, pk, r, val, exp))
  {
    var t' := Fieldless(t, pk, r, val, exp);
    RecordPutRecords(ix, t, pk, r, val, exp, t');
    forall p, s
      ensures Owns(t', p, s) ==> Owns(t, p, s)
      ensures TrueAlias(Sharded.RecordPut(ix, pk, Some(r), val, exp), t', p, s)
    {
      RecordPutMembers(ix, pk, r, val, exp, p, s);
      FieldlessOwns(t, pk, r, val, exp, p, s);
      assert TrueAlias(ix, t, p, s);
    }
    AliasesHold(Sharded.RecordPut(ix, pk, Some(r), val, exp), t');
  }

  /** Within and Knows at one primary and alias. */
  predicate TrueAlias(ix: Index, t: Table, p: string, s: Ref) {
    && (Sh.Resolves(ix, s, p) ==> Owns(t, p, s))
    && (Owns(t, p, s) ==> Member(ix, p, s) && (s in ix.pointers ==> ix.pointers[s].val == p))
  }

  lemma AliasesHold(ix: Index, t: Table)
    requires SameValues(ix, t) && Sh.RecordExpiry(ix) && OneOwner(t) && forall p, s :: TrueAlias(ix, t, p, s)
    ensures Holds(ShardedRedis, ix, t)
  {
    forall p, s
      ensures Sh.Resolves(ix, s, p) ==> Owns(t, p, s)
      ensures Owns(t, p, s) ==> Member(ix, p, s) && (s in ix.pointers ==> ix.pointers[s].val == p)
    {
      assert TrueAlias(ix, t, p, s);
    }
  }

  lemma FieldlessOwns(t: Table, pk: string, r: Ref, val: string, exp: Option<int>, p: string, s: Ref)
    ensures Owns(Fieldless(t, pk, r, val, exp), p, s) <==> Owns(t, p, s) && !(p == pk && s.field == r.field)
  {
  }

  lemma RecordPutRecords(ix: Index, t: Table, pk: string, r: Ref, val: string, exp: Option<int>, t': Table)
    requires SameValues(ix, t) && Sh.RecordExpiry(ix)
    requires forall p :: p in t' <==> p == pk || p in t
    requires forall p :: p in t' ==> Entry(t'[p].val, t'[p].exp) ==
                                     if p == pk then Entry(val, exp) else Entry(t[p].val, t[p].exp)
    ensures var ix' := Sharded.RecordPut(ix, pk, Some(r), val, exp);
            SameValues(ix', t') && Sh.RecordExpiry(ix') && ix'.pointers == ix.pointers
  {
  }

  lemma RecordPutMembers(ix: Index, pk: string, r: Ref, val: string, exp: Option<int>, p: string, s: Ref)
    ensures Member(Sharded.RecordPut(ix, pk, Some(r), val, exp), p, s) <==>
            if p == pk && s.field == r.field then s == r else Member(ix, p, s)
  {
    var stored := SetValue(ix, pk, val, exp);
    AliasInverse.SetFieldMembers(stored, pk, r, p, s);
    assert Member(stored, p, s) <==> Member(ix, p, s);
    assert Member(Sharded.RecordPut(ix, pk, Some(r), val, exp), p, s) <==> Member(SetField(stored, pk, r), p, s);
  }

  // ---- after a run of calls on the group ----

  function IndexAt(st: Strategy, cs: seq<Call>, now: int): Index {
    match st
    case InMemory => Mem.After(cs)
    case ColocatedRedis => Purge(Col.After(cs), now)
    case ShardedRedis => Purge(Sh.After(cs), now)
  }

  ghost function TableAt(st: Strategy, cs: seq<Call>, now: int): Table {
    if st.InMemory? then LastingTableAfter(cs) else TExpire(TableAfter(cs), now)
  }

  /** At every time after every run (of the sharded strategy: whose evictions by alias are right), a read
      through the cache finds what the record table of those calls answers, and a miss that is loaded
      leaves an index that carries the table with the loaded record registered. */
  lemma EveryRunServes(cfg: Config, st: Strategy, cs: seq<Call>, r: Ref, l: Loaded)
    requires forall i :: 0 <= i < |cs| ==> InOrder(cs[i])
    requires st.ShardedRedis? ==> Sh.EvictsRightly(cs)
    ensures var ix, t := IndexAt(st, cs, cfg.now), TableAt(st, cs, cfg.now);
            && LookByAlias(cfg, st, ix, r) ==
               (if r in cfg.failedAliasReads || LostPointer(st, ix, r) then Miss
                else Classify(cfg.codec, TableRead(st, t, r, cfg.now)))
            && Holds(st, FetchByAlias(cfg, st, ix, r, l), TableFetch(cfg, st, ix, t, r, l))
  {
    var ix, t := IndexAt(st, cs, cfg.now), TableAt(st, cs, cfg.now);
    assert Holds(st, ix, t) by {
      match st
      case InMemory => Mem.EveryRunAgrees(cs);
      case ColocatedRedis =>
        Col.EveryRunAgrees(cs);
        Col.PurgeAgrees(Col.After(cs), TableAfter(cs), cfg.now);
      case ShardedRedis => Sh.EveryRunWithinAt(cs, cfg.now);
    }
    LookAgrees(cfg, st, ix, t, r);
    FetchAgrees(cfg, st, ix, t, r, l);
  }
}
