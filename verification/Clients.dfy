/** A client making the same calls on each of the three implementations, key strings and all. */
module Clients {
  import opened Basics
  import opened Expiries
  import opened Keyspace
  import opened AliasIndex
  import opened RecordTable
  import opened Runs
  import opened PrefixEviction
  import BulkEviction
  import Colocated
  import Glob
  import Redis
  import Sharded
  import M = MemStore
  import Col = ColocatedRefinement
  import Sh = ShardedRefinement
  import Mem = MemRefinement
  import E = Equivalence

  /** The clock starts at 0 and never runs backwards, up to end. */
  ghost predicate OnTime(cs: seq<Call>, end: int) {
    && 0 <= end
    && (forall i :: 0 <= i < |cs| ==> 0 <= cs[i].at <= end)
    && (forall i, j :: 0 <= i < j < |cs| ==> cs[i].at <= cs[j].at)
  }

  ghost predicate GoodRun(cs: seq<Call>) {
    forall i :: 0 <= i < |cs| ==> GoodOp(cs[i].op)
  }

  /** SCAN: every stored key that matches, here in one page. */
  method Scan(server: Redis.Server, pattern: string) returns (pages: seq<seq<string>>)
    ensures Covers(server.cells, pattern, pages)
  {
    var page := [];
    var rest := server.cells.Keys;
    while rest != {}
      invariant rest <= server.cells.Keys
      invariant forall k :: k in page <==> k in server.cells && k !in rest && Glob.Matches(pattern, k)
    {
      var k :| k in rest;
      if Glob.Matches(pattern, k) {
        page := page + [k];
      }
      rest := rest - {k};
    }
    pages := [page];
    forall k ensures InPages(k, pages) <==> k in server.cells && Glob.Matches(pattern, k) {
      assert pages[0] == page;
    }
  }

  /** EvictByPrimaryPrefix without failures evicts the matching records at once. */
  method Sweep(strategy: Strategy, prefix: string)
    requires strategy.Valid()
    modifies strategy.Conn().server`cells, strategy.Conn()`ix
    ensures strategy.Valid()
    ensures var ix := old(strategy.Conn().ix);
            strategy.Conn().ix == if strategy.OnSharded? then Sharded.EvictRecords(ix, Matching(ix, prefix))
                                  else EvictAll(ix, Matching(ix, prefix))
  {
    var conn := strategy.Conn();
    var values := Scan(conn.server, Glob.MatchPattern(ValueMatch(conn.ns, prefix, conn.sharded)));
    var members := Scan(conn.server, Glob.MatchPattern(MembersMatch(conn.ns, prefix, conn.sharded)));
    var _, order := EvictByPrimaryPrefix(strategy, prefix, Some(values), Some(members), {});
    BulkEviction.SweepIsAtOnce(old(conn.ix), order, prefix);
  }

  method CallColocated(ops: Colocated.ColocatedOps, c: Call)
    requires ops.Valid() && GoodOp(c.op) && ops.conn.server.now <= c.at
    modifies ops.conn, ops.conn.server
    ensures ops.Valid() && ops.conn.server.now == c.at
    ensures ops.conn.ix == Col.Step(old(ops.conn.ix), c)
  {
    ops.conn.AdvanceTo(c.at);
    match c.op
    case PutValueOp(pk, val, ttl) => ops.PutValue(pk, val, ttl);
    case PutByAliasOp(pk, ref, val, ttl) => ops.PutByAlias(pk, ref, val, ttl);
    case EvictByPrimaryOp(pk) => ops.EvictByPrimary(pk);
    case EvictByAliasOp(ref) => ops.EvictByAlias(ref);
    case EvictByPrefixOp(prefix) => Sweep(OnColocated(ops), prefix);
  }

  /** The whole run on colocated scripts; then, at now, one read by key and one by alias answer
      what the record table answers. */
  method RunColocated(ns: string, cs: seq<Call>, now: int, pk: string, ref: Ref)
    returns (byKey: Option<string>, byAlias: Option<string>)
    requires GoodNs(ns) && GoodField(ref.field) && GoodRun(cs) && OnTime(cs, now)
    ensures byKey == TGetValue(TExpire(TableAfter(cs), now), pk)
    ensures byAlias == TGetByAlias(TExpire(TableAfter(cs), now), ref)
  {
    var ops := new Colocated.ColocatedOps(ns);
    for i := 0 to |cs|
      invariant ops.Valid() && fresh(ops.conn) && fresh(ops.conn.server)
      invariant ops.conn.server.now == if i == 0 then 0 else cs[i - 1].at
      invariant ops.conn.ix == Col.After(cs[..i])
    {
      CallColocated(ops, cs[i]);
      assert cs[..i + 1][..i] == cs[..i];
    }
    assert cs[..|cs|] == cs;
    ops.conn.AdvanceTo(now);
    byKey := ops.GetValue(pk);
    byAlias := ops.GetByAlias(ref);
    Col.EveryReadAgrees(cs, now, pk, ref);
  }

  method CallSharded(ops: Sharded.ShardedOps, c: Call)
    requires ops.Valid() && GoodOp(c.op) && ops.conn.server.now <= c.at
    modifies ops.conn, ops.conn.server
    ensures ops.Valid() && ops.conn.server.now == c.at
    ensures ops.conn.ix == Sh.Step(old(ops.conn.ix), c)
  {
    ops.conn.AdvanceTo(c.at);
    match c.op
    case PutValueOp(pk, val, ttl) => ops.PutValue(pk, val, ttl);
    case PutByAliasOp(pk, ref, val, ttl) => var _ := ops.PutByAlias(pk, ref, val, ttl, false);
    case EvictByPrimaryOp(pk) => ops.EvictByPrimary(pk);
    case EvictByAliasOp(ref) => ops.EvictByAlias(ref);
    case EvictByPrefixOp(prefix) => Sweep(OnSharded(ops), prefix);
  }

  method RunSharded(ns: string, cs: seq<Call>, now: int, pk: string, ref: Ref)
    returns (byKey: Option<string>, byAlias: Option<string>)
    requires GoodNs(ns) && GoodField(ref.field) && GoodRun(cs) && OnTime(cs, now)
    ensures byKey == Sharded.ReadValue(Purge(Sh.After(cs), now), pk)
    ensures byAlias == Sharded.Get(Purge(Sh.After(cs), now), ref)
  {
    var ops := new Sharded.ShardedOps(ns);
    for i := 0 to |cs|
      invariant ops.Valid() && fresh(ops.conn) && fresh(ops.conn.server)
      invariant ops.conn.server.now == if i == 0 then 0 else cs[i - 1].at
      invariant ops.conn.ix == Sh.After(cs[..i])
    {
      CallSharded(ops, cs[i]);
      assert cs[..i + 1][..i] == cs[..i];
    }
    assert cs[..|cs|] == cs;
    ops.conn.AdvanceTo(now);
    byKey := ops.GetValue(pk);
    byAlias := ops.GetByAlias(ref);
  }

  method CallMem(ops: M.MemAliasOps, c: Call)
    requires ops.Valid() && GoodOp(c.op)
    modifies ops.s, ops.s.members.Values, ops`ix
    ensures ops.Valid() && fresh(ops.s.members.Values - old(ops.s.members.Values))
    ensures ops.ix == Mem.Step(old(ops.ix), c)
  {
    match c.op
    case PutValueOp(pk, val, ttl) => ops.PutValue(pk, val, ttl, c.at, c.later);
    case PutByAliasOp(pk, ref, val, ttl) => ops.PutByAlias(pk, ref, val, ttl, c.at, c.later, c.latest);
    case EvictByPrimaryOp(pk) => ops.EvictByPrimary(pk);
    case EvictByAliasOp(ref) => ops.EvictByAlias(ref);
    case EvictByPrefixOp(prefix) => var _ := ops.EvictByPrimaryPrefix(prefix);
  }

  /** The whole run in memory; the reads answer what the lasting table answers. */
  method RunMem(ns: string, sharded: bool, cs: seq<Call>, pk: string, ref: Ref, at: int, later: int, latest: int)
    returns (byKey: Option<string>, byAlias: Option<string>)
    requires GoodNs(ns) && GoodField(ref.field) && GoodCalls(cs) && at <= later <= latest
    ensures byKey == Mem.LastingGet(LastingTableAfter(cs), pk, latest)
    ensures byAlias == Mem.LastingGetByAlias(LastingTableAfter(cs), ref, latest)
  {
    var ops := new M.MemAliasOps(ns, sharded);
    for i := 0 to |cs|
      invariant ops.Valid() && fresh(ops) && fresh(ops.s) && fresh(ops.s.members.Values)
      invariant ops.ix == Mem.After(cs[..i])
    {
      CallMem(ops, cs[i]);
      assert cs[..i + 1][..i] == cs[..i];
    }
    assert cs[..|cs|] == cs;
    byKey := ops.GetValue(pk, latest);
    byAlias := ops.GetByAlias(ref, at, later, latest);
    Mem.EveryReadAgrees(cs, pk, ref, latest, latest, latest);
    Mem.EveryReadAgrees(cs, pk, ref, at, later, latest);
  }

  datatype Answers = Answers(byKey: Option<string>, byAlias: Option<string>)

  /** The three implementations, each in its own clock unit, give the same answers while nothing
      expires. */
  method AllThree(ns: string, cs: seq<Call>, end: int, pk: string, ref: Ref)
    returns (mem: Answers, colocated: Answers, sharded: Answers)
    requires GoodNs(ns) && GoodField(ref.field) && GoodCalls(cs) && OnTime(cs, end)
    requires E.NothingExpires(cs, end) && E.EvictsResolvingAliases(cs)
    ensures mem == colocated == sharded
    ensures mem.byKey == Mem.LastingGet(LastingTableAfter(cs), pk, end)
    ensures mem.byAlias == Mem.LastingGetByAlias(LastingTableAfter(cs), ref, end)
  {
    MillisOnTime(cs, end);
    var key, alias := RunMem(ns, true, cs, pk, ref, end, end, end);
    mem := Answers(key, alias);
    key, alias := RunColocated(ns, E.InMillis(cs), ClockMillis(end), pk, ref);
    colocated := Answers(key, alias);
    key, alias := RunSharded(ns, E.InMillis(cs), ClockMillis(end), pk, ref);
    sharded := Answers(key, alias);
    E.ThreeWay(cs, end, pk, ref, end, end, end);
    Mem.EveryReadAgrees(cs, pk, ref, end, end, end);
    Col.EveryReadAgrees(E.InMillis(cs), ClockMillis(end), pk, ref);
  }

  lemma MillisOnTime(cs: seq<Call>, end: int)
    requires OnTime(cs, end) && GoodRun(cs)
    ensures OnTime(E.InMillis(cs), ClockMillis(end)) && GoodRun(E.InMillis(cs))
  {
    forall i | 0 <= i < |cs| ensures E.InMillis(cs)[i] == E.CallInMillis(cs[i]) {
      E.InMillisAt(cs, i);
    }
  }
}
