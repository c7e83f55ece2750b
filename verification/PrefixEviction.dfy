/** Sorting a set of strings, as slices.Sorted does with the keys of a map. */
module SortedStrings {

  predicate Less(a: string, b: string) {
    b != "" && (a == "" || a[0] < b[0] || (a[0] == b[0] && Less(a[1..], b[1..])))
  }

  lemma {:induction false} LessTransitive(a: string, b: string, c: string)
    requires Less(a, b) && Less(b, c)
    ensures Less(a, c)
  {
    if a != "" && a[0] == b[0] == c[0] {
      LessTransitive(a[1..], b[1..], c[1..]);
    }
  }

  lemma {:induction false} LessTotal(a: string, b: string)
    ensures a == b || Less(a, b) || Less(b, a)
  {
    if a != "" && b != "" && a[0] == b[0] {
      LessTotal(a[1..], b[1..]);
      assert a == [a[0]] + a[1..] && b == [b[0]] + b[1..];
    }
  }

  lemma {:induction false} NotLessSelf(a: string)
    ensures !Less(a, a)
  {
    if a != "" { NotLessSelf(a[1..]); }
  }

  /** The first difference of a and b is at i, and a is smaller there. */
  predicate SmallerAt(a: string, b: string, i: nat) {
    i < |a| && i < |b| && a[..i] == b[..i] && a[i] < b[i]
  }

  lemma {:induction false} SmallerAtNext(c: char, a: string, b: string, i: nat)
    ensures SmallerAt([c] + a, [c] + b, i + 1) <==> SmallerAt(a, b, i)
  {
    if i < |a| && i < |b| {
      assert ([c] + a)[..i + 1] == [c] + a[..i] && ([c] + b)[..i + 1] == [c] + b[..i];
      assert ([c] + a[..i])[1..] == a[..i] && ([c] + b[..i])[1..] == b[..i];
    }
  }

  /** Dictionary order: a proper prefix comes first, otherwise the first difference decides. */
  lemma {:induction false} LessIs(a: string, b: string)
    ensures Less(a, b) <==> a < b || exists i: nat :: SmallerAt(a, b, i)
  {
    if a != "" && b != "" && a[0] == b[0] {
      var c, x, y := a[0], a[1..], b[1..];
      assert a == [c] + x && b == [c] + y;
      LessIs(x, y);
      if i: nat :| SmallerAt(x, y, i) {
        SmallerAtNext(c, x, y, i);
      }
      if i: nat :| SmallerAt(a, b, i) {
        assert i > 0;
        SmallerAtNext(c, x, y, i - 1);
      }
    } else if a != "" && b != "" && a[0] < b[0] {
      assert SmallerAt(a, b, 0);
    } else if a != "" && b != "" {
      forall i | 0 < i < |a| && i < |b| ensures a[..i] != b[..i] {
        assert a[..i][0] == a[0] && b[..i][0] == b[0];
      }
    }
  }

  ghost predicate Ascending(r: seq<string>) {
    forall i, j :: 0 <= i < j < |r| ==> Less(r[i], r[j])
  }

  method Least(s: set<string>) returns (m: string)
    requires s != {}
    ensures m in s && forall x :: x in s && x != m ==> Less(m, x)
  {
    m :| m in s;
    var rest := s - {m};
    while rest != {}
      invariant m in s && rest <= s
      invariant forall x :: x in s && x !in rest && x != m ==> Less(m, x)
    {
      var y :| y in rest;
      LessTotal(m, y);
      if Less(y, m) {
        forall x | x in s && x !in rest && x != m ensures Less(y, x) {
          LessTransitive(y, m, x);
        }
        m := y;
      }
      rest := rest - {y};
    }
  }

  method Sorted(s: set<string>) returns (r: seq<string>)
    ensures Ascending(r) && |r| == |s| && forall x :: x in r <==> x in s
  {
    r := [];
    var rest := s;
    while rest != {}
      invariant rest <= s && |r| + |rest| == |s|
      invariant Ascending(r) && forall x :: x in r <==> x in s && x !in rest
      invariant forall x, y :: x in r && y in rest ==> Less(x, y)
    {
      var m := Least(rest);
      r := r + [m];
      rest := rest - {m};
    }
  }
}

/** Bulk eviction by primary prefix on Redis (redisstore/prefix.go): two scans, then one
    cascade per distinct primary, in sorted order. */
module PrefixEviction {
  import opened Basics
  import opened Keyspace
  import opened KeyCodec
  import opened Redis
  import opened AliasIndex
  import opened CellLayout
  import opened GroupConnection
  import opened SortedStrings
  import opened BulkEviction
  import BulkIndex
  import Glob
  import Colocated
  import Sharded

  /** The strategy whose EvictByPrimary the bulk eviction repeats. */
  datatype Strategy = OnColocated(col: Colocated.ColocatedOps) | OnSharded(sh: Sharded.ShardedOps)
  {
    function Conn(): GroupConn {
      match this case OnColocated(col) => col.conn case OnSharded(sh) => sh.conn
    }

    ghost predicate Valid()
      reads Conn(), Conn().server
    {
      match this case OnColocated(col) => col.Valid() case OnSharded(sh) => sh.Valid()
    }

    /** One EvictByPrimary; a failed call has not run its script. */
    method EvictOne(primary: string, fails: bool) returns (ok: bool)
      requires Valid()
      modifies Conn().server`cells, Conn()`ix
      ensures Valid() && ok == !fails
      ensures Conn().OthersKept()
      ensures Conn().ix == if fails then old(Conn().ix) else EvictedBy(OnSharded?, old(Conn().ix), primary)
    {
      if !fails {
        match this
        case OnColocated(col) => col.EvictByPrimary(primary);
        case OnSharded(sh) => sh.EvictByPrimary(primary);
      }
      ok := !fails;
    }
  }

  predicate InPages(k: string, pages: seq<seq<string>>) {
    exists i :: 0 <= i < |pages| && k in pages[i]
  }

  /** A scan delivers every stored key that matches, and only such keys, in pages of any size and
      order, a key possibly more than once. */
  ghost predicate Covers(c: Cells, pattern: string, pages: seq<seq<string>>) {
    forall k :: InPages(k, pages) <==> k in c && Glob.Matches(pattern, k)
  }

  /** The primaries behind scanned value keys, restricted to the prefix. */
  method CollectValues(ns: string, sharded: bool, prefix: string, pages: seq<seq<string>>) returns (pks: set<string>)
    ensures forall p :: p in pks <==> prefix <= p && InPages(ValueKey(ns, p, sharded), pages)
  {
    pks := {};
    for i := 0 to |pages|
      invariant forall p :: p in pks <==> prefix <= p && InPages(ValueKey(ns, p, sharded), pages[..i])
    {
      var before := pks;
      for j := 0 to |pages[i]|
        invariant forall p :: p in pks <==> p in before || (prefix <= p && ValueKey(ns, p, sharded) in pages[i][..j])
      {
        var pk := PrimaryFromValueKey(ns, pages[i][j], sharded);
        forall p ensures pk == Some(p) <==> pages[i][j] == ValueKey(ns, p, sharded) {
          ValueKeyInverse(ns, pages[i][j], sharded, p);
        }
        if pk.Some? && prefix <= pk.value {
          pks := pks + {pk.value};
        }
        assert pages[i][..j + 1] == pages[i][..j] + [pages[i][j]];
      }
      assert pages[i][..|pages[i]|] == pages[i];
      NextPage(pages, i);
    }
    assert pages[..|pages|] == pages;
  }

  method CollectMembers(ns: string, sharded: bool, prefix: string, pages: seq<seq<string>>) returns (pks: set<string>)
    ensures forall p :: p in pks <==> prefix <= p && InPages(MembersKey(ns, p, sharded), pages)
  {
    pks := {};
    for i := 0 to |pages|
      invariant forall p :: p in pks <==> prefix <= p && InPages(MembersKey(ns, p, sharded), pages[..i])
    {
      var before := pks;
      for j := 0 to |pages[i]|
        invariant forall p :: p in pks <==> p in before || (prefix <= p && MembersKey(ns, p, sharded) in pages[i][..j])
      {
        var pk := PrimaryFromMembersKey(ns, pages[i][j], sharded);
        forall p ensures pk == Some(p) <==> pages[i][j] == MembersKey(ns, p, sharded) {
          MembersKeyInverse(ns, pages[i][j], sharded, p);
        }
        if pk.Some? && prefix <= pk.value {
          pks := pks + {pk.value};
        }
        assert pages[i][..j + 1] == pages[i][..j] + [pages[i][j]];
      }
      assert pages[i][..|pages[i]|] == pages[i];
      NextPage(pages, i);
    }
    assert pages[..|pages|] == pages;
  }

  lemma NextPage(pages: seq<seq<string>>, i: nat)
    requires i < |pages|
    ensures forall k :: InPages(k, pages[..i + 1]) <==> InPages(k, pages[..i]) || k in pages[i]
  {
    forall k ensures InPages(k, pages[..i + 1]) <==> InPages(k, pages[..i]) || k in pages[i] {
      if k in pages[i] { assert pages[..i + 1][i] == pages[i]; }
      if InPages(k, pages[..i]) { var j :| 0 <= j < i && k in pages[j]; assert pages[..i + 1][j] == pages[j]; }
    }
  }

  /** What the two scans find is what the index holds under the prefix. */
  lemma ScansFindMatching(l: Layout, c: Cells, ix: Index, ns: string, sharded: bool, prefix: string,
                          values: seq<seq<string>>, members: seq<seq<string>>, p: string)
    requires l == Keys(ns, sharded) && Holds(l, c, ix)
    requires Covers(c, Glob.MatchPattern(ValueMatch(ns, prefix, sharded)), values)
    requires Covers(c, Glob.MatchPattern(MembersMatch(ns, prefix, sharded)), members)
    ensures prefix <= p && InPages(ValueKey(ns, p, sharded), values) <==> prefix <= p && p in ix.values
    ensures prefix <= p && InPages(MembersKey(ns, p, sharded), members) <==> prefix <= p && p in ix.members
  {
    Glob.PatternIsExact(ValueMatch(ns, prefix, sharded), ValueKey(ns, p, sharded));
    Glob.PatternIsExact(MembersMatch(ns, prefix, sharded), MembersKey(ns, p, sharded));
    MatchSelectsPrefix(ns, p, prefix, sharded);
    assert Lookup(c, KeyOf(l, ValueSlot(p))) == Wanted(ix, ValueSlot(p));
    assert Lookup(c, KeyOf(l, MembersSlot(p))) == Wanted(ix, MembersSlot(p));
  }

  datatype Outcome = ScanFailed | Swept(count: nat, failures: nat)

  /** valuePages and membersPages are what the two scans deliver, None for a failed scan;
      failing are the primaries whose eviction fails; order is the sequence of evict calls. */
  method EvictByPrimaryPrefix(strategy: Strategy, pkPrefix: string, valuePages: Option<seq<seq<string>>>,
                              membersPages: Option<seq<seq<string>>>, failing: set<string>)
    returns (out: Outcome, order: seq<string>)
    requires strategy.Valid()
    requires var conn := strategy.Conn();
             && (valuePages.Some? ==>
                   Covers(conn.server.cells, Glob.MatchPattern(ValueMatch(conn.ns, pkPrefix, conn.sharded)),
                          valuePages.value))
             && (membersPages.Some? ==>
                   Covers(conn.server.cells, Glob.MatchPattern(MembersMatch(conn.ns, pkPrefix, conn.sharded)),
                          membersPages.value))
    modifies strategy.Conn().server`cells, strategy.Conn()`ix
    ensures strategy.Valid() && strategy.Conn().OthersKept()
    ensures out.ScanFailed? <==> valuePages.None? || membersPages.None?
    ensures out.ScanFailed? ==> order == [] && strategy.Conn().ix == old(strategy.Conn().ix)
    ensures out.Swept? ==> var before := old(strategy.Conn().ix);
              var found := set p | p in before.values.Keys + before.members.Keys && pkPrefix <= p;
              && Ascending(order) && (forall p :: p in order <==> p in found)
              && out.count + out.failures == |found|
              && strategy.Conn().ix == EvictedInTurn(strategy.OnSharded?, before, order, failing)
              && BulkIndex.Cleared(strategy.OnSharded?, before, strategy.Conn().ix, pkPrefix, failing)
    ensures out.Swept? ==> out.failures == |FailuresIn(order, failing)|
    ensures strategy.Conn().ForeignKept()
  {
    var conn := strategy.Conn();
    if valuePages.None? || membersPages.None? {
      conn.KeepsForeign();
      return ScanFailed, [];
    }
    ghost var ix := conn.ix;
    var fromValues := CollectValues(conn.ns, conn.sharded, pkPrefix, valuePages.value);
    var fromMembers := CollectMembers(conn.ns, conn.sharded, pkPrefix, membersPages.value);
    var pks := fromValues + fromMembers;
    forall p ensures p in pks <==> p in Matching(ix, pkPrefix) {
      ScansFindMatching(Keys(conn.ns, conn.sharded), conn.server.cells, ix, conn.ns, conn.sharded, pkPrefix,
                        valuePages.value, membersPages.value, p);
    }
    assert pks == set p | p in ix.values.Keys + ix.members.Keys && pkPrefix <= p;
    order := Sorted(pks);
    var count, failures := EvictInOrder(strategy, order, failing);
    out := Swept(count, failures);
    InTurnClears(strategy.OnSharded?, ix, order, pkPrefix, failing);
    conn.KeepsForeign();
  }

  method EvictInOrder(strategy: Strategy, order: seq<string>, failing: set<string>) returns (count: nat, failures: nat)
    requires strategy.Valid() && Ascending(order)
    modifies strategy.Conn().server`cells, strategy.Conn()`ix
    ensures strategy.Valid() && strategy.Conn().OthersKept()
    ensures count + failures == |order| && failures == |FailuresIn(order, failing)|
    ensures strategy.Conn().ix == EvictedInTurn(strategy.OnSharded?, old(strategy.Conn().ix), order, failing)
  {
    count, failures := 0, 0;
    for i := 0 to |order|
      invariant strategy.Valid() && strategy.Conn().OthersKept()
      invariant count + failures == i && failures == |FailuresIn(order[..i], failing)|
      invariant strategy.Conn().ix == EvictedInTurn(strategy.OnSharded?, old(strategy.Conn().ix), order[..i], failing)
    {
      FailuresSoFar(order, failing, i);
      InTurnNext(strategy.OnSharded?, old(strategy.Conn().ix), order, i, failing);
      var ok := strategy.EvictOne(order[i], order[i] in failing);
      count, failures := if ok then count + 1 else count, if ok then failures else failures + 1;
    }
    assert order[..|order|] == order;
  }

  /** The listed primaries whose eviction fails. */
  function FailuresIn(order: seq<string>, failing: set<string>): set<string> {
    set p | p in order && p in failing
  }

  lemma InTurnNext(sharded: bool, ix: Index, order: seq<string>, i: nat, failing: set<string>)
    requires i < |order|
    ensures EvictedInTurn(sharded, ix, order[..i + 1], failing) ==
            var before := EvictedInTurn(sharded, ix, order[..i], failing);
            if order[i] in failing then before else EvictedBy(sharded, before, order[i])
  {
    assert order[..i + 1][..i] == order[..i];
  }

  lemma FailuresSoFar(order: seq<string>, failing: set<string>, i: nat)
    requires Ascending(order) && i < |order|
    ensures |FailuresIn(order[..i + 1], failing)| ==
            |FailuresIn(order[..i], failing)| + (if order[i] in failing then 1 else 0)
  {
    var a, b := FailuresIn(order[..i], failing), FailuresIn(order[..i + 1], failing);
    assert order[..i + 1] == order[..i] + [order[i]];
    assert order[i] !in order[..i] by {
      forall j | 0 <= j < i ensures order[j] != order[i] {
        NotLessSelf(order[i]);
      }
    }
    assert b == if order[i] in failing then a + {order[i]} else a;
  }
}
