/** The plain (alias-free) side of the stores: memstore.go, and DeleteByPrefix on Redis. */
module PlainStore {
  import opened Basics
  import opened Expiries
  import opened Keyspace
  import opened KeyCodec
  import opened AliasIndex
  import opened MemStore

  function ReadEntry(data: map<string, Entry>, key: string, now: int): Option<string> {
    if key in data && LiveAt(data[key].exp, now) then Some(data[key].val) else None
  }

  /** The keys with the prefix. */
  function WithPrefix<V>(m: map<string, V>, prefix: string): (r: set<string>)
    ensures forall k :: k in r <==> k in m && prefix <= k
  {
    set k | k in m && prefix <= k
  }

  /** The keys whose entries are unexpired when the clock is read for them. */
  function LiveKeys(data: map<string, Entry>, keys: set<string>, clock: map<string, int>): set<string> {
    set k | k in keys && k in data && k in clock && LiveAt(data[k].exp, clock[k])
  }

  /** memstore as a CacheStore, one call at a time. */
  class MemPlainOps {
    const s: Store

    constructor (s: Store)
      ensures this.s == s
    {
      this.s := s;
    }

    /** A miss on an expired entry removes it. */
    method Get(key: string, now: int) returns (r: Option<string>)
      modifies s`data
      ensures r == ReadEntry(old(s.data), key, now)
      ensures s.data == if key in old(s.data) && r.None? then old(s.data) - {key} else old(s.data)
    {
      if key !in s.data {
        return None;
      }
      var e := s.data[key];
      if e.exp.Some? && now > e.exp.value {
        if key in s.data && s.data[key].exp == e.exp {
          s.data := s.data - {key};
        }
        return None;
      }
      r := Some(e.val);
    }

    method Set(key: string, val: string, ttl: int, now: int)
      modifies s`data
      ensures s.data == old(s.data)[key := Entry(val, Expiry(now, ttl))]
    {
      var exp := None;
      if ttl > 0 {
        exp := Some(now + ttl);
      }
      s.data := s.data[key := Entry(val, exp)];
    }

    method Delete(key: string)
      modifies s`data
      ensures s.data == old(s.data) - {key}
    {
      s.data := s.data - {key};
    }

    /** Removes every entry with the prefix, in whatever order the map is visited, and counts the
        unexpired ones; clock holds the reading taken for each. */
    method DeleteByPrefix(prefix: string, clock: map<string, int>) returns (removed: nat)
      requires s.data.Keys <= clock.Keys
      modifies s`data
      ensures s.data == old(s.data) - WithPrefix(old(s.data), prefix)
      ensures removed == |LiveKeys(old(s.data), WithPrefix(old(s.data), prefix), clock)|
    {
      removed := 0;
      ghost var data := s.data;
      var rest := s.data.Keys;
      while rest != {}
        invariant rest <= data.Keys
        invariant s.data == data - (WithPrefix(data, prefix) - rest)
        invariant removed == |LiveKeys(data, WithPrefix(data, prefix) - rest, clock)|
      {
        var key :| key in rest;
        CountNext(data, prefix, rest, key, clock);
        if prefix <= key {
          if LiveAt(s.data[key].exp, clock[key]) {
            removed := removed + 1;
          }
          s.data := s.data - {key};
        }
        rest := rest - {key};
      }
      assert WithPrefix(data, prefix) - {} == WithPrefix(data, prefix);
    }

    /** clock holds the reading taken for each requested key; it never runs backwards. */
    method GetMany(keys: seq<string>, clock: seq<int>) returns (out: map<string, string>)
      requires |clock| == |keys| && forall i, j :: 0 <= i < j < |clock| ==> clock[i] <= clock[j]
      modifies s`data
      ensures forall k :: k in out <==>
                exists i :: 0 <= i < |keys| && keys[i] == k && ReadEntry(old(s.data), keys[i], clock[i]).Some?
      ensures forall k :: k in out ==> k in old(s.data) && out[k] == old(s.data)[k].val
      ensures forall k, now :: Reached(clock, now) ==> ReadEntry(s.data, k, now) == ReadEntry(old(s.data), k, now)
    {
      out := map[];
      ghost var data := s.data;
      for i := 0 to |keys|
        invariant forall k :: k in out <==>
                    exists j :: 0 <= j < i && keys[j] == k && ReadEntry(data, keys[j], clock[j]).Some?
        invariant forall k :: k in out ==> k in data && out[k] == data[k].val
        invariant OnlyExpiredGone(data, s.data, clock[..i])
      {
        ghost var stored := s.data;
        var b := Get(keys[i], clock[i]);
        GetIsFaithful(data, stored, clock, i, keys[i]);
        if b.Some? {
          out := out[keys[i] := b.value];
        }
      }
      assert clock[..|clock|] == clock;
    }
  }

  /** No reading was taken after now. */
  ghost predicate Reached(clock: seq<int>, now: int) {
    forall i :: 0 <= i < |clock| ==> clock[i] <= now
  }

  /** What is gone had expired at one of these readings. */
  ghost predicate OnlyExpiredGone(before: map<string, Entry>, after: map<string, Entry>, clock: seq<int>) {
    && (forall k :: k in after ==> k in before && after[k] == before[k])
    && (forall k, now :: k in before && k !in after && Reached(clock, now) ==> !LiveAt(before[k].exp, now))
  }

  /** Reading a key at the i-th reading finds what was there at first, and removes it only if that has
      expired. */
  lemma GetIsFaithful(before: map<string, Entry>, stored: map<string, Entry>, clock: seq<int>, i: nat, key: string)
    requires i < |clock| && forall j, k :: 0 <= j < k < |clock| ==> clock[j] <= clock[k]
    requires OnlyExpiredGone(before, stored, clock[..i])
    ensures ReadEntry(stored, key, clock[i]) == ReadEntry(before, key, clock[i])
    ensures OnlyExpiredGone(before, stored, clock[..i + 1])
    ensures ReadEntry(stored, key, clock[i]).None? ==> OnlyExpiredGone(before, stored - {key}, clock[..i + 1])
  {
    assert Reached(clock[..i], clock[i]);
    forall now | Reached(clock[..i + 1], now) ensures Reached(clock[..i], now) && clock[i] <= now {
      assert clock[..i + 1][i] == clock[i];
      assert forall j :: 0 <= j < i ==> clock[..i + 1][j] == clock[..i][j];
    }
  }

  lemma CountNext(data: map<string, Entry>, prefix: string, rest: set<string>, key: string, clock: map<string, int>)
    requires key in rest && rest <= data.Keys <= clock.Keys
    ensures var done, next := WithPrefix(data, prefix) - rest, WithPrefix(data, prefix) - (rest - {key});
            && next == (if prefix <= key then done + {key} else done)
            && |LiveKeys(data, next, clock)| ==
               |LiveKeys(data, done, clock)| + (if prefix <= key && LiveAt(data[key].exp, clock[key]) then 1 else 0)
  {
    var done, next := WithPrefix(data, prefix) - rest, WithPrefix(data, prefix) - (rest - {key});
    assert next == if prefix <= key then done + {key} else done;
    if prefix <= key && LiveAt(data[key].exp, clock[key]) {
      assert LiveKeys(data, next, clock) == LiveKeys(data, done, clock) + {key};
    } else {
      assert LiveKeys(data, next, clock) == LiveKeys(data, done, clock);
    }
  }

  /** Deleting by a plain cache's prefix takes exactly that cache's keys whose logical key has the
      prefix: no other namespace's, and nothing of an alias group. */
  lemma DeletesOneCachesKeys<V>(m: map<string, V>, ns: string, keyPrefix: string, id: KeyId)
    requires GoodPlainNs(ns) && Good(id)
    ensures Encode(id) in m - WithPrefix(m, NonAliasKeyPrefix(ns, keyPrefix)) <==>
            Encode(id) in m && !(id.PlainId? && id.ns == ns && keyPrefix <= id.key)
  {
    PlainPrefixSelects(ns, keyPrefix, id);
  }

  datatype PrefixReply = EmptyPrefix | WildcardPrefix | Removed(count: nat)

  /** Cache.EvictByKeyPrefix of a plain cache over memstore. */
  method EvictByKeyPrefix(ops: MemPlainOps, ns: string, keyPrefix: string, clock: map<string, int>)
    returns (r: PrefixReply)
    requires ops.s.data.Keys <= clock.Keys
    modifies ops.s`data
    ensures r.EmptyPrefix? <==> keyPrefix == ""
    ensures r.WildcardPrefix? <==> '*' in keyPrefix
    ensures var doomed := WithPrefix(old(ops.s.data), NonAliasKeyPrefix(ns, keyPrefix));
            if r.Removed? then
              ops.s.data == old(ops.s.data) - doomed && r.count == |LiveKeys(old(ops.s.data), doomed, clock)|
            else ops.s.data == old(ops.s.data)
  {
    if keyPrefix == "" {
      return EmptyPrefix;
    }
    if '*' in keyPrefix {
      return WildcardPrefix;
    }
    var n := ops.DeleteByPrefix(NonAliasKeyPrefix(ns, keyPrefix), clock);
    r := Removed(n);
  }
}

/** DeleteByPrefix on Redis: one DEL per scanned key. */
module RedisPlain {
  import opened Basics
  import opened PlainStore
  import opened PrefixEviction
  import opened Redis
  import Glob

  /** The scanned keys whose DEL succeeds. */
  function Deleted(c: Cells, pages: seq<seq<string>>, failing: set<string>): (r: set<string>)
    ensures forall k :: k in r <==> k in c && InPages(k, pages) && k !in failing
  {
    set k | k in c && InPages(k, pages) && k !in failing
  }

  /** pages is what the scan delivered before it ended, scanned whether it reached the end, and
      failing the keys whose DEL fails. A failed DEL does not stop the sweep. */
  method DeleteByPrefix(server: Server, keyPrefix: string, pages: seq<seq<string>>, scanned: bool, failing: set<string>)
    returns (deleted: nat, ok: bool)
    requires forall k :: InPages(k, pages) ==> Glob.Matches(Glob.Literal(keyPrefix) + "*", k)
    requires scanned ==>
               forall k :: k in server.cells && Glob.Matches(Glob.Literal(keyPrefix) + "*", k) ==> InPages(k, pages)
    modifies server`cells
    ensures server.cells == old(server.cells) - Deleted(old(server.cells), pages, failing)
    ensures deleted == |Deleted(old(server.cells), pages, failing)|
    ensures Deleted(old(server.cells), pages, failing) <= WithPrefix(old(server.cells), keyPrefix)
    ensures scanned ==> Deleted(old(server.cells), pages, failing) == WithPrefix(old(server.cells), keyPrefix) - failing
    ensures ok <==> scanned && forall k :: InPages(k, pages) ==> k !in failing
  {
    ghost var c := server.cells;
    deleted, ok := 0, scanned;
    for i := 0 to |pages|
      invariant server.cells == c - Deleted(c, pages[..i], failing)
      invariant deleted == |Deleted(c, pages[..i], failing)|
      invariant ok <==> scanned && forall k :: InPages(k, pages[..i]) ==> k !in failing
    {
      NextPage(pages, i);
      var n, fine := DeletePage(server, pages[i], failing, c, Deleted(c, pages[..i], failing));
      assert Deleted(c, pages[..i], failing) + Listed(c, pages[i], failing) == Deleted(c, pages[..i + 1], failing);
      deleted, ok := deleted + n, ok && fine;
    }
    assert pages[..|pages|] == pages;
    forall k ensures Glob.Matches(Glob.Literal(keyPrefix) + "*", k) <==> keyPrefix <= k {
      Glob.PrefixPatternIsExact(keyPrefix, k);
    }
  }

  function Listed(c: Cells, keys: seq<string>, failing: set<string>): (r: set<string>)
    ensures forall k :: k in r <==> k in c && k in keys && k !in failing
  {
    set k | k in c && k in keys && k !in failing
  }

  /** One scan batch; a key deleted before counts as 0. */
  method DeletePage(server: Server, keys: seq<string>, failing: set<string>, ghost c: Cells, ghost gone: set<string>)
    returns (deleted: nat, ok: bool)
    requires server.cells == c - gone && gone <= c.Keys
    modifies server`cells
    ensures server.cells == c - (gone + Listed(c, keys, failing))
    ensures |gone| + deleted == |gone + Listed(c, keys, failing)|
    ensures ok <==> forall k :: k in keys ==> k !in failing
  {
    deleted, ok := 0, true;
    assert gone + Listed(c, [], failing) == gone;
    for j := 0 to |keys|
      invariant server.cells == c - (gone + Listed(c, keys[..j], failing))
      invariant |gone| + deleted == |gone + Listed(c, keys[..j], failing)|
      invariant ok <==> forall k :: k in keys[..j] ==> k !in failing
    {
      TakeNext(keys, j);
      ListedNext(c, keys[..j], keys[j], failing, gone);
      if keys[j] in failing {
        ok := false;
      } else {
        var n := server.Del(keys[j]);
        deleted := deleted + n;
      }
    }
    TakeAll(keys);
  }

  lemma ListedNext(c: Cells, keys: seq<string>, k: string, failing: set<string>, gone: set<string>)
    requires gone <= c.Keys
    ensures var before, next := gone + Listed(c, keys, failing), gone + Listed(c, keys + [k], failing);
            if k in failing then next == before
            else c - next == (c - before) - {k} && |next| == |before| + (if k in c - before then 1 else 0)
  {
    var before, next := gone + Listed(c, keys, failing), gone + Listed(c, keys + [k], failing);
    if k in c && k !in failing && k !in before {
      assert next == before + {k};
    } else {
      assert next == before;
    }
  }
}
