/** The read-through by alias of an alias-group cache, over any of the three strategies. */
module AliasCache {
  import opened Basics
  import opened Expiries
  import opened AliasIndex
  import opened AliasInverse
  import opened Keyspace
  import opened ReadThrough
  import opened CacheOps
  import Colocated
  import Sharded
  import M = MemStore

  datatype Strategy = InMemory | ColocatedRedis | ShardedRedis

  // ---- the AliasOps handle at one clock reading, at which Redis holds live cells only ----

  function ReadValue(st: Strategy, ix: Index, pk: string, now: int): Option<string> {
    match st
    case InMemory => M.MemGetValue(ix, pk, now)
    case ColocatedRedis => Colocated.ReadValue(ix, pk)
    case ShardedRedis => Sharded.ReadValue(ix, pk)
  }

  function ReadByAlias(st: Strategy, ix: Index, r: Ref, now: int): Option<string> {
    match st
    case InMemory => M.MemGetByAlias(ix, r, now, now, now)
    case ColocatedRedis => Colocated.UnvalidatedGet(ix, r)
    case ShardedRedis => Sharded.Get(ix, r)
  }

  function WriteValue(st: Strategy, ix: Index, pk: string, val: string, exp: Option<int>): Index {
    match st
    case InMemory => AliasIndex.PutValue(ix, pk, val, exp, exp)
    case ColocatedRedis => Colocated.Put(ix, pk, None, val, exp)
    case ShardedRedis => Sharded.RecordPut(ix, pk, None, val, exp)
  }

  function WriteByAlias(st: Strategy, ix: Index, pk: string, r: Ref, val: string, exp: Option<int>): Index {
    match st
    case InMemory => AliasIndex.PutByAlias(ix, pk, r, val, true, exp, exp)
    case ColocatedRedis => Colocated.Put(ix, pk, Some(r), val, exp)
    case ShardedRedis => Sharded.Put(ix, pk, r, val, exp)
  }

  /** Whichever strategy is behind it, a group's values change under PutValue as a plain store's. */
  lemma WriteValueSetsOneValue(st: Strategy, ix: Index, pk: string, val: string, exp: Option<int>)
    ensures WriteValue(st, ix, pk, val, exp).values == ix.values[pk := Entry(val, exp)]
  {
  }

  /** What was just registered is read back by alias and by primary. */
  lemma ReadAfterWriteByAlias(st: Strategy, ix: Index, pk: string, r: Ref, val: string, exp: Option<int>, now: int)
    requires LiveAt(exp, now)
    ensures ReadByAlias(st, WriteByAlias(st, ix, pk, r, val, exp), r, now) == Some(val)
    ensures ReadValue(st, WriteByAlias(st, ix, pk, r, val, exp), pk, now) == Some(val)
  {
    match st
    case InMemory => LinkedEntries(ix, pk, r, val, true, exp);
    case ColocatedRedis => LinkedEntries(ix, pk, r, val, false, exp);
    case ShardedRedis =>
  }

  lemma LinkedEntries(ix: Index, pk: string, r: Ref, val: string, keepEmpty: bool, exp: Option<int>)
    ensures var ix' := AliasIndex.PutByAlias(ix, pk, r, val, keepEmpty, exp, exp);
            && pk in ix'.values && ix'.values[pk] == Entry(val, exp)
            && pk in ix'.members && ix'.members[pk].exp == exp && Names(ix'.members[pk].fields, r)
            && r in ix'.pointers && ix'.pointers[r] == Entry(pk, exp)
  {
    var linked := Link(SetValue(ix, pk, val, exp), pk, r, keepEmpty, exp);
    assert linked.values[pk] == Entry(val, exp);
    assert Names(FieldsOf(linked, pk), r);
  }

  // ---- Cache.GetByAlias ----

  function LookByAlias(cfg: Config, st: Strategy, ix: Index, r: Ref): Lookup {
    Classify(cfg.codec, if r in cfg.failedAliasReads then None else ReadByAlias(st, ix, r, cfg.now))
  }

  /** A loaded value can be stored when it has a primary key, marshals, and its record write succeeds. */
  predicate Stores(cfg: Config, l: Loaded) {
    l.Found? && l.v.primary != "" && l.v in cfg.codec.marshal && l.v.primary !in cfg.failedWrites
  }

  /** Sharded writes the record first and the pointer in a second command, which may fail alone. */
  predicate PointerFails(cfg: Config, st: Strategy, r: Ref) {
    st.ShardedRedis? && r in cfg.failedPointers
  }

  /** PutByAlias reports success. */
  predicate Rebuilds(cfg: Config, st: Strategy, r: Ref, l: Loaded) {
    Stores(cfg, l) && !PointerFails(cfg, st, r)
  }

  /** The group after a miss on r was loaded. */
  function FetchByAlias(cfg: Config, st: Strategy, ix: Index, r: Ref, l: Loaded): Index {
    if !Stores(cfg, l) then ix
    else if PointerFails(cfg, st, r)
    then Sharded.RecordPut(ix, l.v.primary, Some(r), cfg.codec.marshal[l.v], cfg.valueExp)
    else WriteByAlias(st, ix, l.v.primary, r, cfg.codec.marshal[l.v], cfg.valueExp)
  }

  /** After a miss, the next read of the alias misses again exactly when reading it fails, the loaded value
      could not be stored, or its pointer could not and none leads to it from before. Otherwise it serves that
      value; and a stored value is served by its primary key. */
  lemma MissesAgainIff(cfg: Config, st: Strategy, ix: Index, r: Ref, l: Loaded)
    requires GoodCodec(cfg.codec) && LiveAt(cfg.valueExp, cfg.now) && LookByAlias(cfg, st, ix, r).Miss?
    ensures var ix' := FetchByAlias(cfg, st, ix, r, l);
            var stored := l.Found? && l.v.primary != "" && l.v in cfg.codec.marshal && l.v.primary !in cfg.failedWrites;
            && (LookByAlias(cfg, st, ix', r).Miss? <==>
                r in cfg.failedAliasReads || !stored
                || (st.ShardedRedis? && r in cfg.failedPointers && !PointsTo(ix, r, l.v.primary)))
            && (!LookByAlias(cfg, st, ix', r).Miss? ==> LookByAlias(cfg, st, ix', r) == Served(l.v))
            && (stored ==> Classify(cfg.codec, ReadValue(st, ix', l.v.primary, cfg.now)) == Served(l.v))
            && (!stored ==> ix' == ix)
  {
    if Stores(cfg, l) {
      var pk, bytes := l.v.primary, cfg.codec.marshal[l.v];
      if PointerFails(cfg, st, r) {
        ReadAfterRecordPut(ix, pk, r, bytes, cfg.valueExp);
      } else {
        ReadAfterWriteByAlias(st, ix, pk, r, bytes, cfg.valueExp, cfg.now);
      }
    }
  }

  /** A record write without its pointer serves the alias only through an older pointer to it. */
  lemma ReadAfterRecordPut(ix: Index, pk: string, r: Ref, val: string, exp: Option<int>)
    ensures var ix' := Sharded.RecordPut(ix, pk, Some(r), val, exp);
            && Sharded.ReadValue(ix', pk) == Some(val)
            && Sharded.Get(ix', r) == if PointsTo(ix, r, pk) then Some(val) else Sharded.Get(ix, r)
  {
  }

  /** The group after a read by alias: only a miss changes it. */
  function AfterLook(cfg: Config, st: Strategy, ix: Index, look: Lookup, r: Ref, l: Loaded): Index {
    if look.Miss? then FetchByAlias(cfg, st, ix, r, l) else ix
  }

  function ReplyTo(cfg: Config, st: Strategy, look: Lookup, r: Ref, l: Loaded): Reply {
    match look
    case Served(v) => Value(v, Hit)
    case KnownMissing => Absent(NegativeHit)
    case Miss =>
      match l
      case Found(v) => Value(v, if Rebuilds(cfg, st, r, l) then LoadedAndCached else LoadedNotCached)
      case Failed => LoadFailed
      case _ => Absent(LoadedAndCached)
  }

  /** A load counts as cached exactly when the next read that does not fail serves it through what was
      written: a pointer left from before a failed pointer write may serve a load counted as not cached. */
  lemma CountedAsCachedIff(cfg: Config, st: Strategy, ix: Index, r: Ref, v: Doc)
    requires GoodCodec(cfg.codec) && LiveAt(cfg.valueExp, cfg.now) && LookByAlias(cfg, st, ix, r).Miss?
    requires r !in cfg.failedAliasReads
    ensures var served := LookByAlias(cfg, st, FetchByAlias(cfg, st, ix, r, Found(v)), r) == Served(v);
            ReplyTo(cfg, st, Miss, r, Found(v)) ==
            Value(v, if served && !PointerFails(cfg, st, r) then LoadedAndCached else LoadedNotCached)
  {
    MissesAgainIff(cfg, st, ix, r, Found(v));
  }

  /** A hit by alias counts as a hit by primary key does, and runs no loader. */
  lemma HitsCountAlike(cfg: Config, st: Strategy, ix: Index, look: Lookup, r: Ref, l: Loaded)
    requires !look.Miss?
    ensures AfterLook(cfg, st, ix, look, r, l) == ix
    ensures var reply := ReplyTo(cfg, st, look, r, l);
            && !reply.LoadFailed?
            && One(reply.outcome) == (if look.Served? then Tally(1, 0, 0, 0) else Tally(0, 0, 0, 1))
            && (reply.Value? <==> look.Served?) && (reply.Value? ==> reply.v == look.v)
  {
  }

  /** The strategy an alias-group cache was registered with, as the real object. */
  datatype Handle =
    | MemHandle(mem: M.MemAliasOps)
    | ColocatedHandle(col: Colocated.ColocatedOps)
    | ShardedHandle(sh: Sharded.ShardedOps)
  {
    function Kind(): Strategy {
      match this
      case MemHandle(_) => InMemory
      case ColocatedHandle(_) => ColocatedRedis
      case ShardedHandle(_) => ShardedRedis
    }

    ghost function Objects(): set<object>
      reads if MemHandle? then {mem.s} else {}
    {
      match this
      case MemHandle(m) => {m, m.s} + m.s.members.Values
      case ColocatedHandle(c) => {c.conn, c.conn.server}
      case ShardedHandle(h) => {h.conn, h.conn.server}
    }

    /** The group's indexes. */
    ghost function Ix(): Index
      reads Objects()
    {
      match this
      case MemHandle(m) => m.ix
      case ColocatedHandle(c) => c.conn.ix
      case ShardedHandle(h) => h.conn.ix
    }

    /** The handle works, and a Redis server's clock reads now. */
    ghost predicate Valid(now: int)
      reads Objects()
    {
      match this
      case MemHandle(m) => m.Valid()
      case ColocatedHandle(c) => c.Valid() && c.conn.server.now == now
      case ShardedHandle(h) => h.Valid() && h.conn.server.now == now
    }

    method GetByAlias(r: Ref, now: int) returns (v: Option<string>)
      requires Valid(now) && GoodField(r.field)
      ensures Valid(now) && Objects() == old(Objects()) && Ix() == old(Ix())
      ensures v == ReadByAlias(Kind(), Ix(), r, now)
    {
      match this
      case MemHandle(m) => v := m.GetByAlias(r, now, now, now);
      case ColocatedHandle(c) => v := c.GetByAlias(r);
      case ShardedHandle(h) => v := h.GetByAlias(r);
    }

    method PutByAlias(primary: string, r: Ref, val: string, ttl: int, now: int, pointerFails: bool) returns (ok: bool)
      requires Valid(now) && GoodField(r.field)
      modifies Objects()
      ensures Valid(now) && fresh(Objects() - old(Objects()))
      ensures ok <==> !(ShardedHandle? && pointerFails)
      ensures Ix() == if ok then WriteByAlias(Kind(), old(Ix()), primary, r, val, Expiry(now, ttl))
                      else Sharded.RecordPut(old(Ix()), primary, Some(r), val, Expiry(now, ttl))
    {
      ok := true;
      match this
      case MemHandle(m) => m.PutByAlias(primary, r, val, ttl, now, now, now);
      case ColocatedHandle(c) => c.PutByAlias(primary, r, val, ttl);
      case ShardedHandle(h) => ok := h.PutByAlias(primary, r, val, ttl, pointerFails);
    }
  }

  class AliasGroupCache {
    const cfg: Config
    const handle: Handle
    const ttl: int
    var outcomes: Tally
    /** How often a loader ran. */
    var loads: nat

    ghost predicate Valid()
      reads handle.Objects()
    {
      handle.Valid(cfg.now) && cfg.valueExp == Expiry(cfg.now, ttl)
    }

    constructor (cfg: Config, handle: Handle, ttl: int)
      ensures this.cfg == cfg && this.handle == handle && this.ttl == ttl && outcomes == NONE && loads == 0
    {
      this.cfg, this.handle, this.ttl, outcomes, loads := cfg, handle, ttl, NONE, 0;
    }

    /** On a miss the loaded value rebuilds the group under the primary key it carries. */
    method GetByAlias(r: Ref, loader: () -> Loaded) returns (reply: Reply)
      requires Valid() && GoodField(r.field)
      modifies this, handle.Objects()
      ensures Valid()
      ensures var look := LookByAlias(cfg, handle.Kind(), old(handle.Ix()), r);
              && handle.Ix() == AfterLook(cfg, handle.Kind(), old(handle.Ix()), look, r, loader())
              && reply == ReplyTo(cfg, handle.Kind(), look, r, loader())
              && loads == old(loads) + (if look.Miss? then 1 else 0)
      ensures outcomes == if reply.LoadFailed? then old(outcomes) else Plus(old(outcomes), One(reply.outcome))
    {
      var look;
      reply, look := Serve(r, loader);
      Apart();
      loads := if look.Miss? then loads + 1 else loads;
      if !reply.LoadFailed? {
        outcomes := Plus(outcomes, One(reply.outcome));
      }
    }

    /** The cache is none of its handle's objects. */
    lemma Apart()
      ensures this !in handle.Objects()
    {
    }

    /** GetByAlias but for the counters; look is what the read found. */
    method Serve(r: Ref, loader: () -> Loaded) returns (reply: Reply, look: Lookup)
      requires Valid() && GoodField(r.field)
      modifies handle.Objects()
      ensures Valid() && fresh(handle.Objects() - old(handle.Objects()))
      ensures look == LookByAlias(cfg, handle.Kind(), old(handle.Ix()), r)
      ensures handle.Ix() == AfterLook(cfg, handle.Kind(), old(handle.Ix()), look, r, loader())
      ensures reply == ReplyTo(cfg, handle.Kind(), look, r, loader())
    {
      look := Find(r);
      if look.Miss? {
        reply := Load(r, loader);
      } else {
        reply := if look.Served? then Value(look.v, Hit) else Absent(NegativeHit);
      }
    }

    method Load(r: Ref, loader: () -> Loaded) returns (reply: Reply)
      requires Valid() && GoodField(r.field)
      modifies handle.Objects()
      ensures Valid() && fresh(handle.Objects() - old(handle.Objects()))
      ensures handle.Ix() == FetchByAlias(cfg, handle.Kind(), old(handle.Ix()), r, loader())
      ensures reply == ReplyTo(cfg, handle.Kind(), Miss, r, loader())
    {
      var loaded := loader();
      match loaded
      case Failed => reply := LoadFailed;
      case Found(v) =>
        var populated := Rebuild(r, v);
        reply := Value(v, if populated then LoadedAndCached else LoadedNotCached);
      case _ => reply := Absent(LoadedAndCached);
    }

    /** A failed read, like unreadable bytes, is a miss. */
    method Find(r: Ref) returns (look: Lookup)
      requires Valid() && GoodField(r.field)
      ensures Valid() && handle.Objects() == old(handle.Objects()) && handle.Ix() == old(handle.Ix())
      ensures look == LookByAlias(cfg, handle.Kind(), handle.Ix(), r)
    {
      if r in cfg.failedAliasReads {
        return Miss;
      }
      var raw := handle.GetByAlias(r, cfg.now);
      if raw.None? {
        return Miss;
      }
      if raw.value == MARKER {
        return KnownMissing;
      }
      if raw.value in cfg.codec.unmarshal {
        return Served(cfg.codec.unmarshal[raw.value]);
      }
      return Miss;
    }

    method Rebuild(r: Ref, v: Doc) returns (populated: bool)
      requires Valid() && GoodField(r.field)
      modifies handle.Objects()
      ensures Valid() && fresh(handle.Objects() - old(handle.Objects()))
      ensures handle.Ix() == FetchByAlias(cfg, handle.Kind(), old(handle.Ix()), r, Found(v))
      ensures populated <==> Rebuilds(cfg, handle.Kind(), r, Found(v))
    {
      populated := false;
      if v.primary != "" && v in cfg.codec.marshal && v.primary !in cfg.failedWrites {
        populated := handle.PutByAlias(v.primary, r, cfg.codec.marshal[v], ttl, cfg.now, r in cfg.failedPointers);
      }
    }
  }
}
