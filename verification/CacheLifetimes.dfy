/** A configured read-through cache: which TTLs it writes with, and so how old what it serves can be. */
module CacheLifetimes {
  import opened Basics
  import opened Expiries
  import opened AliasIndex
  import opened Keyspace
  import opened PlainStore
  import opened ReadThrough
  import opened BatchAgreement
  import opened Jitter
  import opened Runs
  import opened Staleness

  /** What Register resolves, in nanoseconds. */
  datatype Options = Options(ttl: int, allowInfinite: bool, negativeTtl: int, fraction: real)

  /** What Register accepts. */
  predicate GoodOptions(o: Options) {
    (o.allowInfinite || o.ttl > 0) && GoodFraction(o.fraction)
  }

  /** The TTL of a value, given what the random source returned. */
  function PositiveTtl(o: Options, rand: real): int {
    if o.allowInfinite then o.ttl else Jittered(o.ttl, o.fraction, rand)
  }

  /** The TTL of a not-found marker. */
  function NegativeTtl(o: Options, rand: real): int {
    Jittered(o.negativeTtl, o.fraction, rand)
  }

  /** During this call the cache writes values with one drawn TTL and markers with another. */
  ghost predicate Configured(o: Options, cfg: Config) {
    && (cfg.negativeCaching <==> o.negativeTtl > 0)
    && (exists rand :: IsRandom(rand) && cfg.valueExp == Expiry(cfg.now, PositiveTtl(o, rand)))
    && (exists rand :: IsRandom(rand) && cfg.markerExp == Expiry(cfg.now, NegativeTtl(o, rand)))
  }

  // ---- every write's TTL is drawn for what it writes ----

  lemma PutIsDrawn(o: Options, cfg: Config, k: string, l: Loaded) returns (ttl: int)
    requires GoodOptions(o) && !o.allowInfinite && Configured(o, cfg) && GoodCodec(cfg.codec)
    ensures forall put :: put in PutsFor(cfg, k, l) ==>
              && put.exp == Expiry(cfg.now, ttl)
              && Drawn(Settings(o.ttl, o.negativeTtl, o.fraction), put.val, ttl)
  {
    if l.NotFound? && cfg.negativeCaching {
      var rand :| IsRandom(rand) && cfg.markerExp == Expiry(cfg.now, NegativeTtl(o, rand));
      ttl := NegativeTtl(o, rand);
    } else {
      var rand :| IsRandom(rand) && cfg.valueExp == Expiry(cfg.now, PositiveTtl(o, rand));
      ttl := PositiveTtl(o, rand);
    }
  }

  /** The writes of an alias group's cache as calls on the group. */
  ghost predicate AreCalls(cs: seq<Call>, puts: seq<Put>, now: int) {
    && |cs| == |puts|
    && forall i :: 0 <= i < |cs| ==>
         && cs[i].op.PutValueOp? && cs[i] == Call(cs[i].op, now, now, now)
         && puts[i] == Put(cs[i].op.pk, cs[i].op.val, Expiry(now, cs[i].op.ttl))
  }

  lemma OnePutIsDrawn(o: Options, cfg: Config, k: string, l: Loaded) returns (cs: seq<Call>)
    requires GoodOptions(o) && !o.allowInfinite && Configured(o, cfg) && GoodCodec(cfg.codec)
    ensures AreCalls(cs, PutsFor(cfg, k, l), cfg.now)
    ensures DrawnRun(Settings(o.ttl, o.negativeTtl, o.fraction), cs)
  {
    var ttl := PutIsDrawn(o, cfg, k, l);
    var puts := PutsFor(cfg, k, l);
    if puts == [] {
      cs := [];
    } else {
      assert puts[0] in puts;
      cs := [Call(PutValueOp(puts[0].key, puts[0].val, ttl), cfg.now, cfg.now, cfg.now)];
    }
  }

  /** Each write of a single or batch read carries a TTL drawn for what it writes: from the TTL for a value,
      from the negative TTL for a marker. Runs of such calls are what bounds staleness. */
  lemma {:induction false} BatchPutsAreDrawn(o: Options, cfg: Config, missing: seq<string>, loaded: Answers)
    returns (cs: seq<Call>)
    requires GoodOptions(o) && !o.allowInfinite && Configured(o, cfg) && GoodCodec(cfg.codec)
    ensures AreCalls(cs, LoadPuts(cfg, missing, loaded), cfg.now)
    ensures DrawnRun(Settings(o.ttl, o.negativeTtl, o.fraction), cs)
  {
    if missing == [] {
      cs := [];
    } else {
      var n := |missing| - 1;
      var before := BatchPutsAreDrawn(o, cfg, missing[..n], loaded);
      var last := OnePutIsDrawn(o, cfg, missing[n], LoadedAt(loaded, missing[n]));
      cs := before + last;
    }
  }

  // ---- what a cache serves, over a whole life of calls ----

  /** A call by key: GetByKey with what its loader would answer, PutByKey with what was written to the source
      of truth, or EvictByKey. */
  datatype Event =
    | Read(cfg: Config, key: string, l: Loaded)
    | Write(cfg: Config, key: string, v: Doc)
    | Drop(cfg: Config, key: string)

  /** What the source of truth said during the call. */
  function Source(e: Event): Loaded {
    match e
    case Read(_, _, l) => l
    case Write(_, _, v) => Found(v)
    case Drop(_, _) => Nothing
  }

  function EventPuts(data: Data, e: Event): seq<Put> {
    match e
    case Read(cfg, key, l) => FetchPuts(cfg, data, key, l)
    case Write(cfg, key, v) => PutsFor(cfg, key, Found(v))
    case Drop(_, _) => []
  }

  /** A failed eviction removes nothing. */
  predicate Evicts(e: Event) {
    e.Drop? && e.key !in e.cfg.failedWrites
  }

  function Step(data: Data, e: Event): Data {
    if Evicts(e) then data - {StorageKey(e.cfg, e.key)} else Apply(e.cfg, data, EventPuts(data, e))
  }

  /** The store after these calls. */
  function Stored(es: seq<Event>): Data {
    if es == [] then map[] else Step(Stored(es[..|es| - 1]), es[|es| - 1])
  }

  /** These calls are all on one cache with these options, and none of them is later than cfg. */
  ghost predicate CallsOf(o: Options, es: seq<Event>, cfg: Config) {
    forall i :: 0 <= i < |es| ==> Configured(o, es[i].cfg) && IsLater(es[i].cfg, cfg)
  }

  /** The call leaves the key as it is. */
  predicate Leaves(data: Data, e: Event, key: string) {
    e.key == key ==> EventPuts(data, e) == [] && !Evicts(e)
  }

  /** The i-th call stored this entry for the key, and no later call wrote or evicted the key. */
  ghost predicate StoredAt(es: seq<Event>, i: nat, key: string, e: Entry) {
    && i < |es| && es[i].key == key
    && EventPuts(Stored(es[..i]), es[i]) == [Put(key, e.val, e.exp)]
    && forall j :: i < j < |es| ==> Leaves(Stored(es[..j]), es[j], key)
  }

  lemma {:induction false} StoredNext(before: seq<Event>, e: Event)
    ensures Stored(before + [e]) == Step(Stored(before), e)
  {
    assert (before + [e])[..|before|] == before;
  }

  /** A call that leaves a key leaves its stored entry. */
  lemma {:induction false} EntryStays(data: Data, e: Event, cfg: Config, key: string)
    requires Leaves(data, e, key) && IsLater(e.cfg, cfg)
    ensures At(Step(data, e), StorageKey(cfg, key)) == At(data, StorageKey(cfg, key))
  {
    var puts := EventPuts(data, e);
    assert StorageKey(e.cfg, key) == StorageKey(cfg, key);
    if StorageKey(e.cfg, e.key) == StorageKey(e.cfg, key) {
      StorageKeyInjective(e.cfg, e.key, key);
    }
    if puts == [] {
      assert Apply(e.cfg, data, puts) == data;
    } else {
      assert puts[..0] == [] && Apply(e.cfg, data, puts[..0]) == data;
    }
  }

  lemma {:induction false} StaysStored(before: seq<Event>, e: Event, i: nat, key: string, entry: Entry)
    requires StoredAt(before, i, key, entry) && Leaves(Stored(before), e, key)
    ensures StoredAt(before + [e], i, key, entry)
  {
    var es := before + [e];
    assert es[..i] == before[..i];
    forall j | i < j < |es| ensures Leaves(Stored(es[..j]), es[j], key) {
      if j < |before| {
        assert before[..j] == es[..j] && before[j] == es[j];
      } else {
        assert es[..j] == before;
      }
    }
  }

  lemma {:induction false} JustStored(before: seq<Event>, e: Event)
    requires EventPuts(Stored(before), e) != []
    ensures var es, k := before + [e], StorageKey(e.cfg, e.key);
            k in Stored(es) && StoredAt(es, |before|, e.key, Stored(es)[k])
  {
    var puts := EventPuts(Stored(before), e);
    StoredNext(before, e);
    assert (before + [e])[..|before|] == before;
    assert puts[..0] == [] && Apply(e.cfg, Stored(before), puts[..0]) == Stored(before);
  }

  lemma {:induction false} EveryEntryWasStored(o: Options, es: seq<Event>, cfg: Config, key: string) returns (i: nat)
    requires CallsOf(o, es, cfg) && StorageKey(cfg, key) in Stored(es)
    ensures StoredAt(es, i, key, Stored(es)[StorageKey(cfg, key)])
  {
    var before, e := es[..|es| - 1], es[|es| - 1];
    assert es == before + [e];
    assert StorageKey(e.cfg, key) == StorageKey(cfg, key);
    StoredNext(before, e);
    if Leaves(Stored(before), e, key) {
      EntryStays(Stored(before), e, cfg, key);
      i := EveryEntryWasStored(o, before, cfg, key);
      StaysStored(before, e, i, key, Stored(before)[StorageKey(cfg, key)]);
    } else {
      JustStored(before, e);
      i := |before|;
    }
  }

  /** A served value is what the last call to store the key got from the source of truth, at most TTL ago; a
      negative hit repeats a not-found at most NegativeTTL old. Neither bound depends on the draws. */
  lemma {:induction false} EveryHitIsFresh(o: Options, es: seq<Event>, cfg: Config, key: string)
    requires GoodOptions(o) && GoodCodec(cfg.codec) && CallsOf(o, es, cfg)
    ensures forall v :: Look(cfg, Stored(es), key) == Served(v) ==>
              exists i: nat, e :: && StoredAt(es, i, key, e) && Source(es[i]) == Found(v)
                                  && (o.ttl > 0 ==> cfg.now - es[i].cfg.now <= o.ttl)
    ensures Look(cfg, Stored(es), key) == KnownMissing ==>
              exists i: nat, e :: && StoredAt(es, i, key, e) && Source(es[i]) == NotFound
                                  && cfg.now - es[i].cfg.now <= o.negativeTtl
  {
    if !Look(cfg, Stored(es), key).Miss? {
      var e := Stored(es)[StorageKey(cfg, key)];
      var i := EveryEntryWasStored(o, es, cfg, key);
      EntryIsFresh(o, Stored(es[..i]), es[i], cfg, e);
      assert StoredAt(es, i, key, e);
    }
  }

  lemma EntryIsFresh(o: Options, data: Data, f: Event, cfg: Config, e: Entry)
    requires GoodOptions(o) && GoodCodec(cfg.codec) && Configured(o, f.cfg) && IsLater(f.cfg, cfg)
    requires EventPuts(data, f) == [Put(f.key, e.val, e.exp)] && LiveAt(e.exp, cfg.now)
    ensures if e.val == MARKER then Source(f) == NotFound && cfg.now - f.cfg.now <= o.negativeTtl
            else && Source(f).Found? && e.val in cfg.codec.unmarshal && cfg.codec.unmarshal[e.val] == Source(f).v
                 && (o.ttl > 0 ==> cfg.now - f.cfg.now <= o.ttl)
  {
    assert PutsFor(f.cfg, f.key, Source(f)) == [Put(f.key, e.val, e.exp)];
    if Source(f).NotFound? {
      var rand :| IsRandom(rand) && f.cfg.markerExp == Expiry(f.cfg.now, NegativeTtl(o, rand));
      JitteredRange(o.negativeTtl, o.fraction, rand);
    } else {
      var rand :| IsRandom(rand) && f.cfg.valueExp == Expiry(f.cfg.now, PositiveTtl(o, rand));
      if o.ttl > 0 { JitteredRange(o.ttl, o.fraction, rand); }
    }
  }
}
