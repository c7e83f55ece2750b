/** Two caches over equal stores: one reads its keys in a batch, the other one at a time. */
module BatchClients {
  import opened Basics
  import opened AliasIndex
  import opened ReadThrough
  import opened CacheOps
  import opened BatchAgreement

  /** GetByKey for each key in turn; source is what the loader finds. */
  method GetEach(cache: Cache, keys: seq<string>, source: Answers) returns (found: map<string, Doc>)
    requires NoRepeats(keys)
    modifies cache
    ensures ReadEach(cache, old(cache.data), old(cache.puts), old(cache.outcomes), keys, source)
    ensures FoundEach(cache.cfg, old(cache.data), keys, source, found)
  {
    found := map[];
    ghost var done := [];
    for i := 0 to |keys|
      invariant done == keys[..i]
      invariant ReadEach(cache, old(cache.data), old(cache.puts), old(cache.outcomes), done, source)
      invariant FoundEach(cache.cfg, old(cache.data), done, source, found)
    {
      TakeNext(keys, i);
      var v := GetStep(cache, keys[i], source, old(cache.data), old(cache.puts), old(cache.outcomes), done);
      found := Add(cache.cfg, old(cache.data), done, keys[i], source, found, v);
      done := done + [keys[i]];
    }
    TakeAll(keys);
  }

  /** Since the cache was in this state, these keys were read one at a time. */
  ghost predicate ReadEach(cache: Cache, data: Data, puts: seq<Put>, outcomes: Tally, keys: seq<string>,
                           source: Answers)
    reads cache
  {
    && cache.Wrote(data, puts, OneByOnePuts(cache.cfg, data, keys, source))
    && cache.outcomes == Plus(outcomes, OneByOneOutcomes(cache.cfg, data, keys, source))
  }

  method GetStep(cache: Cache, k: string, source: Answers, ghost dataFirst: Data, ghost putsFirst: seq<Put>,
                 ghost outcomesFirst: Tally, ghost done: seq<string>)
    returns (v: Option<Doc>)
    requires ReadEach(cache, dataFirst, putsFirst, outcomesFirst, done, source) && k !in done
    modifies cache
    ensures ReadEach(cache, dataFirst, putsFirst, outcomesFirst, done + [k], source)
    ensures v == Fetched(cache.cfg, dataFirst, k, LoadedAt(source, k))
  {
    ghost var written := OneByOnePuts(cache.cfg, dataFirst, done, source);
    OneByOneStep(cache.cfg, dataFirst, done, k, source);
    ghost var next := OneByOnePuts(cache.cfg, dataFirst, done + [k], source);
    PlusInOrder(outcomesFirst, OneByOneOutcomes(cache.cfg, dataFirst, done, source),
                FetchOutcome(cache.cfg, dataFirst, k, LoadedAt(source, k)));
    v := GetNext(cache, k, source, dataFirst, putsFirst, written, next);
  }

  /** A key not read before is read as it was at first. */
  lemma OneByOneStep(cfg: Config, data: Data, done: seq<string>, k: string, source: Answers)
    requires k !in done
    ensures Look(cfg, Apply(cfg, data, OneByOnePuts(cfg, data, done, source)), k) == Look(cfg, data, k)
    ensures OneByOnePuts(cfg, data, done + [k], source) ==
            OneByOnePuts(cfg, data, done, source) + FetchPuts(cfg, data, k, LoadedAt(source, k))
    ensures OneByOneOutcomes(cfg, data, done + [k], source) ==
            Plus(OneByOneOutcomes(cfg, data, done, source), FetchOutcome(cfg, data, k, LoadedAt(source, k)))
  {
    OneByOneNext(cfg, data, done, k, source);
    OneByOneFrame(cfg, data, done, source, k);
  }

  /** One more key, with these writes, none of them its own, behind it. */
  method GetNext(cache: Cache, k: string, source: Answers, ghost dataFirst: Data, ghost putsFirst: seq<Put>,
                 ghost written: seq<Put>, ghost next: seq<Put>)
    returns (v: Option<Doc>)
    requires cache.Wrote(dataFirst, putsFirst, written)
    requires next == written + FetchPuts(cache.cfg, dataFirst, k, LoadedAt(source, k))
    requires Look(cache.cfg, cache.data, k) == Look(cache.cfg, dataFirst, k)
    modifies cache
    ensures cache.Wrote(dataFirst, putsFirst, next)
    ensures cache.outcomes == Plus(old(cache.outcomes), FetchOutcome(cache.cfg, dataFirst, k, LoadedAt(source, k)))
    ensures v == Fetched(cache.cfg, dataFirst, k, LoadedAt(source, k))
  {
    ApplyMore(cache.cfg, dataFirst, written, FetchPuts(cache.cfg, dataFirst, k, LoadedAt(source, k)));
    PutsInOrder(putsFirst, written, FetchPuts(cache.cfg, dataFirst, k, LoadedAt(source, k)));
    var reply := cache.GetByKey(k, () => LoadedAt(source, k));
    v := if reply.Value? then Some(reply.v) else None;
  }

  /** found holds what reading each key on its own would return, and nothing else. */
  ghost predicate FoundEach(cfg: Config, data: Data, keys: seq<string>, source: Answers, found: map<string, Doc>) {
    forall k :: At(found, k) == if k in keys then Fetched(cfg, data, k, LoadedAt(source, k)) else None
  }

  method Add(ghost cfg: Config, ghost data: Data, ghost done: seq<string>, k: string, ghost source: Answers,
             before: map<string, Doc>, v: Option<Doc>)
    returns (found: map<string, Doc>)
    requires FoundEach(cfg, data, done, source, before) && k !in done
    requires v == Fetched(cfg, data, k, LoadedAt(source, k))
    ensures FoundEach(cfg, data, done + [k], source, found)
  {
    assert At(before, k) == None;
    found := before;
    if v.Some? {
      found := found[k := v.value];
    }
  }

  method GetInBatch(cfg: Config, data: Data, keys: seq<string>, source: Answers)
    returns (cache: Cache, found: map<string, Doc>)
    ensures fresh(cache)
    ensures cache.puts == BatchPuts(cfg, data, keys, source) && cache.data == Apply(cfg, data, cache.puts)
    ensures cache.outcomes == BatchOutcomes(cfg, data, keys, source) && |cache.loads| <= 1
    ensures forall k :: At(found, k) == BatchAnswer(cfg, data, keys, source, k)
  {
    cache := new Cache(cfg, data);
    var answer := cache.GetManyByKey(keys, missing => Ok(source));
    found := answer.value;
  }

  function BatchPuts(cfg: Config, data: Data, keys: seq<string>, source: Answers): seq<Put> {
    LoadPuts(cfg, Misses(cfg.codec, RawOf(cfg, data, Distinct(keys)), Distinct(keys)), source)
  }

  function BatchOutcomes(cfg: Config, data: Data, keys: seq<string>, source: Answers): Tally {
    var raw := RawOf(cfg, data, Distinct(keys));
    Plus(HitOutcomes(cfg.codec, raw, Distinct(keys)), LoadOutcomes(cfg, Misses(cfg.codec, raw, Distinct(keys)), source))
  }

  lemma BatchFoundEach(cfg: Config, data: Data, keys: seq<string>, source: Answers, found: map<string, Doc>)
    requires ReadsAgree(cfg, data, keys) && forall k :: At(found, k) == BatchAnswer(cfg, data, keys, source, k)
    ensures FoundEach(cfg, data, Distinct(keys), source, found)
  {
    var uniq := Distinct(keys);
    RawOfAgrees(cfg, data, keys);
    forall k ensures At(found, k) == if k in uniq then Fetched(cfg, data, k, LoadedAt(source, k)) else None {
      MissesAre(cfg.codec, RawOf(cfg, data, uniq), uniq, k);
    }
  }

  /** The batch and the single reads leave equal stores after equal writes and find the same values;
      their counters agree exactly when no not-found marker failed to be stored. */
  method BatchBesideSingles(cfg: Config, data: Data, keys: seq<string>, source: Answers)
    returns (batch: Cache, single: Cache, fromBatch: map<string, Doc>, fromSingles: map<string, Doc>)
    requires ReadsAgree(cfg, data, keys)
    ensures batch.data == single.data && batch.puts == single.puts && fromBatch == fromSingles
    ensures |batch.loads| <= 1
    ensures batch.outcomes == single.outcomes <==> MarkersStored(cfg, data, keys, source)
  {
    batch, fromBatch := GetInBatch(cfg, data, keys, source);
    single, fromSingles := GetSingly(cfg, data, keys, source);
    BatchWritesOneByOne(cfg, data, keys, source);
    BatchFoundEach(cfg, data, keys, source, fromBatch);
    SameFindings(cfg, data, Distinct(keys), source, fromBatch, fromSingles);
    CountersAgreeIff(cfg, data, keys, source);
  }

  method GetSingly(cfg: Config, data: Data, keys: seq<string>, source: Answers)
    returns (cache: Cache, found: map<string, Doc>)
    ensures fresh(cache)
    ensures cache.puts == OneByOnePuts(cfg, data, Distinct(keys), source) && cache.data == Apply(cfg, data, cache.puts)
    ensures cache.outcomes == OneByOneOutcomes(cfg, data, Distinct(keys), source)
    ensures FoundEach(cfg, data, Distinct(keys), source, found)
  {
    cache := new Cache(cfg, data);
    var uniq := Cache.DedupKeys(keys);
    DistinctKeys(keys);
    found := GetEach(cache, uniq, source);
  }

  /** Every not-found marker for the missing keys could be stored. */
  ghost predicate MarkersStored(cfg: Config, data: Data, keys: seq<string>, source: Answers) {
    forall k :: k in keys && Look(cfg, data, k).Miss? ==> !FailedMarker(cfg, k, LoadedAt(source, k))
  }

  lemma CountersAgreeIff(cfg: Config, data: Data, keys: seq<string>, source: Answers)
    requires ReadsAgree(cfg, data, keys)
    ensures BatchOutcomes(cfg, data, keys, source) == OneByOneOutcomes(cfg, data, Distinct(keys), source) <==>
            MarkersStored(cfg, data, keys, source)
  {
    BatchCountsOneByOneIff(cfg, data, keys, source);
    LoaderGetsTheMisses(cfg, data, keys);
  }

  lemma SameFindings(cfg: Config, data: Data, keys: seq<string>, source: Answers, b: map<string, Doc>,
                     s: map<string, Doc>)
    requires FoundEach(cfg, data, keys, source, b) && FoundEach(cfg, data, keys, source, s)
    ensures b == s
  {
    forall k ensures (k in b <==> k in s) && (k in b ==> b[k] == s[k]) {
      assert At(b, k) == At(s, k);
    }
  }
}
