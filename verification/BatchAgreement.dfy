/** A batch read does what reading its distinct keys one at a time does. */
module BatchAgreement {
  import opened Basics
  import opened Expiries
  import opened AliasIndex
  import opened Keyspace
  import opened PlainStore
  import opened ReadThrough

  type Data = map<string, Entry>

  type Answers = map<string, Option<Doc>>

  /** The batch read and the single reads find each of the keys alike. */
  ghost predicate ReadsAgree(cfg: Config, data: Data, keys: seq<string>) {
    forall k :: k in keys ==> LookInBatch(cfg, data, k) == Look(cfg, data, k)
  }

  /** Only a plain cache over a batch store reads the two ways differently, so elsewhere reads may
      fail. */
  lemma ReadsAgreeWithoutBatchErrors(cfg: Config, data: Data, keys: seq<string>)
    requires cfg.mode.PlainCache? && cfg.batchStore ==> cfg.failedReads == {} && !cfg.batchFails
    ensures ReadsAgree(cfg, data, keys)
  {
  }

  predicate NoRepeats(keys: seq<string>) {
    forall i, j :: 0 <= i < j < |keys| ==> keys[i] != keys[j]
  }

  // ---- GetByKey over the keys in order, with the loader answering as the batch loader did ----

  function OneByOnePuts(cfg: Config, data: Data, keys: seq<string>, loaded: Answers): seq<Put> {
    if keys == [] then []
    else var n := |keys| - 1;
         var before := OneByOnePuts(cfg, data, keys[..n], loaded);
         before + FetchPuts(cfg, Apply(cfg, data, before), keys[n], LoadedAt(loaded, keys[n]))
  }

  /** The store after these calls. */
  function OneByOne(cfg: Config, data: Data, keys: seq<string>, loaded: Answers): Data {
    Apply(cfg, data, OneByOnePuts(cfg, data, keys, loaded))
  }

  function OneByOneOutcomes(cfg: Config, data: Data, keys: seq<string>, loaded: Answers): Tally {
    if keys == [] then NONE
    else var n := |keys| - 1;
         Plus(OneByOneOutcomes(cfg, data, keys[..n], loaded),
              FetchOutcome(cfg, OneByOne(cfg, data, keys[..n], loaded), keys[n], LoadedAt(loaded, keys[n])))
  }

  /** What the i-th of these calls returns. */
  function OneByOneAnswer(cfg: Config, data: Data, keys: seq<string>, loaded: Answers, i: nat): Option<Doc>
    requires i < |keys|
  {
    Fetched(cfg, OneByOne(cfg, data, keys[..i], loaded), keys[i], LoadedAt(loaded, keys[i]))
  }

  lemma OneByOneNext(cfg: Config, data: Data, keys: seq<string>, k: string, loaded: Answers)
    ensures OneByOnePuts(cfg, data, keys + [k], loaded) ==
            OneByOnePuts(cfg, data, keys, loaded) +
            FetchPuts(cfg, OneByOne(cfg, data, keys, loaded), k, LoadedAt(loaded, k))
    ensures OneByOneOutcomes(cfg, data, keys + [k], loaded) ==
            Plus(OneByOneOutcomes(cfg, data, keys, loaded),
                 FetchOutcome(cfg, OneByOne(cfg, data, keys, loaded), k, LoadedAt(loaded, k)))
  {
    assert (keys + [k])[..|keys|] == keys;
  }

  /** Writes elsewhere leave what a key's read finds. */
  lemma {:induction false} ApplyElsewhere(cfg: Config, data: Data, puts: seq<Put>, k: string)
    requires forall i :: 0 <= i < |puts| ==> puts[i].key != k
    ensures Look(cfg, Apply(cfg, data, puts), k) == Look(cfg, data, k)
  {
    if puts != [] {
      var n := |puts| - 1;
      ApplyElsewhere(cfg, data, puts[..n], k);
      if StorageKey(cfg, puts[n].key) == StorageKey(cfg, k) {
        StorageKeyInjective(cfg, puts[n].key, k);
      }
    }
  }

  lemma {:induction false} PutsAreForTheKeys(cfg: Config, data: Data, keys: seq<string>, loaded: Answers, i: nat)
    requires i < |OneByOnePuts(cfg, data, keys, loaded)|
    ensures OneByOnePuts(cfg, data, keys, loaded)[i].key in keys
  {
    var n := |keys| - 1;
    SplitLast(keys);
    if i < |OneByOnePuts(cfg, data, keys[..n], loaded)| {
      PutsAreForTheKeys(cfg, data, keys[..n], loaded, i);
    }
  }

  lemma OneByOneFrame(cfg: Config, data: Data, keys: seq<string>, loaded: Answers, k: string)
    requires k !in keys
    ensures Look(cfg, OneByOne(cfg, data, keys, loaded), k) == Look(cfg, data, k)
  {
    var puts := OneByOnePuts(cfg, data, keys, loaded);
    forall i | 0 <= i < |puts| ensures puts[i].key != k {
      PutsAreForTheKeys(cfg, data, keys, loaded, i);
    }
    ApplyElsewhere(cfg, data, puts, k);
  }

  // ---- agreement over the distinct keys ----

  /** raw reads as the store does for the keys. */
  ghost predicate RawAgrees(cfg: Config, data: Data, raw: map<string, string>, keys: seq<string>) {
    forall k :: k in keys ==> LookIn(cfg.codec, raw, k) == Look(cfg, data, k)
  }

  lemma {:induction false} MissesAre(codec: Codec, raw: map<string, string>, keys: seq<string>, k: string)
    ensures k in Misses(codec, raw, keys) <==> k in keys && LookIn(codec, raw, k).Miss?
  {
    if keys != [] {
      SplitLast(keys);
      MissesAre(codec, raw, keys[..|keys| - 1], k);
    }
  }

  /** Both ways write the same entries in the same order. */
  lemma {:induction false} WritesAgree(cfg: Config, data: Data, raw: map<string, string>, keys: seq<string>,
                                       loaded: Answers)
    requires NoRepeats(keys) && RawAgrees(cfg, data, raw, keys)
    ensures LoadPuts(cfg, Misses(cfg.codec, raw, keys), loaded) == OneByOnePuts(cfg, data, keys, loaded)
  {
    if keys != [] {
      var before, k := keys[..|keys| - 1], keys[|keys| - 1];
      SplitLast(keys);
      WritesAgree(cfg, data, raw, before, loaded);
      WritesAgreeNext(cfg, data, raw, before, k, loaded);
    }
  }

  lemma {:induction false} WritesAgreeNext(cfg: Config, data: Data, raw: map<string, string>, keys: seq<string>,
                                           k: string, loaded: Answers)
    requires k !in keys && LookIn(cfg.codec, raw, k) == Look(cfg, data, k)
    requires LoadPuts(cfg, Misses(cfg.codec, raw, keys), loaded) == OneByOnePuts(cfg, data, keys, loaded)
    ensures LoadPuts(cfg, Misses(cfg.codec, raw, keys + [k]), loaded) == OneByOnePuts(cfg, data, keys + [k], loaded)
  {
    OneByOneFrame(cfg, data, keys, loaded, k);
    OneByOneNext(cfg, data, keys, k, loaded);
    MissesNext(cfg.codec, raw, keys, k);
    LoadPutsNext(cfg, Misses(cfg.codec, raw, keys), k, loaded);
  }

  /** A marker that could not be stored: the batch counts it as not cached, GetByKey does not. */
  predicate FailedMarker(cfg: Config, k: string, l: Loaded) {
    cfg.negativeCaching && k in cfg.failedWrites && l.NotFound?
  }

  function FailedMarkers(cfg: Config, missing: seq<string>, loaded: Answers): nat {
    if missing == [] then 0
    else var n := |missing| - 1;
         FailedMarkers(cfg, missing[..n], loaded) +
         if FailedMarker(cfg, missing[n], LoadedAt(loaded, missing[n])) then 1 else 0
  }

  lemma {:induction false} NoFailedMarkers(cfg: Config, missing: seq<string>, loaded: Answers)
    ensures FailedMarkers(cfg, missing, loaded) == 0 <==>
            forall k :: k in missing ==> !FailedMarker(cfg, k, LoadedAt(loaded, k))
  {
    if missing != [] {
      SplitLast(missing);
      NoFailedMarkers(cfg, missing[..|missing| - 1], loaded);
    }
  }

  /** The loads as GetByKey would count them. */
  function SingleLoadOutcomes(cfg: Config, missing: seq<string>, loaded: Answers): Tally {
    if missing == [] then NONE
    else var n := |missing| - 1;
         Plus(SingleLoadOutcomes(cfg, missing[..n], loaded), Metered(cfg, missing[n], LoadedAt(loaded, missing[n])))
  }

  lemma SingleLoadOutcomesNext(cfg: Config, missing: seq<string>, k: string, loaded: Answers)
    ensures SingleLoadOutcomes(cfg, missing + [k], loaded) ==
            Plus(SingleLoadOutcomes(cfg, missing, loaded), Metered(cfg, k, LoadedAt(loaded, k)))
  {
    assert (missing + [k])[..|missing|] == missing;
  }

  /** The two ways to count loads differ by exactly the failed markers. */
  lemma {:induction false} LoadCountersAgree(cfg: Config, missing: seq<string>, loaded: Answers)
    ensures var batch, single := LoadOutcomes(cfg, missing, loaded), SingleLoadOutcomes(cfg, missing, loaded);
            && batch.notCached == single.notCached + FailedMarkers(cfg, missing, loaded)
            && (FailedMarkers(cfg, missing, loaded) == 0 ==> batch == single)
  {
    if missing != [] {
      LoadCountersAgree(cfg, missing[..|missing| - 1], loaded);
    }
  }

  function SingleOutcomes(cfg: Config, raw: map<string, string>, keys: seq<string>, loaded: Answers): Tally {
    Plus(HitOutcomes(cfg.codec, raw, keys), SingleLoadOutcomes(cfg, Misses(cfg.codec, raw, keys), loaded))
  }

  lemma SingleOutcomesNext(cfg: Config, raw: map<string, string>, keys: seq<string>, k: string, loaded: Answers)
    ensures SingleOutcomes(cfg, raw, keys + [k], loaded) ==
            Plus(SingleOutcomes(cfg, raw, keys, loaded),
                 if LookIn(cfg.codec, raw, k).Miss? then Metered(cfg, k, LoadedAt(loaded, k))
                 else HitOutcome(LookIn(cfg.codec, raw, k)))
  {
    HitOutcomesNext(cfg.codec, raw, keys, k);
    MissesNext(cfg.codec, raw, keys, k);
    SingleLoadOutcomesNext(cfg, Misses(cfg.codec, raw, keys), k, loaded);
  }

  lemma CountersAgreeNext(cfg: Config, data: Data, raw: map<string, string>, keys: seq<string>, k: string,
                          loaded: Answers)
    requires k !in keys && LookIn(cfg.codec, raw, k) == Look(cfg, data, k)
    ensures OneByOneOutcomes(cfg, data, keys, loaded) == SingleOutcomes(cfg, raw, keys, loaded) ==>
            OneByOneOutcomes(cfg, data, keys + [k], loaded) == SingleOutcomes(cfg, raw, keys + [k], loaded)
  {
    OneByOneFrame(cfg, data, keys, loaded, k);
    SingleOutcomesNext(cfg, raw, keys, k, loaded);
    OneByOneNext(cfg, data, keys, k, loaded);
  }

  lemma {:induction false} CountersAgree(cfg: Config, data: Data, raw: map<string, string>, keys: seq<string>,
                                         loaded: Answers)
    requires NoRepeats(keys) && RawAgrees(cfg, data, raw, keys)
    ensures OneByOneOutcomes(cfg, data, keys, loaded) == SingleOutcomes(cfg, raw, keys, loaded)
  {
    if keys == [] {
      assert SingleLoadOutcomes(cfg, Misses(cfg.codec, raw, keys), loaded) == NONE;
    } else {
      SplitLast(keys);
      CountersAgree(cfg, data, raw, keys[..|keys| - 1], loaded);
      CountersAgreeNext(cfg, data, raw, keys[..|keys| - 1], keys[|keys| - 1], loaded);
    }
  }

  lemma {:induction false} DistinctKeys(keys: seq<string>)
    ensures NoRepeats(Distinct(keys))
    ensures forall k :: k in Distinct(keys) <==> k in keys
  {
    if keys != [] {
      SplitLast(keys);
      DistinctKeys(keys[..|keys| - 1]);
    }
  }

  lemma RawOfAgrees(cfg: Config, data: Data, keys: seq<string>)
    requires ReadsAgree(cfg, data, keys)
    ensures RawAgrees(cfg, data, RawOf(cfg, data, Distinct(keys)), Distinct(keys))
  {
    DistinctKeys(keys);
    forall k | k in Distinct(keys)
      ensures LookIn(cfg.codec, RawOf(cfg, data, Distinct(keys)), k) == Look(cfg, data, k)
    {
      RawAt(cfg, data, Distinct(keys), k);
    }
  }

  /** Where the reads agree a batch issues the same writes in the same order as GetByKey over the
      distinct keys... */
  lemma BatchWritesOneByOne(cfg: Config, data: Data, keys: seq<string>, loaded: Answers)
    requires ReadsAgree(cfg, data, keys)
    ensures var uniq := Distinct(keys);
            LoadPuts(cfg, Misses(cfg.codec, RawOf(cfg, data, uniq), uniq), loaded) ==
            OneByOnePuts(cfg, data, uniq, loaded)
  {
    DistinctKeys(keys);
    RawOfAgrees(cfg, data, keys);
    WritesAgree(cfg, data, RawOf(cfg, data, Distinct(keys)), Distinct(keys), loaded);
  }

  /** ...returns the same value for every key... */
  lemma BatchAnswersOneByOne(cfg: Config, data: Data, keys: seq<string>, loaded: Answers, i: nat)
    requires ReadsAgree(cfg, data, keys) && i < |Distinct(keys)|
    ensures var uniq := Distinct(keys);
            var raw := RawOf(cfg, data, uniq);
            AnswerAt(HitAt(cfg.codec, raw, uniq, uniq[i]), Misses(cfg.codec, raw, uniq), loaded, uniq[i]) ==
            OneByOneAnswer(cfg, data, uniq, loaded, i)
  {
    var uniq := Distinct(keys);
    DistinctKeys(keys);
    RawOfAgrees(cfg, data, keys);
    MissesAre(cfg.codec, RawOf(cfg, data, uniq), uniq, uniq[i]);
    OneByOneFrame(cfg, data, uniq[..i], loaded, uniq[i]);
  }

  /** ...and counts the same outcomes exactly when no not-found marker failed to be stored. */
  lemma BatchCountsOneByOneIff(cfg: Config, data: Data, keys: seq<string>, loaded: Answers)
    requires ReadsAgree(cfg, data, keys)
    ensures var uniq := Distinct(keys);
            var raw := RawOf(cfg, data, uniq);
            var missing := Misses(cfg.codec, raw, uniq);
            Plus(HitOutcomes(cfg.codec, raw, uniq), LoadOutcomes(cfg, missing, loaded)) ==
              OneByOneOutcomes(cfg, data, uniq, loaded) <==>
            forall k :: k in missing ==> !FailedMarker(cfg, k, LoadedAt(loaded, k))
  {
    var uniq := Distinct(keys);
    var raw := RawOf(cfg, data, uniq);
    var missing := Misses(cfg.codec, raw, uniq);
    DistinctKeys(keys);
    RawOfAgrees(cfg, data, keys);
    CountersAgree(cfg, data, raw, uniq, loaded);
    LoadCountersAgree(cfg, missing, loaded);
    NoFailedMarkers(cfg, missing, loaded);
  }

  /** What the batch returns for a requested key. */
  function BatchAnswer(cfg: Config, data: Data, keys: seq<string>, loaded: Answers, k: string): Option<Doc> {
    var raw := RawOf(cfg, data, Distinct(keys));
    AnswerAt(HitAt(cfg.codec, raw, Distinct(keys), k), Misses(cfg.codec, raw, Distinct(keys)), loaded, k)
  }

  /** The batch's answer follows from its own read of the key. */
  lemma BatchAnswerIs(cfg: Config, data: Data, keys: seq<string>, loaded: Answers, k: string)
    requires k in keys
    ensures BatchAnswer(cfg, data, keys, loaded, k) ==
            match LookInBatch(cfg, data, k)
            case Served(v) => Some(v)
            case KnownMissing => None
            case Miss => if LoadedAt(loaded, k).Found? then Some(LoadedAt(loaded, k).v) else None
  {
    var uniq := Distinct(keys);
    DistinctKeys(keys);
    RawAt(cfg, data, uniq, k);
    MissesAre(cfg.codec, RawOf(cfg, data, uniq), uniq, k);
  }

  /** Every distinct key gets the same answer both ways. */
  ghost predicate AnswersAgree(cfg: Config, data: Data, keys: seq<string>, loaded: Answers) {
    forall i :: 0 <= i < |Distinct(keys)| ==>
      BatchAnswer(cfg, data, keys, loaded, Distinct(keys)[i]) == OneByOneAnswer(cfg, data, Distinct(keys), loaded, i)
  }

  lemma OneByOneAnswerIs(cfg: Config, data: Data, keys: seq<string>, loaded: Answers, i: nat)
    requires i < |Distinct(keys)|
    ensures OneByOneAnswer(cfg, data, Distinct(keys), loaded, i) ==
            Fetched(cfg, data, Distinct(keys)[i], LoadedAt(loaded, Distinct(keys)[i]))
  {
    DistinctKeys(keys);
    OneByOneFrame(cfg, data, Distinct(keys)[..i], loaded, Distinct(keys)[i]);
  }

  /** Where the two reads of a key differ, the loader can answer so that the results differ. */
  lemma DifferentReadShows(cfg: Config, data: Data, k: string) returns (loaded: Answers)
    requires LookInBatch(cfg, data, k) != Look(cfg, data, k)
    ensures (match LookInBatch(cfg, data, k)
             case Served(v) => Some(v)
             case KnownMissing => None
             case Miss => if LoadedAt(loaded, k).Found? then Some(LoadedAt(loaded, k).v) else None)
            != Fetched(cfg, data, k, LoadedAt(loaded, k))
  {
    if LookInBatch(cfg, data, k).Served? || Look(cfg, data, k).Served? {
      loaded := map[];
    } else {
      loaded := map[k := Some(Doc("", ""))];
    }
  }

  /** Whatever the loader finds, both ways answer alike exactly when both reads find each key alike. */
  lemma AnswersAgreeIff(cfg: Config, data: Data, keys: seq<string>)
    ensures (forall loaded :: AnswersAgree(cfg, data, keys, loaded)) <==> ReadsAgree(cfg, data, keys)
  {
    DistinctKeys(keys);
    if ReadsAgree(cfg, data, keys) {
      forall loaded ensures AnswersAgree(cfg, data, keys, loaded) {
        forall i | 0 <= i < |Distinct(keys)|
          ensures BatchAnswer(cfg, data, keys, loaded, Distinct(keys)[i]) ==
                  OneByOneAnswer(cfg, data, Distinct(keys), loaded, i)
        {
          BatchAnswersOneByOne(cfg, data, keys, loaded, i);
        }
      }
    } else {
      var k :| k in keys && LookInBatch(cfg, data, k) != Look(cfg, data, k);
      var i :| 0 <= i < |Distinct(keys)| && Distinct(keys)[i] == k;
      var loaded := DifferentReadShows(cfg, data, k);
      BatchAnswerIs(cfg, data, keys, loaded, k);
      OneByOneAnswerIs(cfg, data, keys, loaded, i);
      assert !AnswersAgree(cfg, data, keys, loaded);
    }
  }

  /** A plain cache over a batch store whose one-call read fails, and single reads do not. */
  const FAILING_BATCH := Config("users", PlainCache,
                                Codec(imap[Doc("7", "ann") := "ann"], imap["ann" := Doc("7", "ann")]),
                                0, None, None, true, true, {}, true, {}, {}, {})

  /** It holds key 7: one at a time it serves the value; the batch loads it, and not finding it in the
      source of truth answers nothing and overwrites the stored value with the marker. */
  lemma FailedBatchReadDiffers()
    ensures var data := map[NonAliasKey("users", "7") := Entry("ann", None)];
            && Fetched(FAILING_BATCH, data, "7", NotFound) == Some(Doc("7", "ann"))
            && BatchAnswer(FAILING_BATCH, data, ["7"], map[], "7") == None
            && PutsFor(FAILING_BATCH, "7", LoadedAt(map[], "7")) == [Put("7", MARKER, None)]
            && Misses(FAILING_BATCH.codec, RawOf(FAILING_BATCH, data, ["7"]), ["7"]) == ["7"]
  {
    var data := map[NonAliasKey("users", "7") := Entry("ann", None)];
    BatchAnswerIs(FAILING_BATCH, data, ["7"], map[], "7");
    assert ["7"][..0] == [];
    assert RawOf(FAILING_BATCH, data, []) == map[];
  }

  /** A nil value without an error, which breaks the loader's contract: alone it is never cached, in a
      batch it counts as not found. The two store and count alike exactly without negative caching. */
  lemma NilLoadsAgreeIff(cfg: Config, k: string)
    ensures var inBatch := LoadedAt(map[k := None], k);
            PutsFor(cfg, k, Nothing) == PutsFor(cfg, k, inBatch)
            && Metered(cfg, k, Nothing) == One(MeteredInBatch(cfg, k, inBatch))
            <==> !cfg.negativeCaching
  {
    if cfg.negativeCaching && k in cfg.failedWrites {
      assert One(LoadedNotCached).loaded == 0;
    }
  }

  // ---- what the loader is asked for ----

  function FirstIndex(keys: seq<string>, k: string): (i: nat)
    requires k in keys
    ensures i < |keys| && keys[i] == k && k !in keys[..i]
  {
    var n := |keys| - 1;
    SplitLast(keys);
    if k in keys[..n] then
      var i := FirstIndex(keys[..n], k);
      assert keys[..n][..i] == keys[..i];
      i
    else n
  }

  /** Each key stands where it first occurs among all the keys requested. */
  ghost predicate InFirstOrder(some: seq<string>, keys: seq<string>) {
    && (forall k :: k in some ==> k in keys)
    && forall i, j :: 0 <= i < j < |some| ==> FirstIndex(keys, some[i]) < FirstIndex(keys, some[j])
  }

  /** A later request keeps the order, and may add its key at the end. */
  lemma FirstOrderGrows(some: seq<string>, keys: seq<string>, k: string)
    requires InFirstOrder(some, keys)
    ensures InFirstOrder(some, keys + [k])
    ensures k !in keys ==> InFirstOrder(some + [k], keys + [k])
  {
    assert (keys + [k])[..|keys|] == keys;
    forall l | l in some ensures l in keys + [k] && FirstIndex(keys + [k], l) == FirstIndex(keys, l) {
    }
  }

  lemma {:induction false} MissesInFirstOrder(codec: Codec, raw: map<string, string>, keys: seq<string>)
    ensures InFirstOrder(Misses(codec, raw, Distinct(keys)), keys)
  {
    if keys != [] {
      var before, k := keys[..|keys| - 1], keys[|keys| - 1];
      SplitLast(keys);
      MissesInFirstOrder(codec, raw, before);
      MissesNext(codec, raw, Distinct(before), k);
      FirstOrderGrows(Misses(codec, raw, Distinct(before)), before, k);
    }
  }

  /** The loader is asked for exactly the distinct keys the store does not serve, in the order in
      which they were first requested. */
  lemma LoaderGetsTheMisses(cfg: Config, data: Data, keys: seq<string>)
    requires ReadsAgree(cfg, data, keys)
    ensures var missing := Misses(cfg.codec, RawOf(cfg, data, Distinct(keys)), Distinct(keys));
            && InFirstOrder(missing, keys)
            && forall k :: k in missing <==> k in keys && Look(cfg, data, k).Miss?
  {
    var uniq := Distinct(keys);
    var raw := RawOf(cfg, data, uniq);
    DistinctKeys(keys);
    RawOfAgrees(cfg, data, keys);
    MissesInFirstOrder(cfg.codec, raw, keys);
    forall k ensures k in Misses(cfg.codec, raw, uniq) <==> k in keys && Look(cfg, data, k).Miss? {
      MissesAre(cfg.codec, raw, uniq, k);
    }
  }

  // ---- metering ----

  lemma {:induction false} HitsAndMisses(codec: Codec, raw: map<string, string>, keys: seq<string>)
    ensures Total(HitOutcomes(codec, raw, keys)) + |Misses(codec, raw, keys)| == |keys|
  {
    if keys != [] {
      HitsAndMisses(codec, raw, keys[..|keys| - 1]);
    }
  }

  lemma {:induction false} LoadsMetered(cfg: Config, missing: seq<string>, loaded: Answers)
    ensures Total(LoadOutcomes(cfg, missing, loaded)) == |missing|
  {
    if missing != [] {
      LoadsMetered(cfg, missing[..|missing| - 1], loaded);
    }
  }

  /** Every distinct key is counted once, whichever reads and writes fail. */
  lemma EveryKeyMeteredOnce(cfg: Config, data: Data, keys: seq<string>, loaded: Answers)
    ensures var uniq := Distinct(keys);
            var raw := RawOf(cfg, data, uniq);
            var missing := Misses(cfg.codec, raw, uniq);
            Total(Plus(HitOutcomes(cfg.codec, raw, uniq), LoadOutcomes(cfg, missing, loaded))) == |uniq|
  {
    var raw := RawOf(cfg, data, Distinct(keys));
    HitsAndMisses(cfg.codec, raw, Distinct(keys));
    LoadsMetered(cfg, Misses(cfg.codec, raw, Distinct(keys)), loaded);
  }

  // ---- later reads ----

  /** A later call on the same cache; which store accesses fail is its own matter. */
  predicate IsLater(cfg: Config, later: Config) {
    later.ns == cfg.ns && later.mode == cfg.mode && later.codec == cfg.codec && cfg.now <= later.now
  }

  /** What a read of a loaded key finds later: the value until its TTL runs out, or the not-found marker
      until its own does, if they were stored. */
  function LaterLook(cfg: Config, k: string, l: Loaded, now: int): Lookup {
    match l
    case Found(v) =>
      if v in cfg.codec.marshal && k !in cfg.failedWrites && LiveAt(cfg.valueExp, now) then Served(v) else Miss
    case NotFound =>
      if cfg.negativeCaching && k !in cfg.failedWrites && LiveAt(cfg.markerExp, now) then KnownMissing else Miss
    case _ => Miss
  }

  /** A key that missed and was not written misses at every later time. */
  lemma {:induction false} MissesLater(cfg: Config, later: Config, data: Data, k: string)
    requires IsLater(cfg, later) && k !in cfg.failedReads && Look(cfg, data, k).Miss?
    ensures Look(later, data, k).Miss?
  {
    assert StorageKey(later, k) == StorageKey(cfg, k);
  }

  lemma {:induction false} PutThenLook(cfg: Config, later: Config, data: Data, k: string, l: Loaded)
    requires GoodCodec(cfg.codec) && IsLater(cfg, later) && k !in later.failedReads
    requires k !in cfg.failedReads && Look(cfg, data, k).Miss?
    ensures Look(later, Apply(cfg, data, PutsFor(cfg, k, l)), k) == LaterLook(cfg, k, l, later.now)
  {
    var puts := PutsFor(cfg, k, l);
    MissesLater(cfg, later, data, k);
    assert StorageKey(later, k) == StorageKey(cfg, k);
    if puts == [] {
      assert Apply(cfg, data, puts) == data;
    } else {
      assert puts[..0] == [] && Apply(cfg, data, puts[..0]) == data;
    }
  }

  lemma {:induction false} BatchElsewhere(cfg: Config, data: Data, missing: seq<string>, loaded: Answers, k: string)
    requires k !in missing
    ensures Look(cfg, Apply(cfg, data, LoadPuts(cfg, missing, loaded)), k) == Look(cfg, data, k)
  {
    if missing != [] {
      var before, last := missing[..|missing| - 1], missing[|missing| - 1];
      SplitLast(missing);
      BatchElsewhere(cfg, data, before, loaded, k);
      ApplyLoadNext(cfg, data, before, last, loaded);
      ApplyElsewhere(cfg, Apply(cfg, data, LoadPuts(cfg, before, loaded)),
                     PutsFor(cfg, last, LoadedAt(loaded, last)), k);
    }
  }

  lemma {:induction false} LaterElsewhere(cfg: Config, later: Config, data: Data, puts: seq<Put>, k: string)
    requires IsLater(cfg, later) && forall i :: 0 <= i < |puts| ==> puts[i].key != k
    ensures Look(later, Apply(cfg, data, puts), k) == Look(later, data, k)
  {
    SameApply(cfg, later, data, puts);
    ApplyElsewhere(later, data, puts, k);
  }

  lemma {:induction false} SameApply(cfg: Config, later: Config, data: Data, puts: seq<Put>)
    requires IsLater(cfg, later)
    ensures Apply(later, data, puts) == Apply(cfg, data, puts)
  {
    if puts != [] {
      SameApply(cfg, later, data, puts[..|puts| - 1]);
    }
  }

  lemma {:induction false} LastOfBatchLook(cfg: Config, later: Config, data: Data, before: seq<string>,
                                           loaded: Answers, k: string)
    requires GoodCodec(cfg.codec) && IsLater(cfg, later) && k !in later.failedReads
    requires k !in cfg.failedReads && Look(cfg, data, k).Miss? && k !in before
    ensures Look(later, Apply(cfg, data, LoadPuts(cfg, before + [k], loaded)), k) ==
            LaterLook(cfg, k, LoadedAt(loaded, k), later.now)
  {
    ApplyLoadNext(cfg, data, before, k, loaded);
    BatchElsewhere(cfg, data, before, loaded, k);
    PutThenLook(cfg, later, Apply(cfg, data, LoadPuts(cfg, before, loaded)), k, LoadedAt(loaded, k));
  }

  lemma {:induction false} OtherOfBatchLook(cfg: Config, later: Config, data: Data, before: seq<string>,
                                            loaded: Answers, last: string, k: string)
    requires IsLater(cfg, later) && k != last
    ensures Look(later, Apply(cfg, data, LoadPuts(cfg, before + [last], loaded)), k) ==
            Look(later, Apply(cfg, data, LoadPuts(cfg, before, loaded)), k)
  {
    ApplyLoadNext(cfg, data, before, last, loaded);
    LaterElsewhere(cfg, later, Apply(cfg, data, LoadPuts(cfg, before, loaded)),
                   PutsFor(cfg, last, LoadedAt(loaded, last)), k);
  }

  /** After a batch, at every later time a key that missed finds exactly what it was loaded with: a value
      while the TTL drawn for values lasts, a marker while the one for markers does. */
  lemma {:induction false} BatchThenLook(cfg: Config, later: Config, data: Data, missing: seq<string>, loaded: Answers,
                                         k: string)
    requires GoodCodec(cfg.codec) && IsLater(cfg, later) && k !in later.failedReads
    requires k !in cfg.failedReads && Look(cfg, data, k).Miss? && NoRepeats(missing)
    ensures Look(later, Apply(cfg, data, LoadPuts(cfg, missing, loaded)), k) ==
            if k in missing then LaterLook(cfg, k, LoadedAt(loaded, k), later.now) else Miss
  {
    if missing == [] {
      MissesLater(cfg, later, data, k);
    } else {
      var before, last := missing[..|missing| - 1], missing[|missing| - 1];
      SplitLast(missing);
      if k == last {
        LastOfBatchLook(cfg, later, data, before, loaded, k);
      } else {
        BatchThenLook(cfg, later, data, before, loaded, k);
        OtherOfBatchLook(cfg, later, data, before, loaded, last, k);
      }
    }
  }

  // ---- what the counters mean ----

  /** A load counts as cached exactly when a read at the same instant, failing neither, would serve it. A
      not-found counts as cached alone; in a batch only if its marker, when wanted, is found. */
  lemma {:induction false} CountedAsCachedIff(cfg: Config, data: Data, k: string, v: Doc)
    requires GoodCodec(cfg.codec) && k !in cfg.failedReads && Look(cfg, data, k).Miss?
    requires LiveAt(cfg.valueExp, cfg.now) && LiveAt(cfg.markerExp, cfg.now)
    ensures var served := Look(cfg, Apply(cfg, data, PutsFor(cfg, k, Found(v))), k) == Served(v);
            && Metered(cfg, k, Found(v)) == (if served then Tally(0, 1, 0, 0) else Tally(0, 0, 1, 0))
            && One(MeteredInBatch(cfg, k, Found(v))) == Metered(cfg, k, Found(v))
    ensures var marked := Look(cfg, Apply(cfg, data, PutsFor(cfg, k, NotFound)), k) == KnownMissing;
            && Metered(cfg, k, NotFound) == Metered(cfg, k, Nothing) == Tally(0, 1, 0, 0)
            && One(MeteredInBatch(cfg, k, NotFound)) ==
               if marked || !cfg.negativeCaching then Tally(0, 1, 0, 0) else Tally(0, 0, 1, 0)
  {
    PutThenLook(cfg, cfg, data, k, Found(v));
    PutThenLook(cfg, cfg, data, k, NotFound);
  }

  /** The batch counts one hit for each key it serves from the store and one negative hit for each key whose
      marker it finds; a single read that hits counts the same. */
  lemma {:induction false} HitsCounted(codec: Codec, raw: map<string, string>, keys: seq<string>)
    requires NoRepeats(keys)
    ensures HitOutcomes(codec, raw, keys) == Tally(|ServedKeys(codec, raw, keys)|, 0, 0, |MarkedKeys(codec, raw, keys)|)
  {
    if keys != [] {
      var before, k := keys[..|keys| - 1], keys[|keys| - 1];
      SplitLast(keys);
      HitsCounted(codec, raw, before);
      HitCountedNext(codec, raw, before, k);
    }
  }

  lemma {:induction false} HitCountedNext(codec: Codec, raw: map<string, string>, keys: seq<string>, k: string)
    requires k !in keys
    requires HitOutcomes(codec, raw, keys) ==
             Tally(|ServedKeys(codec, raw, keys)|, 0, 0, |MarkedKeys(codec, raw, keys)|)
    ensures HitOutcomes(codec, raw, keys + [k]) ==
            Tally(|ServedKeys(codec, raw, keys + [k])|, 0, 0, |MarkedKeys(codec, raw, keys + [k])|)
  {
    HitOutcomesNext(codec, raw, keys, k);
    ServedNext(codec, raw, keys, k);
    MarkedNext(codec, raw, keys, k);
  }

  function ServedKeys(codec: Codec, raw: map<string, string>, keys: seq<string>): set<string> {
    set k | k in keys && LookIn(codec, raw, k).Served?
  }

  function MarkedKeys(codec: Codec, raw: map<string, string>, keys: seq<string>): set<string> {
    set k | k in keys && LookIn(codec, raw, k).KnownMissing?
  }

  lemma ServedNext(codec: Codec, raw: map<string, string>, keys: seq<string>, k: string)
    requires k !in keys
    ensures |ServedKeys(codec, raw, keys + [k])| ==
            |ServedKeys(codec, raw, keys)| + if LookIn(codec, raw, k).Served? then 1 else 0
  {
    assert ServedKeys(codec, raw, keys + [k]) ==
           ServedKeys(codec, raw, keys) + if LookIn(codec, raw, k).Served? then {k} else {};
  }

  lemma MarkedNext(codec: Codec, raw: map<string, string>, keys: seq<string>, k: string)
    requires k !in keys
    ensures |MarkedKeys(codec, raw, keys + [k])| ==
            |MarkedKeys(codec, raw, keys)| + if LookIn(codec, raw, k).KnownMissing? then 1 else 0
  {
    assert MarkedKeys(codec, raw, keys + [k]) ==
           MarkedKeys(codec, raw, keys) + if LookIn(codec, raw, k).KnownMissing? then {k} else {};
  }
}
