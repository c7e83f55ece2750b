/** What a cache reads and writes for one logical key, and how it counts. */
module ReadThrough {
  import opened Basics
  import opened Expiries
  import opened Keyspace
  import KeyCodec
  import opened AliasIndex
  import opened PlainStore

  /** Stored in place of a value when the source of truth has none. */
  const MARKER := "\0smartcache\0negative\0"

  /** A cached value; primary is its CacheUniqueKey, empty when it has none. */
  datatype Doc = Doc(primary: string, content: string)

  /** What marshalling and unmarshalling yield where they succeed. */
  datatype Codec = Codec(marshal: imap<Doc, string>, unmarshal: imap<string, Doc>)

  /** The codec round-trips and never emits the marker. */
  ghost predicate GoodCodec(c: Codec) {
    forall v :: v in c.marshal ==>
      c.marshal[v] != MARKER && c.marshal[v] in c.unmarshal && c.unmarshal[c.marshal[v]] == v
  }

  datatype Mode = PlainCache | AliasGroup(sharded: bool)

  /** One cache during one call: its settings, the clock, the expiries its TTLs give now, and
      which store accesses fail: reads and writes by primary key, reads by alias, and a sharded
      group's pointer writes. */
  datatype Config = Config(
    ns: string, mode: Mode, codec: Codec, now: int, valueExp: Option<int>, markerExp: Option<int>,
    negativeCaching: bool, batchStore: bool,
    failedReads: set<string>, batchFails: bool, failedWrites: set<string>,
    failedAliasReads: set<Ref>, failedPointers: set<Ref>)

  /** A value written under a logical key. */
  datatype Put = Put(key: string, val: string, exp: Option<int>)

  /** What a loader returns for one key. Nothing is Go's (nil, nil), which breaks its contract. */
  datatype Loaded = Found(v: Doc) | NotFound | Nothing | Failed

  datatype Lookup = Served(v: Doc) | KnownMissing | Miss

  datatype Outcome = Hit | LoadedAndCached | LoadedNotCached | NegativeHit

  /** How many requests were served each way. */
  datatype Tally = Tally(hit: nat, loaded: nat, notCached: nat, negative: nat)

  const NONE := Tally(0, 0, 0, 0)

  function One(o: Outcome): Tally {
    match o
    case Hit => NONE.(hit := 1)
    case LoadedAndCached => NONE.(loaded := 1)
    case LoadedNotCached => NONE.(notCached := 1)
    case NegativeHit => NONE.(negative := 1)
  }

  function Plus(a: Tally, b: Tally): Tally {
    Tally(a.hit + b.hit, a.loaded + b.loaded, a.notCached + b.notCached, a.negative + b.negative)
  }

  lemma PlusInOrder(a: Tally, b: Tally, c: Tally)
    ensures Plus(Plus(a, b), c) == Plus(a, Plus(b, c))
  {
  }

  function Total(t: Tally): nat {
    t.hit + t.loaded + t.notCached + t.negative
  }

  /** m[k], if there. */
  function At<V>(m: map<string, V>, k: string): Option<V> {
    if k in m then Some(m[k]) else None
  }

  /** Where a logical key's value is stored, in a plain cache and in an alias group. */
  function StorageKey(cfg: Config, key: string): string {
    match cfg.mode
    case PlainCache => NonAliasKey(cfg.ns, key)
    case AliasGroup(sharded) => ValueKey(cfg.ns, key, sharded)
  }

  lemma StorageKeyInjective(cfg: Config, k: string, l: string)
    requires StorageKey(cfg, k) == StorageKey(cfg, l)
    ensures k == l
  {
    match cfg.mode
    case PlainCache =>
      var head := "bc" + "::" + cfg.ns + "::";
      assert NonAliasKey(cfg.ns, k)[|head|..] == k && NonAliasKey(cfg.ns, l)[|head|..] == l;
    case AliasGroup(sharded) =>
      KeyCodec.ValueKeyInverse(cfg.ns, StorageKey(cfg, k), sharded, k);
      KeyCodec.ValueKeyInverse(cfg.ns, StorageKey(cfg, k), sharded, l);
  }

  function Classify(codec: Codec, raw: Option<string>): Lookup {
    match raw
    case None => Miss
    case Some(b) =>
      if b == MARKER then KnownMissing
      else if b in codec.unmarshal then Served(codec.unmarshal[b])
      else Miss
  }

  /** getValue: a failed read is a miss. */
  function Got(cfg: Config, data: map<string, Entry>, key: string): Option<string> {
    if key in cfg.failedReads then None else ReadEntry(data, StorageKey(cfg, key), cfg.now)
  }

  function Look(cfg: Config, data: map<string, Entry>, key: string): Lookup {
    Classify(cfg.codec, Got(cfg, data, key))
  }

  /** A read serves the bytes that are stored, unexpired and readable; a marker says the key is known to be
      missing; unreadable bytes miss like an absent key. */
  lemma LookIs(cfg: Config, data: map<string, Entry>, key: string)
    ensures var k := StorageKey(cfg, key);
            var found := key !in cfg.failedReads && k in data && (data[k].exp.Some? ==> cfg.now <= data[k].exp.value);
            && (forall v :: Look(cfg, data, key) == Served(v) <==>
                  && found && data[k].val != MARKER
                  && data[k].val in cfg.codec.unmarshal && cfg.codec.unmarshal[data[k].val] == v)
            && (Look(cfg, data, key) == KnownMissing <==> found && data[k].val == MARKER)
            && (Look(cfg, data, key) == Miss <==>
                  !found || (data[k].val != MARKER && data[k].val !in cfg.codec.unmarshal))
  {
  }

  /** The store's values after these writes. */
  function Apply(cfg: Config, data: map<string, Entry>, puts: seq<Put>): map<string, Entry> {
    if puts == [] then data
    else var n := |puts| - 1;
         Apply(cfg, data, puts[..n])[StorageKey(cfg, puts[n].key) := Entry(puts[n].val, puts[n].exp)]
  }

  lemma {:induction false} ApplyNext(cfg: Config, data: map<string, Entry>, puts: seq<Put>, put: Put)
    ensures Apply(cfg, data, puts + [put]) ==
            Apply(cfg, data, puts)[StorageKey(cfg, put.key) := Entry(put.val, put.exp)]
  {
    assert (puts + [put])[..|puts|] == puts;
  }

  lemma {:induction false} ApplyMore(cfg: Config, data: map<string, Entry>, puts: seq<Put>, more: seq<Put>)
    ensures Apply(cfg, data, puts + more) == Apply(cfg, Apply(cfg, data, puts), more)
  {
    if more == [] {
      assert puts + more == puts;
    } else {
      SplitLastPut(more);
      ApplyMore(cfg, data, puts, more[..|more| - 1]);
      ApplyMoreNext(cfg, data, puts, more[..|more| - 1], more[|more| - 1]);
    }
  }

  lemma SplitLastPut(puts: seq<Put>)
    requires puts != []
    ensures puts == puts[..|puts| - 1] + [puts[|puts| - 1]]
  {
  }

  lemma {:induction false} ApplyMoreNext(cfg: Config, data: map<string, Entry>, puts: seq<Put>, most: seq<Put>,
                                         last: Put)
    requires Apply(cfg, data, puts + most) == Apply(cfg, Apply(cfg, data, puts), most)
    ensures Apply(cfg, data, puts + (most + [last])) == Apply(cfg, Apply(cfg, data, puts), most + [last])
  {
    ApplyNext(cfg, data, puts + most, last);
    ApplyNext(cfg, Apply(cfg, data, puts), most, last);
    assert puts + (most + [last]) == puts + most + [last];
  }

  // ---- one key at a time ----

  /** What is written after a miss on key was loaded, if the write succeeds. */
  function PutsFor(cfg: Config, key: string, l: Loaded): seq<Put> {
    if key in cfg.failedWrites then []
    else match l
         case Found(v) => if v in cfg.codec.marshal then [Put(key, cfg.codec.marshal[v], cfg.valueExp)] else []
         case NotFound => if cfg.negativeCaching then [Put(key, MARKER, cfg.markerExp)] else []
         case _ => []
  }

  predicate Cached(cfg: Config, key: string, v: Doc) {
    v in cfg.codec.marshal && key !in cfg.failedWrites
  }

  /** How GetByKey counts a load; a failed load is not a served request. */
  function Metered(cfg: Config, key: string, l: Loaded): Tally {
    match l
    case Found(v) => One(if Cached(cfg, key, v) then LoadedAndCached else LoadedNotCached)
    case Failed => NONE
    case _ => One(LoadedAndCached)
  }

  /** GetByKey's writes. */
  function FetchPuts(cfg: Config, data: map<string, Entry>, key: string, l: Loaded): seq<Put> {
    if Look(cfg, data, key).Miss? then PutsFor(cfg, key, l) else []
  }

  function FetchOutcome(cfg: Config, data: map<string, Entry>, key: string, l: Loaded): Tally {
    if Look(cfg, data, key).Miss? then Metered(cfg, key, l) else HitOutcome(Look(cfg, data, key))
  }

  /** The value GetByKey serves, if any. */
  function Fetched(cfg: Config, data: map<string, Entry>, key: string, l: Loaded): Option<Doc> {
    match Look(cfg, data, key)
    case Served(v) => Some(v)
    case KnownMissing => None
    case Miss => if l.Found? then Some(l.v) else None
  }

  // ---- many keys in one batch ----

  /** What the batch read finds for one key: a plain cache over a batch store reads all keys in one
      call, everything else reads key by key. */
  function GotInBatch(cfg: Config, data: map<string, Entry>, key: string): Option<string> {
    if cfg.mode.PlainCache? && cfg.batchStore
    then if cfg.batchFails then None else ReadEntry(data, StorageKey(cfg, key), cfg.now)
    else Got(cfg, data, key)
  }

  function LookInBatch(cfg: Config, data: map<string, Entry>, key: string): Lookup {
    Classify(cfg.codec, GotInBatch(cfg, data, key))
  }

  function RawOf(cfg: Config, data: map<string, Entry>, keys: seq<string>): map<string, string> {
    if keys == [] then map[]
    else var n := |keys| - 1;
         var m := RawOf(cfg, data, keys[..n]);
         match GotInBatch(cfg, data, keys[n])
         case None => m
         case Some(bytes) => m[keys[n] := bytes]
  }

  lemma {:induction false} RawAt(cfg: Config, data: map<string, Entry>, keys: seq<string>, k: string)
    ensures At(RawOf(cfg, data, keys), k) == if k in keys then GotInBatch(cfg, data, k) else None
  {
    if keys != [] {
      var n := |keys| - 1;
      RawAt(cfg, data, keys[..n], k);
      assert keys == keys[..n] + [keys[n]];
    }
  }

  function LookIn(codec: Codec, raw: map<string, string>, key: string): Lookup {
    Classify(codec, At(raw, key))
  }

  function Misses(codec: Codec, raw: map<string, string>, keys: seq<string>): seq<string> {
    if keys == [] then []
    else var n := |keys| - 1;
         if LookIn(codec, raw, keys[n]).Miss? then Misses(codec, raw, keys[..n]) + [keys[n]]
         else Misses(codec, raw, keys[..n])
  }

  /** The hit on k, if k is one of the keys. */
  function HitAt(codec: Codec, raw: map<string, string>, keys: seq<string>, k: string): Option<Doc> {
    if k in keys && LookIn(codec, raw, k).Served? then Some(LookIn(codec, raw, k).v) else None
  }

  function HitOutcomes(codec: Codec, raw: map<string, string>, keys: seq<string>): Tally {
    if keys == [] then NONE
    else var n := |keys| - 1;
         Plus(HitOutcomes(codec, raw, keys[..n]), HitOutcome(LookIn(codec, raw, keys[n])))
  }

  function HitOutcome(look: Lookup): Tally {
    match look
    case Served(_) => One(Hit)
    case KnownMissing => One(NegativeHit)
    case Miss => NONE
  }

  lemma MissesNext(codec: Codec, raw: map<string, string>, keys: seq<string>, k: string)
    ensures LookIn(codec, raw, k).Miss? ==> Misses(codec, raw, keys + [k]) == Misses(codec, raw, keys) + [k]
    ensures !LookIn(codec, raw, k).Miss? ==> Misses(codec, raw, keys + [k]) == Misses(codec, raw, keys)
  {
    assert (keys + [k])[..|keys|] == keys;
  }

  lemma HitOutcomesNext(codec: Codec, raw: map<string, string>, keys: seq<string>, k: string)
    ensures HitOutcomes(codec, raw, keys + [k]) ==
            Plus(HitOutcomes(codec, raw, keys), HitOutcome(LookIn(codec, raw, k)))
  {
    assert (keys + [k])[..|keys|] == keys;
  }

  /** The batch loader's answer for one key: a missing or nil value means not found. */
  function LoadedAt(loaded: map<string, Option<Doc>>, key: string): Loaded {
    if key in loaded && loaded[key].Some? then Found(loaded[key].value) else NotFound
  }

  /** The batch counts a failed marker write as not cached. */
  function MeteredInBatch(cfg: Config, key: string, l: Loaded): Outcome {
    match l
    case Found(v) => if Cached(cfg, key, v) then LoadedAndCached else LoadedNotCached
    case _ => if cfg.negativeCaching && key in cfg.failedWrites then LoadedNotCached else LoadedAndCached
  }

  function LoadPuts(cfg: Config, missing: seq<string>, loaded: map<string, Option<Doc>>): seq<Put> {
    if missing == [] then []
    else var n := |missing| - 1;
         LoadPuts(cfg, missing[..n], loaded) + PutsFor(cfg, missing[n], LoadedAt(loaded, missing[n]))
  }

  function LoadOutcomes(cfg: Config, missing: seq<string>, loaded: map<string, Option<Doc>>): Tally {
    if missing == [] then NONE
    else var n := |missing| - 1;
         Plus(LoadOutcomes(cfg, missing[..n], loaded),
              One(MeteredInBatch(cfg, missing[n], LoadedAt(loaded, missing[n]))))
  }

  lemma LoadPutsNext(cfg: Config, missing: seq<string>, k: string, loaded: map<string, Option<Doc>>)
    ensures LoadPuts(cfg, missing + [k], loaded) ==
            LoadPuts(cfg, missing, loaded) + PutsFor(cfg, k, LoadedAt(loaded, k))
  {
    assert (missing + [k])[..|missing|] == missing;
  }

  /** Storing one more loaded key writes that key's entries after the others. */
  lemma {:induction false} ApplyLoadNext(cfg: Config, data: map<string, Entry>, missing: seq<string>, k: string,
                                         loaded: map<string, Option<Doc>>)
    ensures Apply(cfg, data, LoadPuts(cfg, missing + [k], loaded)) ==
            Apply(cfg, Apply(cfg, data, LoadPuts(cfg, missing, loaded)), PutsFor(cfg, k, LoadedAt(loaded, k)))
  {
    LoadPutsNext(cfg, missing, k, loaded);
    ApplyMore(cfg, data, LoadPuts(cfg, missing, loaded), PutsFor(cfg, k, LoadedAt(loaded, k)));
  }

  lemma LoadOutcomesNext(cfg: Config, missing: seq<string>, k: string, loaded: map<string, Option<Doc>>)
    ensures LoadOutcomes(cfg, missing + [k], loaded) ==
            Plus(LoadOutcomes(cfg, missing, loaded), One(MeteredInBatch(cfg, k, LoadedAt(loaded, k))))
  {
    assert (missing + [k])[..|missing|] == missing;
  }

  /** The value a batch returns for k: the loaded one for a miss, otherwise the hit. */
  function AnswerAt(hit: Option<Doc>, missing: seq<string>, loaded: map<string, Option<Doc>>, k: string): Option<Doc> {
    if k in missing && LoadedAt(loaded, k).Found? then Some(LoadedAt(loaded, k).v) else hit
  }

  /** The keys without repetitions, each at its first occurrence. */
  function Distinct(keys: seq<string>): seq<string> {
    if keys == [] then []
    else var n := |keys| - 1;
         if keys[n] in keys[..n] then Distinct(keys[..n]) else Distinct(keys[..n]) + [keys[n]]
  }
}
