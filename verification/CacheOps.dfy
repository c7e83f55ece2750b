/** The read-through cache: one key at a time, or many keys in one batch. */
module CacheOps {
  import opened Basics
  import opened Keyspace
  import opened AliasIndex
  import opened PlainStore
  import opened ReadThrough

  /** What GetByKey returns. */
  datatype Reply = Value(v: Doc, outcome: Outcome) | Absent(outcome: Outcome) | LoadFailed

  class Cache {
    const cfg: Config
    /** The store's values, by storage key. */
    var data: map<string, Entry>
    /** The successful writes so far, in order. */
    ghost var puts: seq<Put>
    var outcomes: Tally
    /** Every loader call so far, with the keys it was asked for. */
    var loads: seq<seq<string>>

    constructor (cfg: Config, data: map<string, Entry>)
      ensures this.cfg == cfg && this.data == data && puts == [] && outcomes == NONE && loads == []
    {
      this.cfg, this.data, puts, outcomes, loads := cfg, data, [], NONE, [];
    }

    method GetValue(key: string) returns (r: Option<string>)
      ensures r == Got(cfg, data, key)
    {
      if key in cfg.failedReads {
        return None;
      }
      r := ReadEntry(data, StorageKey(cfg, key), cfg.now);
    }

    method SetValue(key: string, val: string, exp: Option<int>) returns (ok: bool)
      modifies `data, `puts
      ensures ok <==> key !in cfg.failedWrites
      ensures Wrote(old(data), old(puts), if ok then [Put(key, val, exp)] else [])
    {
      ok := key !in cfg.failedWrites;
      if ok {
        data := data[StorageKey(cfg, key) := Entry(val, exp)];
        puts := puts + [Put(key, val, exp)];
      }
    }

    /** Since the state was this, exactly these writes happened. */
    ghost predicate Wrote(before: map<string, Entry>, putsBefore: seq<Put>, added: seq<Put>)
      reads `data, `puts
    {
      data == Apply(cfg, before, added) && puts == putsBefore + added
    }

    method Record(o: Outcome)
      modifies `outcomes
      ensures outcomes == Plus(old(outcomes), One(o))
    {
      outcomes := Plus(outcomes, One(o));
    }

    // ---- one key ----

    /** Serves a hit without the loader; loads a miss once and stores what came back. */
    method GetByKey(key: string, loader: () -> Loaded) returns (reply: Reply)
      modifies this
      ensures Wrote(old(data), old(puts), FetchPuts(cfg, old(data), key, loader()))
      ensures outcomes == Plus(old(outcomes), FetchOutcome(cfg, old(data), key, loader()))
      ensures loads == old(loads) + if Look(cfg, old(data), key).Miss? then [[key]] else []
      ensures reply.LoadFailed? <==> Look(cfg, old(data), key).Miss? && loader().Failed?
      ensures Fetched(cfg, old(data), key, loader()) == if reply.Value? then Some(reply.v) else None
      ensures !reply.LoadFailed? ==> outcomes == Plus(old(outcomes), One(reply.outcome))
    {
      var raw := GetValue(key);
      if raw.Some? {
        if raw.value == MARKER {
          Record(NegativeHit);
          return Absent(NegativeHit);
        }
        if raw.value in cfg.codec.unmarshal {
          Record(Hit);
          return Value(cfg.codec.unmarshal[raw.value], Hit);
        }
      }
      loads := loads + [[key]];
      var loaded := loader();
      match loaded
      case NotFound =>
        if cfg.negativeCaching {
          var _ := SetValue(key, MARKER, cfg.markerExp);
        }
        Record(LoadedAndCached);
        reply := Absent(LoadedAndCached);
      case Failed =>
        reply := LoadFailed;
      case Nothing =>
        Record(LoadedAndCached);
        reply := Absent(LoadedAndCached);
      case Found(v) =>
        var ok := v in cfg.codec.marshal;
        if ok {
          ok := SetValue(key, cfg.codec.marshal[v], cfg.valueExp);
        }
        var outcome := if ok then LoadedAndCached else LoadedNotCached;
        Record(outcome);
        reply := Value(v, outcome);
    }

    // ---- many keys ----

    static method DedupKeys(keys: seq<string>) returns (out: seq<string>)
      ensures out == Distinct(keys)
    {
      var seen: set<string> := {};
      out := [];
      for i := 0 to |keys|
        invariant out == Distinct(keys[..i])
        invariant forall k :: k in seen <==> k in keys[..i]
      {
        TakeNext(keys, i);
        if keys[i] !in seen {
          seen := seen + {keys[i]};
          out := out + [keys[i]];
        }
      }
      TakeAll(keys);
    }

    /** The store's own batch read. */
    method ReadFull(full: seq<string>) returns (got: map<string, string>)
      requires cfg.mode.PlainCache?
      ensures forall fk :: At(got, fk) == if fk in full then ReadEntry(data, fk, cfg.now) else None
    {
      got := map[];
      for i := 0 to |full|
        invariant forall fk :: At(got, fk) == if fk in full[..i] then ReadEntry(data, fk, cfg.now) else None
      {
        TakeNext(full, i);
        var b := ReadEntry(data, full[i], cfg.now);
        if b.Some? {
          got := got[full[i] := b.value];
        }
      }
      TakeAll(full);
    }

    /** Both read paths find the same bytes for every key. */
    method ReadManyRaw(keys: seq<string>) returns (out: map<string, string>)
      ensures out == RawOf(cfg, data, keys)
    {
      forall k ensures At(RawOf(cfg, data, keys), k) == if k in keys then GotInBatch(cfg, data, k) else None {
        RawAt(cfg, data, keys, k);
      }
      if cfg.mode.PlainCache? && cfg.batchStore {
        out := ReadInOneCall(keys);
      } else {
        out := map[];
        for i := 0 to |keys|
          invariant forall k :: At(out, k) == if k in keys[..i] then GotInBatch(cfg, data, k) else None
        {
          TakeNext(keys, i);
          var b := GetValue(keys[i]);
          if b.Some? {
            out := out[keys[i] := b.value];
          }
        }
        TakeAll(keys);
      }
      SameMap(out, RawOf(cfg, data, keys));
    }

    /** The batch store's answer, translated back to logical keys. */
    method ReadInOneCall(keys: seq<string>) returns (out: map<string, string>)
      requires cfg.mode.PlainCache?
      ensures forall k :: At(out, k) ==
                          if k in keys && !cfg.batchFails then ReadEntry(data, StorageKey(cfg, k), cfg.now) else None
    {
      var full, fullToLogical := FullKeys(keys);
      if cfg.batchFails {
        return map[];
      }
      var got := ReadFull(full);
      out := ToLogical(keys, fullToLogical, got);
      forall k ensures At(out, k) == if k in keys then ReadEntry(data, StorageKey(cfg, k), cfg.now) else None {
        assert k in keys ==> NonAliasKey(cfg.ns, k) in fullToLogical;
        assert At(got, NonAliasKey(cfg.ns, k)) ==
          if NonAliasKey(cfg.ns, k) in full then ReadEntry(data, NonAliasKey(cfg.ns, k), cfg.now) else None;
      }
    }

    method FullKeys(keys: seq<string>) returns (full: seq<string>, fullToLogical: map<string, string>)
      ensures Translates(cfg.ns, fullToLogical, keys)
      ensures forall fk :: fk in full <==> fk in fullToLogical
    {
      full, fullToLogical := [], map[];
      for i := 0 to |keys|
        invariant Translates(cfg.ns, fullToLogical, keys[..i])
        invariant forall fk :: fk in full <==> fk in fullToLogical
      {
        TakeNext(keys, i);
        var fk := NonAliasKey(cfg.ns, keys[i]);
        full := full + [fk];
        fullToLogical := fullToLogical[fk := keys[i]];
      }
      TakeAll(keys);
    }

    /** The answer's entries come in any order. */
    method ToLogical(keys: seq<string>, fullToLogical: map<string, string>, got: map<string, string>)
      returns (out: map<string, string>)
      requires cfg.mode.PlainCache?
      requires Translates(cfg.ns, fullToLogical, keys) && got.Keys <= fullToLogical.Keys
      ensures forall k :: At(out, k) == if k in keys then At(got, NonAliasKey(cfg.ns, k)) else None
    {
      out := map[];
      var rest := got.Keys;
      while rest != {}
        invariant rest <= got.Keys
        invariant forall k :: k in out <==> k in keys && NonAliasKey(cfg.ns, k) in got.Keys - rest
        invariant forall k :: k in out ==> out[k] == got[NonAliasKey(cfg.ns, k)]
      {
        var fk :| fk in rest;
        forall k | NonAliasKey(cfg.ns, k) == fk ensures k == fullToLogical[fk] {
          StorageKeyInjective(cfg, k, fullToLogical[fk]);
        }
        out := out[fullToLogical[fk] := got[fk]];
        rest := rest - {fk};
      }
    }

    method SplitHitsAndMisses(keys: seq<string>, raw: map<string, string>)
      returns (result: map<string, Doc>, missing: seq<string>)
      modifies `outcomes
      ensures HitsSoFar(cfg.codec, result, raw, keys)
      ensures missing == Misses(cfg.codec, raw, keys)
      ensures outcomes == Plus(old(outcomes), HitOutcomes(cfg.codec, raw, keys))
    {
      result, missing := map[], [];
      for i := 0 to |keys|
        invariant HitsSoFar(cfg.codec, result, raw, keys[..i])
        invariant missing == Misses(cfg.codec, raw, keys[..i])
        invariant outcomes == Plus(old(outcomes), HitOutcomes(cfg.codec, raw, keys[..i]))
      {
        TakeNext(keys, i);
        MissesNext(cfg.codec, raw, keys[..i], keys[i]);
        HitOutcomesNext(cfg.codec, raw, keys[..i], keys[i]);
        HitsNext(cfg.codec, raw, keys, i, result);
        var k := keys[i];
        if k !in raw {
          missing := missing + [k];
          continue;
        }
        if raw[k] == MARKER {
          Record(NegativeHit);
          continue;
        }
        if raw[k] !in cfg.codec.unmarshal {
          missing := missing + [k];
          continue;
        }
        result := result[k := cfg.codec.unmarshal[raw[k]]];
        Record(Hit);
      }
      TakeAll(keys);
    }

    method PopulateLoaded(missing: seq<string>, loaded: map<string, Option<Doc>>, hits: map<string, Doc>)
      returns (result: map<string, Doc>)
      modifies `outcomes, `data, `puts
      ensures AnswersSoFar(result, hits, missing, loaded)
      ensures Wrote(old(data), old(puts), LoadPuts(cfg, missing, loaded))
      ensures outcomes == Plus(old(outcomes), LoadOutcomes(cfg, missing, loaded))
    {
      result := hits;
      ghost var done := [];
      for i := 0 to |missing|
        invariant done == missing[..i]
        invariant AnswersSoFar(result, hits, done, loaded)
        invariant Wrote(old(data), old(puts), LoadPuts(cfg, done, loaded))
        invariant outcomes == Plus(old(outcomes), LoadOutcomes(cfg, done, loaded))
      {
        result := Answer(missing[i], loaded, hits, result, done);
        StoreNext(missing[i], loaded, old(data), old(puts), old(outcomes), done);
        TakeNext(missing, i);
        done := done + [missing[i]];
      }
      TakeAll(missing);
    }

    /** The loop body's first half: the caller's result... */
    static method Answer(k: string, loaded: map<string, Option<Doc>>, ghost hits: map<string, Doc>,
                         before: map<string, Doc>, ghost done: seq<string>)
      returns (result: map<string, Doc>)
      requires AnswersSoFar(before, hits, done, loaded)
      ensures AnswersSoFar(result, hits, done + [k], loaded)
    {
      result := before;
      if k in loaded && loaded[k].Some? {
        result := result[k := loaded[k].value];
      }
    }

    /** ...and its second half: the store and the counters, with done handled already. */
    method StoreNext(k: string, loaded: map<string, Option<Doc>>, ghost dataFirst: map<string, Entry>,
                     ghost putsFirst: seq<Put>, ghost outcomesFirst: Tally, ghost done: seq<string>)
      requires Wrote(dataFirst, putsFirst, LoadPuts(cfg, done, loaded))
      requires outcomes == Plus(outcomesFirst, LoadOutcomes(cfg, done, loaded))
      modifies `outcomes, `data, `puts
      ensures Wrote(dataFirst, putsFirst, LoadPuts(cfg, done + [k], loaded))
      ensures outcomes == Plus(outcomesFirst, LoadOutcomes(cfg, done + [k], loaded))
    {
      ghost var next := PutsFor(cfg, k, LoadedAt(loaded, k));
      LoadOutcomesNext(cfg, done, k, loaded);
      ApplyLoadNext(cfg, dataFirst, done, k, loaded);
      PutsInOrder(putsFirst, LoadPuts(cfg, done, loaded), next);
      LoadPutsNext(cfg, done, k, loaded);
      StoreLoaded(k, loaded);
    }

    method StoreLoaded(k: string, loaded: map<string, Option<Doc>>)
      modifies `outcomes, `data, `puts
      ensures Wrote(old(data), old(puts), PutsFor(cfg, k, LoadedAt(loaded, k)))
      ensures outcomes == Plus(old(outcomes), One(MeteredInBatch(cfg, k, LoadedAt(loaded, k))))
    {
      if k in loaded && loaded[k].Some? {
        StoreFound(k, loaded[k].value);
      } else {
        StoreMarker(k);
      }
    }

    method StoreFound(k: string, v: Doc)
      modifies `outcomes, `data, `puts
      ensures Wrote(old(data), old(puts), PutsFor(cfg, k, Found(v)))
      ensures outcomes == Plus(old(outcomes), One(MeteredInBatch(cfg, k, Found(v))))
    {
      if v !in cfg.codec.marshal {
        Record(LoadedNotCached);
        return;
      }
      var ok := SetValue(k, cfg.codec.marshal[v], cfg.valueExp);
      Record(if ok then LoadedAndCached else LoadedNotCached);
    }

    method StoreMarker(k: string)
      modifies `outcomes, `data, `puts
      ensures Wrote(old(data), old(puts), PutsFor(cfg, k, NotFound))
      ensures outcomes == Plus(old(outcomes), One(MeteredInBatch(cfg, k, NotFound)))
    {
      if cfg.negativeCaching {
        var ok := SetValue(k, MARKER, cfg.markerExp);
        if !ok {
          Record(LoadedNotCached);
          return;
        }
      }
      Record(LoadedAndCached);
    }

    /** Calls the loader at most once, with exactly the distinct misses. */
    method GetManyByKey(keys: seq<string>, loadMissing: seq<string> -> Result<map<string, Option<Doc>>>)
      returns (r: Result<map<string, Doc>>)
      modifies this
      ensures var uniq := Distinct(keys);
              var raw := RawOf(cfg, old(data), uniq);
              var missing := Misses(cfg.codec, raw, uniq);
              var metered := Plus(old(outcomes), HitOutcomes(cfg.codec, raw, uniq));
              if missing == [] then
                && loads == old(loads) && Wrote(old(data), old(puts), []) && outcomes == metered
                && r.Ok? && forall k :: At(r.value, k) == HitAt(cfg.codec, raw, uniq, k)
              else
                && loads == old(loads) + [missing]
                && match loadMissing(missing)
                   case Err => r == Err && Wrote(old(data), old(puts), []) && outcomes == metered
                   case Ok(loaded) =>
                     && Wrote(old(data), old(puts), LoadPuts(cfg, missing, loaded))
                     && outcomes == Plus(metered, LoadOutcomes(cfg, missing, loaded))
                     && r.Ok?
                     && forall k :: At(r.value, k) ==
                                    AnswerAt(HitAt(cfg.codec, raw, uniq, k), missing, loaded, k)
    {
      if |keys| == 0 {
        return Ok(map[]);
      }
      var uniq := DedupKeys(keys);
      var raw := ReadManyRaw(uniq);
      var result, missing := SplitHitsAndMisses(uniq, raw);
      if |missing| == 0 {
        return Ok(result);
      }
      loads := loads + [missing];
      var answer := loadMissing(missing);
      match answer
      case Err =>
        r := Err;
      case Ok(loaded) =>
        result := PopulateLoaded(missing, loaded, result);
        r := Ok(result);
    }
  }

  lemma PutsInOrder(a: seq<Put>, b: seq<Put>, c: seq<Put>)
    ensures a + b + c == a + (b + c)
  {
  }

  /** Exactly the hits on the keys. */
  ghost predicate HitsSoFar(codec: Codec, result: map<string, Doc>, raw: map<string, string>, keys: seq<string>) {
    forall k :: At(result, k) == HitAt(codec, raw, keys, k)
  }

  lemma HitsNext(codec: Codec, raw: map<string, string>, keys: seq<string>, i: nat, result: map<string, Doc>)
    requires i < |keys| && HitsSoFar(codec, result, raw, keys[..i])
    ensures match LookIn(codec, raw, keys[i])
            case Served(v) => HitsSoFar(codec, result[keys[i] := v], raw, keys[..i + 1])
            case _ => HitsSoFar(codec, result, raw, keys[..i + 1])
  {
    TakeNext(keys, i);
    var look := LookIn(codec, raw, keys[i]);
    var next := if look.Served? then result[keys[i] := look.v] else result;
    forall k ensures At(next, k) == HitAt(codec, raw, keys[..i + 1], k) {
      assert At(result, k) == HitAt(codec, raw, keys[..i], k);
      if k == keys[i] {
        assert At(result, k) == if k in keys[..i] && look.Served? then Some(look.v) else None;
      }
    }
  }

  /** The hits, and the loaded value of every key of missing that was found. */
  ghost predicate AnswersSoFar(result: map<string, Doc>, hits: map<string, Doc>, missing: seq<string>,
                                  loaded: map<string, Option<Doc>>) {
    forall k :: At(result, k) == AnswerAt(At(hits, k), missing, loaded, k)
  }

  /** Every logical key's storage key leads back to it. */
  ghost predicate Translates(ns: string, fullToLogical: map<string, string>, keys: seq<string>) {
    && (forall k :: k in keys ==> NonAliasKey(ns, k) in fullToLogical)
    && (forall fk :: fk in fullToLogical ==> fullToLogical[fk] in keys && NonAliasKey(ns, fullToLogical[fk]) == fk)
  }

  lemma SameMap(m: map<string, string>, n: map<string, string>)
    requires forall k :: At(m, k) == At(n, k)
    ensures m == n
  {
    forall k ensures k in m <==> k in n {
      assert At(m, k) == At(n, k);
    }
    forall k | k in m ensures m[k] == n[k] {
      assert At(m, k) == At(n, k);
    }
  }
}
