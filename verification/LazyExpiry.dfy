/** memstore's reads remove expired entries in a second critical section, after the lock was let
    go. Any interleaving with writers is allowed; the clock never runs backwards. */
module LazyExpiry {
  import opened Basics
  import opened Expiries
  import opened AliasIndex
  import opened PlainStore

  /** Where a client stands between two critical sections. */
  datatype Task =
    | Looked(key: string, seen: Entry)
    | Expired(key: string, exp: int)
    | Stamped(key: string, entry: Entry)

  datatype State = State(data: map<string, Entry>, now: int, tasks: map<nat, Task>)

  datatype Step =
    | Tick(time: int)
    | GetLook(c: nat, key: string)
    | GetCheck(c: nat)
    | GetDelete(c: nat)
    | SetStamp(c: nat, key: string, val: string, ttl: int)
    | SetStore(c: nat)
    | Delete(key: string)
    | DeletePrefix(prefix: string)

  const START := State(map[], 0, map[])

  predicate Enabled(s: State, st: Step) {
    match st
    case Tick(time) => s.now <= time
    case GetLook(c, _) => c !in s.tasks
    case GetCheck(c) => c in s.tasks && s.tasks[c].Looked?
    case GetDelete(c) => c in s.tasks && s.tasks[c].Expired?
    case SetStamp(c, _, _, _) => c !in s.tasks
    case SetStore(c) => c in s.tasks && s.tasks[c].Stamped?
    case _ => true
  }

  function Apply(s: State, st: Step): State
    requires Enabled(s, st)
  {
    match st
    case Tick(time) => s.(now := time)
    case GetLook(c, key) => if key in s.data then s.(tasks := s.tasks[c := Looked(key, s.data[key])]) else s
    case GetCheck(c) =>
      var t := s.tasks[c];
      if LiveAt(t.seen.exp, s.now) then s.(tasks := s.tasks - {c})
      else s.(tasks := s.tasks[c := Expired(t.key, t.seen.exp.value)])
    case GetDelete(c) =>
      var t := s.tasks[c];
      State(if t.key in s.data && s.data[t.key].exp == Some(t.exp) then s.data - {t.key} else s.data,
            s.now, s.tasks - {c})
    case SetStamp(c, key, val, ttl) => s.(tasks := s.tasks[c := Stamped(key, Entry(val, Expiry(s.now, ttl)))])
    case SetStore(c) => State(s.data[s.tasks[c].key := s.tasks[c].entry], s.now, s.tasks - {c})
    case Delete(key) => s.(data := s.data - {key})
    case DeletePrefix(prefix) => s.(data := s.data - WithPrefix(s.data, prefix))
  }

  /** What Get returns when its check finds the entry it looked up. */
  function Answer(s: State, c: nat): Option<string>
    requires Enabled(s, GetCheck(c))
  {
    if LiveAt(s.tasks[c].seen.exp, s.now) then Some(s.tasks[c].seen.val) else None
  }

  predicate IsRun(steps: seq<Step>)
    decreases |steps|, 0
  {
    steps == [] || (IsRun(steps[..|steps| - 1]) && Enabled(Final(steps[..|steps| - 1]), steps[|steps| - 1]))
  }

  function Final(steps: seq<Step>): State
    requires IsRun(steps)
    decreases |steps|, 1
  {
    if steps == [] then START else Apply(Final(steps[..|steps| - 1]), steps[|steps| - 1])
  }

  /** The store as it would be if reads never removed anything. */
  function Kept(steps: seq<Step>): map<string, Entry>
    requires IsRun(steps)
  {
    if steps == [] then map[]
    else var n := |steps| - 1;
         var before := Kept(steps[..n]);
         match steps[n]
         case SetStore(c) =>
           var t := Final(steps[..n]).tasks[c];
           before[t.key := t.entry]
         case Delete(key) => before - {key}
         case DeletePrefix(prefix) => before - WithPrefix(before, prefix)
         case _ => before
  }

  /** What is stored was kept, and what was removed by a read has expired. */
  ghost predicate OnlyExpiredRemoved(s: State, kept: map<string, Entry>) {
    && (forall k :: k in s.data ==> k in kept && kept[k] == s.data[k])
    && (forall k :: k in kept && k !in s.data ==> !LiveAt(kept[k].exp, s.now))
    && (forall c :: c in s.tasks && s.tasks[c].Expired? ==> s.tasks[c].exp < s.now)
  }

  lemma {:induction false} EveryRunRemovesOnlyExpired(steps: seq<Step>)
    requires IsRun(steps)
    ensures OnlyExpiredRemoved(Final(steps), Kept(steps))
  {
    if steps != [] {
      var n := |steps| - 1;
      EveryRunRemovesOnlyExpired(steps[..n]);
    }
  }

  /** In every interleaving a delete phase removes no unexpired entry, whoever wrote it and however
      long ago the entry was looked up. */
  lemma DeletePhaseIsSafe(steps: seq<Step>, c: nat, key: string)
    requires IsRun(steps) && Enabled(Final(steps), GetDelete(c))
    ensures var s := Final(steps);
            key in s.data && key !in Apply(s, GetDelete(c)).data ==> !LiveAt(s.data[key].exp, s.now)
  {
    EveryRunRemovesOnlyExpired(steps);
  }

  /** Lazy expiry cannot be observed: at every point of every run each key reads as if reads never
      removed anything. */
  lemma LazyExpiryIsInvisible(steps: seq<Step>, key: string)
    requires IsRun(steps)
    ensures var s := Final(steps); ReadEntry(s.data, key, s.now) == ReadEntry(Kept(steps), key, s.now)
  {
    EveryRunRemovesOnlyExpired(steps);
  }

  /** Get answers what the key held when it was looked up, as long as that has not expired by the check. */
  lemma {:induction false} HitsWereStored(steps: seq<Step>, c: nat) returns (i: nat)
    requires IsRun(steps) && Enabled(Final(steps), GetCheck(c))
    ensures i < |steps| && IsRun(steps[..i]) && steps[i] == GetLook(c, Final(steps).tasks[c].key)
    ensures var key := Final(steps).tasks[c].key;
            && key in Final(steps[..i]).data && Final(steps[..i]).data[key] == Final(steps).tasks[c].seen
            && Answer(Final(steps), c) == ReadEntry(Final(steps[..i]).data, key, Final(steps).now)
  {
    var n := |steps| - 1;
    if steps[n].GetLook? && steps[n].c == c {
      i := n;
    } else {
      i := HitsWereStored(steps[..n], c);
      assert steps[..n][..i] == steps[..i];
    }
  }

  // ---- what a read answers, in terms of the calls ----

  /** A Set: its arguments and the clock reading its expiry counts from. */
  datatype Begun = Begun(key: string, val: string, ttl: int, at: int)

  /** The Set that the client began last. */
  function LastBegun(steps: seq<Step>, c: nat): Option<Begun>
    requires IsRun(steps)
  {
    if steps == [] then None
    else var n := |steps| - 1;
         match steps[n]
         case SetStamp(d, key, val, ttl) =>
           if d == c then Some(Begun(key, val, ttl, Final(steps[..n]).now)) else LastBegun(steps[..n], c)
         case _ => LastBegun(steps[..n], c)
  }

  /** The Set that last took effect on the key, if no deletion came after it. */
  function LastWrite(steps: seq<Step>, key: string): Option<Begun>
    requires IsRun(steps)
  {
    if steps == [] then None
    else var before := steps[..|steps| - 1];
         match steps[|steps| - 1]
         case SetStore(c) =>
           var b := LastBegun(before, c);
           if b.Some? && b.value.key == key then b else LastWrite(before, key)
         case Delete(k) => if k == key then None else LastWrite(before, key)
         case DeletePrefix(prefix) => if prefix <= key then None else LastWrite(before, key)
         case _ => LastWrite(before, key)
  }

  /** The entry a Set stores, spelled out. */
  function Written(b: Begun): Entry {
    Entry(b.val, if b.ttl > 0 then Some(b.at + b.ttl) else None)
  }

  lemma {:induction false} PendingSet(steps: seq<Step>, c: nat)
    requires IsRun(steps) && c in Final(steps).tasks && Final(steps).tasks[c].Stamped?
    ensures var b := LastBegun(steps, c);
            b.Some? && Final(steps).tasks[c] == Stamped(b.value.key, Written(b.value))
  {
    var n := |steps| - 1;
    if !(steps[n].SetStamp? && steps[n].c == c) {
      PendingSet(steps[..n], c);
    }
  }

  lemma {:induction false} KeptIsLastWrite(steps: seq<Step>, key: string)
    requires IsRun(steps)
    ensures var b := LastWrite(steps, key);
            if b.Some? then key in Kept(steps) && Kept(steps)[key] == Written(b.value) else key !in Kept(steps)
  {
    if steps != [] {
      var n := |steps| - 1;
      KeptIsLastWrite(steps[..n], key);
      if steps[n].SetStore? {
        PendingSet(steps[..n], steps[n].c);
      }
    }
  }

  /** At every point of every run a key reads as the Set that last took effect on it, until a deletion or
      until its TTL, counted from when it was begun, has run out. */
  lemma ReadIff(steps: seq<Step>, key: string, v: string)
    requires IsRun(steps)
    ensures ReadEntry(Final(steps).data, key, Final(steps).now) == Some(v) <==>
            var b := LastWrite(steps, key);
            && b.Some? && b.value.val == v
            && (b.value.ttl > 0 ==> Final(steps).now <= b.value.at + b.value.ttl)
  {
    LazyExpiryIsInvisible(steps, key);
    KeptIsLastWrite(steps, key);
  }

  /** No client ever waits for another's whole call: an idle one can begin a call, a busy one can enter its
      next critical section, and time can pass. */
  lemma NobodyWaits(s: State, c: nat)
    ensures c !in s.tasks ==> forall key :: Enabled(s, GetLook(c, key))
    ensures c !in s.tasks ==> forall key, val, ttl :: Enabled(s, SetStamp(c, key, val, ttl))
    ensures c in s.tasks ==> match s.tasks[c]
                             case Looked(_, _) => Enabled(s, GetCheck(c))
                             case Expired(_, _) => Enabled(s, GetDelete(c))
                             case Stamped(_, _) => Enabled(s, SetStore(c))
    ensures forall key :: Enabled(s, Delete(key)) && Enabled(s, DeletePrefix(key))
    ensures forall time :: s.now <= time ==> Enabled(s, Tick(time))
  {
  }
}
