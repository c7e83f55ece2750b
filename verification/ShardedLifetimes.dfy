/** Exactly what every sharded read answers in every interleaving, in terms of the steps taken and the
    clock: a record is there from its last write until an eviction or the end of its TTL. */
module ShardedLifetimes {
  import opened Basics
  import opened AliasIndex
  import opened ShardedProtocol
  import opened ShardedHistory
  import AliasInverse
  import Expiries
  import Sharded
  import ShardedRefinement

  /** The clock reading at pk's last write. */
  ghost function WrittenAt(steps: seq<Step>, pk: string): int
    requires IsRun(INIT, steps)
  {
    if steps == [] then 0
    else if Writes(steps[|steps| - 1], pk) then Final(INIT, steps[..|steps| - 1]).now
    else WrittenAt(steps[..|steps| - 1], pk)
  }

  /** pk was written, and not evicted since. */
  predicate WrittenLast(steps: seq<Step>, pk: string) {
    if steps == [] then false
    else var step := steps[|steps| - 1];
         if Writes(step, pk) then true
         else if step.EvictRecord? && step.pk == pk then false
         else WrittenLast(steps[..|steps| - 1], pk)
  }

  /** The TTL and the value of pk's last write. */
  function WrittenTtl(steps: seq<Step>, pk: string): int {
    if steps == [] then 0
    else if Writes(steps[|steps| - 1], pk) then steps[|steps| - 1].ttl
    else WrittenTtl(steps[..|steps| - 1], pk)
  }

  function WrittenValue(steps: seq<Step>, pk: string): string {
    if steps == [] then ""
    else if Writes(steps[|steps| - 1], pk) then steps[|steps| - 1].val
    else WrittenValue(steps[..|steps| - 1], pk)
  }

  /** pk was written, not evicted since, and its TTL, if it has one, has not run out. */
  ghost predicate Alive(steps: seq<Step>, pk: string)
    requires IsRun(INIT, steps)
  {
    && WrittenLast(steps, pk)
    && (WrittenTtl(steps, pk) > 0 ==> Final(INIT, steps).now <= WrittenAt(steps, pk) + WrittenTtl(steps, pk))
  }

  /** The alias value last registered for pk's field while pk has been alive. */
  ghost function Registered(steps: seq<Step>, pk: string, field: string): Option<string>
    requires IsRun(INIT, steps)
  {
    if steps == [] then None
    else if Registers(steps[|steps| - 1], pk, field) then Some(steps[|steps| - 1].ref.value)
    else if !Alive(steps, pk) then None
    else Registered(steps[..|steps| - 1], pk, field)
  }

  /** What is stored for pk's value, spelled out. */
  ghost predicate ValueIs(steps: seq<Step>, pk: string)
    requires IsRun(INIT, steps)
  {
    var values, ttl := Final(INIT, steps).ix.values, WrittenTtl(steps, pk);
    && (pk in values <==> Alive(steps, pk))
    && (pk in values ==>
          && values[pk].val == WrittenValue(steps, pk)
          && values[pk].exp == if ttl > 0 then Some(WrittenAt(steps, pk) + ttl) else None)
  }

  /** What one step does to pk's stored value. */
  lemma ValueAfter(s: State, step: Step, pk: string)
    requires Enabled(s, step)
    ensures var values, values' := s.ix.values, Apply(s, step).ix.values;
            if Writes(step, pk) then
              && pk in values' && values'[pk].val == step.val
              && values'[pk].exp == if step.ttl > 0 then Some(s.now + step.ttl) else None
            else
              && (pk in values' <==>
                    && pk in values && !(step.EvictRecord? && step.pk == pk)
                    && (step.Tick? && values[pk].exp.Some? ==> step.time <= values[pk].exp.value))
              && (pk in values' ==> values'[pk] == values[pk])
    ensures Apply(s, step).now == if step.Tick? then step.time else s.now
  {
  }

  lemma {:induction false} EveryValueIs(steps: seq<Step>, pk: string)
    requires IsRun(INIT, steps)
    ensures ValueIs(steps, pk)
  {
    if steps != [] {
      var before, step := steps[..|steps| - 1], steps[|steps| - 1];
      EveryValueIs(before, pk);
      ValueAfter(Final(INIT, before), step, pk);
    }
  }

  lemma {:induction false} EveryMemberIs(steps: seq<Step>, pk: string, r: Ref)
    requires IsRun(INIT, steps)
    ensures Member(Final(INIT, steps).ix, pk, r) <==> Registered(steps, pk, r.field) == Some(r.value)
  {
    if steps != [] {
      var before, step := steps[..|steps| - 1], steps[|steps| - 1];
      EveryRunRemembers(before);
      EveryRunRemembers(steps);
      EveryMemberIs(before, pk, r);
      EveryValueIs(steps, pk);
      MembersAfter(Final(INIT, before), step, pk, r);
      assert r == Ref(r.field, r.value);
    }
  }

  /** A step keeps a record's other fields as long as it keeps the record. */
  lemma MembersAfter(s: State, step: Step, pk: string, r: Ref)
    requires Enabled(s, step) && ShardedRefinement.RecordExpiry(s.ix)
    ensures var ix := Apply(s, step).ix;
            Member(ix, pk, r) <==>
            if Registers(step, pk, r.field) then step.ref == r else pk in ix.values && Member(s.ix, pk, r)
  {
    if step.PutRecord? {
      var stored := SetValue(s.ix, step.pk, step.val, Expiries.Expiry(s.now, step.ttl));
      AliasInverse.SetFieldMembers(stored, step.pk, step.ref, pk, r);
    }
  }

  /** A read by key hits exactly while the record is alive, and serves the last write. */
  lemma ValueReadIff(steps: seq<Step>, pk: string, v: string)
    requires IsRun(INIT, steps)
    ensures Sharded.ReadValue(Final(INIT, steps).ix, pk) == Some(v) <==>
            Alive(steps, pk) && WrittenValue(steps, pk) == v
  {
    EveryValueIs(steps, pk);
  }

  /** A validate step hits exactly while the record is alive and the alias is the one last registered
      for its field since it has been, and serves the last write. */
  lemma ValidateStepIff(steps: seq<Step>, c: nat, v: string)
    requires IsRun(INIT, steps) && Enabled(Final(INIT, steps), ReadRecord(c))
    ensures var task := Final(INIT, steps).tasks[c];
            Answer(Final(INIT, steps), c) == Some(v) <==>
            && Alive(steps, task.pk) && WrittenValue(steps, task.pk) == v
            && Registered(steps, task.pk, task.ref.field) == Some(task.ref.value)
  {
    var task := Final(INIT, steps).tasks[c];
    EveryValueIs(steps, task.pk);
    EveryMemberIs(steps, task.pk, task.ref);
  }
}
