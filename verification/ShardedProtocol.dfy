/** Any number of clients running sharded operations against one Redis. A client's operation is
    a few atomic steps; anything may happen between two of them, and a step may fail. */
module ShardedProtocol {
  import opened Basics
  import opened Expiries
  import opened AliasIndex
  import Sharded

  /** What a client still has to do. */
  datatype Task =
    | WritePointer(pk: string, ref: Ref, ttl: int)   // PutByAlias, its record is written
    | Validate(ref: Ref, pk: string)                 // GetByAlias, its pointer is read
    | EvictFound(pk: string)                         // EvictByAlias, its pointer is read
    | Clean(pk: string, todo: seq<Ref>)              // an eviction, its record is deleted

  /** A client without a task is idle. */
  datatype State = State(ix: Index, now: int, tasks: map<nat, Task>)

  datatype Step =
    | PutValue(client: nat, pk: string, val: string, ttl: int)
    | PutRecord(client: nat, pk: string, ref: Ref, val: string, ttl: int)
    | PutPointer(client: nat, ok: bool)
    | ReadPointer(client: nat, ref: Ref)
    | ReadRecord(client: nat)
    | FindVictim(client: nat, ref: Ref)
    | EvictRecord(client: nat, pk: string, members: seq<Ref>)
    | CleanOne(client: nat, ok: bool)
    | Abandon(client: nat)
    | Tick(time: int)

  const INIT := State(EMPTY, 0, map[])

  ghost predicate Enabled(s: State, step: Step) {
    match step
    case PutValue(c, _, _, _) => c !in s.tasks
    case PutRecord(c, _, _, _, _) => c !in s.tasks
    case PutPointer(c, _) => c in s.tasks && s.tasks[c].WritePointer?
    case ReadPointer(c, _) => c !in s.tasks
    case ReadRecord(c) => c in s.tasks && s.tasks[c].Validate?
    case FindVictim(c, _) => c !in s.tasks
    case EvictRecord(c, pk, members) =>
      (c in s.tasks ==> s.tasks[c] == EvictFound(pk)) && (forall r :: r in members <==> Member(s.ix, pk, r))
    case CleanOne(c, _) => c in s.tasks && s.tasks[c].Clean? && s.tasks[c].todo != []
    case Abandon(c) => c in s.tasks
    case Tick(time) => s.now <= time
  }

  function Idle(s: State, c: nat): State {
    s.(tasks := s.tasks - {c})
  }

  function Cleaning(s: State, c: nat, pk: string, todo: seq<Ref>): State {
    if todo == [] then Idle(s, c) else s.(tasks := s.tasks[c := Clean(pk, todo)])
  }

  ghost function Apply(s: State, step: Step): State
    requires Enabled(s, step)
  {
    match step
    case PutValue(c, pk, val, ttl) => s.(ix := Sharded.RecordPut(s.ix, pk, None, val, Expiry(s.now, ttl)))
    case PutRecord(c, pk, ref, val, ttl) =>
      s.(ix := Sharded.RecordPut(s.ix, pk, Some(ref), val, Expiry(s.now, ttl)),
         tasks := s.tasks[c := WritePointer(pk, ref, ttl)])
    case PutPointer(c, ok) =>
      var t := s.tasks[c];
      Idle(if ok then s.(ix := SetPointer(s.ix, t.ref, t.pk, Expiry(s.now, t.ttl))) else s, c)
    case ReadPointer(c, ref) =>
      if ref in s.ix.pointers then s.(tasks := s.tasks[c := Validate(ref, s.ix.pointers[ref].val)]) else s
    case ReadRecord(c) => Idle(s, c)
    case FindVictim(c, ref) =>
      if ref in s.ix.pointers then s.(tasks := s.tasks[c := EvictFound(s.ix.pointers[ref].val)]) else s
    case EvictRecord(c, pk, members) => Cleaning(s.(ix := DelRecord(s.ix, pk)), c, pk, members)
    case CleanOne(c, ok) =>
      var t := s.tasks[c];
      Cleaning(if ok then s.(ix := Sharded.CompareAndDelete(s.ix, t.todo[0], t.pk)) else s, c, t.pk, t.todo[1..])
    case Abandon(c) => Idle(s, c)
    case Tick(time) => s.(ix := Purge(s.ix, time), now := time)
  }

  /** There is no lock to wait for: in every state an idle client can begin any operation, a busy one can
      take its next step, have it fail, or disappear, and time can pass. */
  lemma NobodyWaits(s: State, c: nat)
    ensures c !in s.tasks ==> forall pk, val, ttl :: Enabled(s, PutValue(c, pk, val, ttl))
    ensures c !in s.tasks ==> forall pk, ref, val, ttl :: Enabled(s, PutRecord(c, pk, ref, val, ttl))
    ensures c !in s.tasks ==> forall ref :: Enabled(s, ReadPointer(c, ref))
    ensures c !in s.tasks ==> forall ref :: Enabled(s, FindVictim(c, ref))
    ensures c in s.tasks ==>
              && Enabled(s, Abandon(c))
              && match s.tasks[c]
                 case WritePointer(_, _, _) => forall ok :: Enabled(s, PutPointer(c, ok))
                 case Validate(_, _) => Enabled(s, ReadRecord(c))
                 case EvictFound(pk) => CanEvict(s, c, pk)
                 case Clean(_, todo) => todo != [] ==> forall ok :: Enabled(s, CleanOne(c, ok))
    ensures c !in s.tasks ==> forall pk :: CanEvict(s, c, pk)
    ensures forall time :: s.now <= time ==> Enabled(s, Tick(time))
  {
  }

  /** The eviction is enabled with every listing of pk's members. */
  ghost predicate CanEvict(s: State, c: nat, pk: string) {
    forall members :: (forall r :: r in members <==> Member(s.ix, pk, r)) ==> Enabled(s, EvictRecord(c, pk, members))
  }

  /** What a read step answers in a state. */
  function Answer(s: State, c: nat): Option<string>
    requires c in s.tasks && s.tasks[c].Validate?
  {
    Sharded.ValidatedRead(s.ix, s.tasks[c].pk, s.tasks[c].ref)
  }

  ghost predicate IsRun(s: State, steps: seq<Step>)
    decreases |steps|, 0
  {
    steps == [] || (IsRun(s, steps[..|steps| - 1])
                    && Enabled(Final(s, steps[..|steps| - 1]), steps[|steps| - 1]))
  }

  ghost function Final(s: State, steps: seq<Step>): State
    requires IsRun(s, steps)
    decreases |steps|, 1
  {
    if steps == [] then s else Apply(Final(s, steps[..|steps| - 1]), steps[|steps| - 1])
  }

  /** The step writes record pk. */
  predicate Writes(step: Step, pk: string) {
    (step.PutValue? || step.PutRecord?) && step.pk == pk
  }

  /** The step registers an alias for pk's field. */
  predicate Registers(step: Step, pk: string, field: string) {
    step.PutRecord? && step.pk == pk && step.ref.field == field
  }
}

/** From a record's eviction until its next write, nothing reads it. */
module ShardedEviction {
  import opened Basics
  import opened AliasIndex
  import opened ShardedProtocol
  import Sharded

  lemma StepKeepsAbsent(s: State, step: Step, pk: string)
    requires Enabled(s, step) && !Writes(step, pk) && pk !in s.ix.values
    ensures pk !in Apply(s, step).ix.values
  {
  }

  /** Whatever other clients do, and however many pointer clean-ups fail or come late. */
  lemma {:induction false} EvictionTakesEffectAtOnce(s: State, evict: Step, steps: seq<Step>, pk: string, r: Ref)
    requires evict.EvictRecord? && evict.pk == pk && Enabled(s, evict)
    requires IsRun(Apply(s, evict), steps) && forall i :: 0 <= i < |steps| ==> !Writes(steps[i], pk)
    ensures var ix := Final(Apply(s, evict), steps).ix;
            Sharded.ReadValue(ix, pk) == None && Sharded.ValidatedRead(ix, pk, r) == None
  {
    if steps != [] {
      EvictionTakesEffectAtOnce(s, evict, steps[..|steps| - 1], pk, r);
      StepKeepsAbsent(Final(Apply(s, evict), steps[..|steps| - 1]), steps[|steps| - 1], pk);
    }
  }
}

/** A sharded alias read is never wrong, in any interleaving. */
module ShardedHistory {
  import opened Basics
  import opened AliasIndex
  import opened ShardedProtocol
  import Expiries
  import AliasInverse
  import ShardedRefinement

  /** The index of the last write of pk's record, or -1. */
  function LastWrite(steps: seq<Step>, pk: string): int {
    if steps == [] then -1
    else if Writes(steps[|steps| - 1], pk) then |steps| - 1
    else LastWrite(steps[..|steps| - 1], pk)
  }

  /** The index of the last registration of an alias for pk's field, or -1. */
  function LastRegistration(steps: seq<Step>, pk: string, field: string): int {
    if steps == [] then -1
    else if Registers(steps[|steps| - 1], pk, field) then |steps| - 1
    else LastRegistration(steps[..|steps| - 1], pk, field)
  }

  /** After step i, the record has been there all along: neither evicted nor expired. */
  ghost predicate PresentSince(steps: seq<Step>, i: int, pk: string)
    requires IsRun(INIT, steps)
  {
    forall j :: i < j <= |steps| && 0 <= j ==> IsRun(INIT, steps[..j]) && pk in Final(INIT, steps[..j]).ix.values
  }

  /** steps[i] is the last write of pk, it wrote val, and pk has been there since. */
  ghost predicate LastWriteWas(steps: seq<Step>, pk: string, val: string)
    requires IsRun(INIT, steps)
  {
    var i := LastWrite(steps, pk);
    0 <= i < |steps| && Writes(steps[i], pk) && steps[i].val == val && PresentSince(steps, i, pk)
  }

  /** The last registration for pk's field was r, and pk has been there since. */
  ghost predicate LastRegistrationWas(steps: seq<Step>, pk: string, r: Ref)
    requires IsRun(INIT, steps)
  {
    var k := LastRegistration(steps, pk, r.field);
    0 <= k < |steps| && Registers(steps[k], pk, r.field) && steps[k].ref == r && PresentSince(steps, k, pk)
  }

  lemma PresentOnce(steps: seq<Step>, i: int, pk: string)
    requires IsRun(INIT, steps) && steps != [] && pk in Final(INIT, steps).ix.values
    requires i == |steps| - 1 || (i < |steps| - 1 && PresentSince(steps[..|steps| - 1], i, pk))
    ensures PresentSince(steps, i, pk)
  {
    var before := steps[..|steps| - 1];
    forall j | i < j <= |steps| && 0 <= j
      ensures IsRun(INIT, steps[..j]) && pk in Final(INIT, steps[..j]).ix.values
    {
      if j == |steps| {
        assert steps[..j] == steps;
      } else {
        assert steps[..j] == before[..j];
      }
    }
  }

  /** What the state remembers of the run. */
  ghost predicate Remembers(steps: seq<Step>)
    requires IsRun(INIT, steps)
  {
    var ix := Final(INIT, steps).ix;
    && ShardedRefinement.RecordExpiry(ix)
    && (forall p :: p in ix.values ==> LastWriteWas(steps, p, ix.values[p].val))
    && (forall p, r :: Member(ix, p, r) ==> LastRegistrationWas(steps, p, r))
  }

  lemma StepKeepsRecordExpiry(s: State, step: Step)
    requires Enabled(s, step) && ShardedRefinement.RecordExpiry(s.ix)
    ensures ShardedRefinement.RecordExpiry(Apply(s, step).ix)
  {
  }

  /** A step changes a record only by writing it; otherwise the record stays or goes whole. */
  lemma StepValues(s: State, step: Step, p: string)
    requires Enabled(s, step) && p in Apply(s, step).ix.values
    ensures if Writes(step, p) then Apply(s, step).ix.values[p].val == step.val
            else p in s.ix.values && Apply(s, step).ix.values[p].val == s.ix.values[p].val
  {
  }

  lemma StepMembers(s: State, step: Step, p: string, r: Ref)
    requires Enabled(s, step) && Member(Apply(s, step).ix, p, r)
    ensures if Registers(step, p, r.field) then step.ref == r else Member(s.ix, p, r)
  {
    if step.PutRecord? {
      var stored := SetValue(s.ix, step.pk, step.val, Expiries.Expiry(s.now, step.ttl));
      AliasInverse.SetFieldMembers(stored, step.pk, step.ref, p, r);
    }
  }

  lemma {:induction false} EveryRunRemembers(steps: seq<Step>)
    requires IsRun(INIT, steps)
    ensures Remembers(steps)
  {
    if steps != [] {
      var before, step := steps[..|steps| - 1], steps[|steps| - 1];
      var s := Final(INIT, before);
      EveryRunRemembers(before);
      StepKeepsRecordExpiry(s, step);
      var ix := Final(INIT, steps).ix;
      forall p | p in ix.values ensures LastWriteWas(steps, p, ix.values[p].val) {
        StepValues(s, step, p);
        PresentOnce(steps, LastWrite(steps, p), p);
      }
      forall p, r | Member(ix, p, r) ensures LastRegistrationWas(steps, p, r) {
        StepMembers(s, step, p, r);
        PresentOnce(steps, LastRegistration(steps, p, r.field), p);
      }
    }
  }

  /** A hit through pk returns the last value written to pk, and the alias is the last one
      registered for pk's field; pk has neither expired nor been evicted since either step. */
  lemma ReadsAreNeverWrong(steps: seq<Step>, c: nat, v: string)
    requires IsRun(INIT, steps)
    requires var s := Final(INIT, steps); Enabled(s, ReadRecord(c)) && Answer(s, c) == Some(v)
    ensures var task := Final(INIT, steps).tasks[c];
            LastWriteWas(steps, task.pk, v) && LastRegistrationWas(steps, task.pk, task.ref)
  {
    EveryRunRemembers(steps);
  }
}
