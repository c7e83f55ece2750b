/** What interference a registered alias survives. */
module ShardedStability {
  import opened Basics
  import opened Expiries
  import opened AliasIndex
  import opened ShardedProtocol
  import AliasInverse
  import Sharded

  /** Some client has still to delete the pointer r for pk. */
  ghost predicate BeingCleaned(s: State, pk: string, r: Ref) {
    exists c :: c in s.tasks && s.tasks[c].Clean? && s.tasks[c].pk == pk && r in s.tasks[c].todo
  }

  /** The record is there and names the alias, and no clean-up of this pointer is pending. */
  ghost predicate Registered(s: State, pk: string, r: Ref) {
    pk in s.ix.values && Member(s.ix, pk, r) && !BeingCleaned(s, pk, r)
  }

  /** The alias also has its pointer. */
  ghost predicate Reachable(s: State, pk: string, r: Ref) {
    Registered(s, pk, r) && PointsTo(s.ix, r, pk)
  }

  /** The step starts no eviction of pk, does not replace its alias of r's field, sets no pointer r
      to another primary, and does not move the clock past an expiry of these items. Everything
      else may happen, including writes and evictions of other primaries. */
  ghost predicate Quiet(s: State, step: Step, pk: string, r: Ref) {
    match step
    case EvictRecord(_, q, _) => q != pk
    case PutRecord(_, q, ref, _, _) => q == pk && ref.field == r.field ==> ref == r
    case PutPointer(c, _) => c in s.tasks && s.tasks[c].WritePointer? && s.tasks[c].ref == r ==> s.tasks[c].pk == pk
    case Tick(time) =>
      && (pk in s.ix.values ==> LiveAt(s.ix.values[pk].exp, time))
      && (pk in s.ix.members ==> LiveAt(s.ix.members[pk].exp, time))
      && (r in s.ix.pointers ==> LiveAt(s.ix.pointers[r].exp, time))
    case _ => true
  }

  ghost predicate QuietRun(s: State, steps: seq<Step>, pk: string, r: Ref)
    requires IsRun(s, steps)
    decreases |steps|
  {
    steps == [] || (QuietRun(s, steps[..|steps| - 1], pk, r)
                    && Quiet(Final(s, steps[..|steps| - 1]), steps[|steps| - 1], pk, r))
  }

  lemma StepKeepsRegistered(s: State, step: Step, pk: string, r: Ref)
    requires Enabled(s, step) && Quiet(s, step, pk, r) && Registered(s, pk, r)
    ensures Registered(Apply(s, step), pk, r)
  {
    var s' := Apply(s, step);
    forall c | c in s'.tasks && s'.tasks[c].Clean? && s'.tasks[c].pk == pk ensures r !in s'.tasks[c].todo {
      assert c in s.tasks && s.tasks[c].Clean? && s.tasks[c].pk == pk ==> r !in s.tasks[c].todo;
    }
    if step.PutRecord? {
      var stored := SetValue(s.ix, step.pk, step.val, Expiry(s.now, step.ttl));
      AliasInverse.SetFieldMembers(stored, step.pk, step.ref, pk, r);
    }
  }

  /** Compare-and-delete is why a former owner's eviction cannot take the pointer. */
  lemma StepKeepsReachable(s: State, step: Step, pk: string, r: Ref)
    requires Enabled(s, step) && Quiet(s, step, pk, r) && Reachable(s, pk, r)
    ensures Reachable(Apply(s, step), pk, r)
  {
    StepKeepsRegistered(s, step, pk, r);
    if step.CleanOne? {
      var t := s.tasks[step.client];
      assert t.pk == pk ==> r !in t.todo;
    }
  }

  lemma {:induction false} QuietRunKeeps(s: State, steps: seq<Step>, pk: string, r: Ref)
    requires IsRun(s, steps) && QuietRun(s, steps, pk, r)
    ensures Registered(s, pk, r) ==> Registered(Final(s, steps), pk, r)
    ensures Reachable(s, pk, r) ==> Reachable(Final(s, steps), pk, r)
  {
    if steps != [] {
      var before := steps[..|steps| - 1];
      QuietRunKeeps(s, before, pk, r);
      if Registered(s, pk, r) {
        StepKeepsRegistered(Final(s, before), steps[|steps| - 1], pk, r);
      }
      if Reachable(s, pk, r) {
        StepKeepsReachable(Final(s, before), steps[|steps| - 1], pk, r);
      }
    }
  }

  /** Steps of other clients leave a client's task alone. */
  predicate NotBy(step: Step, c: nat) {
    step.Tick? || step.client != c
  }

  lemma {:induction false} TaskUntouched(s: State, steps: seq<Step>, c: nat)
    requires IsRun(s, steps) && c in s.tasks && forall i :: 0 <= i < |steps| ==> NotBy(steps[i], c)
    ensures c in Final(s, steps).tasks && Final(s, steps).tasks[c] == s.tasks[c]
  {
    if steps != [] {
      TaskUntouched(s, steps[..|steps| - 1], c);
    }
  }

  /** PutByAlias(pk, r) by client c, run beside any quiet interference, leaves the alias reachable. */
  lemma PutByAliasMakesReachable(s: State, c: nat, pk: string, r: Ref, val: string, ttl: int, between: seq<Step>)
    requires Enabled(s, PutRecord(c, pk, r, val, ttl)) && !BeingCleaned(s, pk, r)
    requires IsRun(Apply(s, PutRecord(c, pk, r, val, ttl)), between)
    requires QuietRun(Apply(s, PutRecord(c, pk, r, val, ttl)), between, pk, r)
    requires forall i :: 0 <= i < |between| ==> NotBy(between[i], c)
    ensures var s' := Final(Apply(s, PutRecord(c, pk, r, val, ttl)), between);
            Enabled(s', PutPointer(c, true)) && Reachable(Apply(s', PutPointer(c, true)), pk, r)
  {
    var s1 := Apply(s, PutRecord(c, pk, r, val, ttl));
    forall d | d in s1.tasks && s1.tasks[d].Clean? && s1.tasks[d].pk == pk ensures r !in s1.tasks[d].todo {
      assert d in s.tasks && s.tasks[d].Clean?;
    }
    AliasInverse.SetFieldMembers(SetValue(s.ix, pk, val, Expiry(s.now, ttl)), pk, r, pk, r);
    QuietRunKeeps(s1, between, pk, r);
    TaskUntouched(s1, between, c);
    var s2 := Final(s1, between);
    StepKeepsRegistered(s2, PutPointer(c, true), pk, r);
  }

  /** Every GetByAlias begun while the alias is reachable hits the record's current value, whatever
      quiet steps of other clients come before it or between its two steps. */
  lemma BegunReadsHit(s: State, before: seq<Step>, d: nat, between: seq<Step>, pk: string, r: Ref)
    requires Reachable(s, pk, r)
    requires IsRun(s, before) && QuietRun(s, before, pk, r)
    requires d !in Final(s, before).tasks
    requires IsRun(Apply(Final(s, before), ReadPointer(d, r)), between)
    requires QuietRun(Apply(Final(s, before), ReadPointer(d, r)), between, pk, r)
    requires forall i :: 0 <= i < |between| ==> NotBy(between[i], d)
    ensures var s' := Final(Apply(Final(s, before), ReadPointer(d, r)), between);
            && Enabled(s', ReadRecord(d)) && s'.tasks[d] == Validate(r, pk)
            && pk in s'.ix.values && Answer(s', d) == Some(s'.ix.values[pk].val)
  {
    QuietRunKeeps(s, before, pk, r);
    var s1 := Final(s, before);
    StepKeepsReachable(s1, ReadPointer(d, r), pk, r);
    var s2 := Apply(s1, ReadPointer(d, r));
    QuietRunKeeps(s2, between, pk, r);
    TaskUntouched(s2, between, d);
  }

  /** From registration to read: client c registers the alias beside quiet steps, more quiet steps
      follow, and client d reads the alias beside yet others. The read hits pk's current value. */
  lemma RegisteredAliasIsServed(s: State, c: nat, pk: string, r: Ref, val: string, ttl: int, during: seq<Step>,
                                before: seq<Step>, d: nat, between: seq<Step>)
    requires Enabled(s, PutRecord(c, pk, r, val, ttl)) && !BeingCleaned(s, pk, r)
    requires IsRun(Apply(s, PutRecord(c, pk, r, val, ttl)), during)
    requires QuietRun(Apply(s, PutRecord(c, pk, r, val, ttl)), during, pk, r)
    requires forall i :: 0 <= i < |during| ==> NotBy(during[i], c)
    requires var s1 := Final(Apply(s, PutRecord(c, pk, r, val, ttl)), during);
             Enabled(s1, PutPointer(c, true)) ==>
             var s2 := Apply(s1, PutPointer(c, true));
             && IsRun(s2, before) && QuietRun(s2, before, pk, r) && d !in Final(s2, before).tasks
             && var s3 := Apply(Final(s2, before), ReadPointer(d, r));
                IsRun(s3, between) && QuietRun(s3, between, pk, r)
    requires forall i :: 0 <= i < |between| ==> NotBy(between[i], d)
    ensures var s1 := Final(Apply(s, PutRecord(c, pk, r, val, ttl)), during);
            && Enabled(s1, PutPointer(c, true))
            && var s4 := Final(Apply(Final(Apply(s1, PutPointer(c, true)), before), ReadPointer(d, r)), between);
               && Enabled(s4, ReadRecord(d)) && pk in s4.ix.values
               && Answer(s4, d) == Some(s4.ix.values[pk].val)
  {
    PutByAliasMakesReachable(s, c, pk, r, val, ttl, during);
    var s1 := Final(Apply(s, PutRecord(c, pk, r, val, ttl)), during);
    BegunReadsHit(Apply(s1, PutPointer(c, true)), before, d, between, pk, r);
  }

  /** The only ways a pointer stops leading to pk. */
  lemma PointerLossCauses(s: State, step: Step, pk: string, r: Ref)
    requires Enabled(s, step) && PointsTo(s.ix, r, pk)
    ensures !PointsTo(Apply(s, step).ix, r, pk) <==>
      match step
      case PutPointer(c, ok) => ok && s.tasks[c].ref == r && s.tasks[c].pk != pk
      case CleanOne(c, ok) => ok && s.tasks[c].todo[0] == r && s.tasks[c].pk == pk
      case Tick(time) => !LiveAt(s.ix.pointers[r].exp, time)
      case _ => false
  {
  }

  /** An eviction of pk that is still cleaning up can take the pointer of a newer registration:
      the alias then misses although the record is there and names it. */
  lemma LateCleanUpDropsFreshPointer(pk: string, r: Ref, v: string, w: string)
    ensures var steps := [PutRecord(1, pk, r, v, 0), PutPointer(1, true), EvictRecord(2, pk, [r]),
                          PutRecord(1, pk, r, w, 0), PutPointer(1, true), CleanOne(2, true)];
            && IsRun(INIT, steps)
            && var ix := Final(INIT, steps).ix;
               Sharded.ReadValue(ix, pk) == Some(w) && Member(ix, pk, r) && Sharded.Get(ix, r) == None
  {
    var put, point := PutRecord(1, pk, r, v, 0), PutPointer(1, true);
    var evict, reput, clean := EvictRecord(2, pk, [r]), PutRecord(1, pk, r, w, 0), CleanOne(2, true);
    EvictLeavesCleanUp(pk, r, v);
    var s3 := Apply(Apply(Apply(INIT, put), point), evict);
    CleanUpAfterReput(pk, r, w);
    RunOfThree(INIT, put, point, evict);
    RunOfThree(s3, reput, point, clean);
    RunAppend(INIT, [put, point, evict], [reput, point, clean]);
    assert [put, point, evict] + [reput, point, clean] == [put, point, evict, reput, point, clean];
  }

  /** Client 2 has evicted pk and still has one pointer to clean up. */
  function HalfEvicted(pk: string, r: Ref): State {
    State(EMPTY.(pointers := map[r := Entry(pk, None)]), 0, map[2 := Clean(pk, [r])])
  }

  lemma EvictLeavesCleanUp(pk: string, r: Ref, v: string)
    ensures var put, point, evict := PutRecord(1, pk, r, v, 0), PutPointer(1, true), EvictRecord(2, pk, [r]);
            && Enabled(INIT, put) && Enabled(Apply(INIT, put), point)
            && Enabled(Apply(Apply(INIT, put), point), evict)
            && Apply(Apply(Apply(INIT, put), point), evict) == HalfEvicted(pk, r)
  {
    var s2 := Apply(Apply(INIT, PutRecord(1, pk, r, v, 0)), PutPointer(1, true));
    assert s2.ix.members[pk].fields == map[r.field := r.value];
    assert forall x: Ref :: x in [r] <==> Names(map[r.field := r.value], x);
  }

  lemma CleanUpAfterReput(pk: string, r: Ref, w: string)
    ensures var s, reput := HalfEvicted(pk, r), PutRecord(1, pk, r, w, 0);
            var point, clean := PutPointer(1, true), CleanOne(2, true);
            && Enabled(s, reput) && Enabled(Apply(s, reput), point) && Enabled(Apply(Apply(s, reput), point), clean)
            && var ix := Apply(Apply(Apply(s, reput), point), clean).ix;
               Sharded.ReadValue(ix, pk) == Some(w) && Member(ix, pk, r) && Sharded.Get(ix, r) == None
  {
    var s5 := Apply(Apply(HalfEvicted(pk, r), PutRecord(1, pk, r, w, 0)), PutPointer(1, true));
    assert s5.tasks[2] == Clean(pk, [r]) && PointsTo(s5.ix, r, pk);
  }

  lemma RunOfThree(s: State, a: Step, b: Step, c: Step)
    requires Enabled(s, a) && Enabled(Apply(s, a), b) && Enabled(Apply(Apply(s, a), b), c)
    ensures IsRun(s, [a, b, c]) && Final(s, [a, b, c]) == Apply(Apply(Apply(s, a), b), c)
  {
    RunOne(s, [], a);
    RunOne(s, [a], b);
    RunOne(s, [a, b], c);
    assert [] + [a] == [a] && [a] + [b] == [a, b] && [a, b] + [c] == [a, b, c];
  }

  lemma {:induction false} RunAppend(s: State, first: seq<Step>, second: seq<Step>)
    requires IsRun(s, first) && IsRun(Final(s, first), second)
    ensures IsRun(s, first + second) && Final(s, first + second) == Final(Final(s, first), second)
  {
    if second == [] {
      assert first + second == first;
    } else {
      var init, last := second[..|second| - 1], second[|second| - 1];
      RunAppend(s, first, init);
      RunOne(s, first + init, last);
      assert first + second == first + init + [last];
    }
  }

  lemma RunOne(s: State, steps: seq<Step>, step: Step)
    requires IsRun(s, steps) && Enabled(Final(s, steps), step)
    ensures IsRun(s, steps + [step]) && Final(s, steps + [step]) == Apply(Final(s, steps), step)
  {
    assert (steps + [step])[..|steps|] == steps;
  }

  // ---- one client alone does what the sequential operations do ----

  lemma AlonePutByAlias(s: State, c: nat, pk: string, r: Ref, val: string, ttl: int)
    requires c !in s.tasks
    ensures var put := PutRecord(c, pk, r, val, ttl);
            && Enabled(s, put) && Enabled(Apply(s, put), PutPointer(c, true))
            && Apply(Apply(s, put), PutPointer(c, true)) ==
               s.(ix := Sharded.Put(s.ix, pk, r, val, Expiry(s.now, ttl)))
  {
  }

  /** All the clean-up steps of one client, with none failing. */
  function CleanSteps(c: nat, n: nat): seq<Step> {
    seq(n, i => CleanOne(c, true))
  }

  function CleanAll(ix: Index, todo: seq<Ref>, pk: string): Index {
    ix.(pointers := ix.pointers - (set r | r in ix.pointers && r in todo && ix.pointers[r].val == pk))
  }

  lemma {:induction false} AloneClean(s: State, c: nat, pk: string, todo: seq<Ref>, n: nat)
    requires c !in s.tasks && n <= |todo|
    ensures var s' := Cleaning(s, c, pk, todo);
            && IsRun(s', CleanSteps(c, n))
            && Final(s', CleanSteps(c, n)) == Cleaning(s.(ix := CleanAll(s.ix, todo[..n], pk)), c, pk, todo[n..])
  {
    var s' := Cleaning(s, c, pk, todo);
    if n == 0 {
      assert todo[..0] == [] && todo[0..] == todo;
      assert CleanAll(s.ix, [], pk) == s.ix;
    } else {
      AloneClean(s, c, pk, todo, n - 1);
      assert CleanSteps(c, n) == CleanSteps(c, n - 1) + [CleanOne(c, true)];
      CleanStep(s, c, pk, todo, n - 1);
      RunOne(s', CleanSteps(c, n - 1), CleanOne(c, true));
    }
  }

  lemma CleanStep(s: State, c: nat, pk: string, todo: seq<Ref>, k: nat)
    requires c !in s.tasks && k < |todo|
    ensures var s' := Cleaning(s.(ix := CleanAll(s.ix, todo[..k], pk)), c, pk, todo[k..]);
            && Enabled(s', CleanOne(c, true))
            && Apply(s', CleanOne(c, true)) ==
               Cleaning(s.(ix := CleanAll(s.ix, todo[..k + 1], pk)), c, pk, todo[k + 1..])
  {
    assert todo[k..][1..] == todo[k + 1..];
    CleanAllNext(s.ix, todo, pk, k);
    assert s.tasks[c := Clean(pk, todo[k..])] - {c} == s.tasks;
    assert s.tasks[c := Clean(pk, todo[k..])][c := Clean(pk, todo[k + 1..])] == s.tasks[c := Clean(pk, todo[k + 1..])];
  }

  lemma CleanAllNext(ix: Index, todo: seq<Ref>, pk: string, k: nat)
    requires k < |todo|
    ensures CleanAll(ix, todo[..k + 1], pk) == Sharded.CompareAndDelete(CleanAll(ix, todo[..k], pk), todo[k], pk)
  {
    assert todo[..k + 1] == todo[..k] + [todo[k]];
  }

  /** An undisturbed eviction is the sequential EvictByPrimary. */
  lemma AloneEvict(s: State, c: nat, pk: string, members: seq<Ref>)
    requires c !in s.tasks && forall r :: r in members <==> Member(s.ix, pk, r)
    ensures var evict := EvictRecord(c, pk, members);
            && Enabled(s, evict) && IsRun(Apply(s, evict), CleanSteps(c, |members|))
            && Final(Apply(s, evict), CleanSteps(c, |members|)) == s.(ix := Sharded.EvictRecord(s.ix, pk))
  {
    AloneClean(s.(ix := DelRecord(s.ix, pk)), c, pk, members, |members|);
    assert members[..|members|] == members && members[|members|..] == [];
    assert forall r :: r in members <==> Names(FieldsOf(s.ix, pk), r);
    assert CleanAll(DelRecord(s.ix, pk), members, pk) == Sharded.EvictRecord(s.ix, pk);
  }

  /** An undisturbed PutValue is the sequential one. */
  lemma AlonePutValue(s: State, c: nat, pk: string, val: string, ttl: int)
    requires c !in s.tasks
    ensures var put := PutValue(c, pk, val, ttl);
            && Enabled(s, put)
            && Apply(s, put) == s.(ix := Sharded.RecordPut(s.ix, pk, None, val, Expiry(s.now, ttl)))
  {
  }

  /** An undisturbed GetByAlias is the sequential one: a miss at once without a pointer, otherwise what the
      validate step answers; the index stays as it was. */
  lemma AloneGet(s: State, c: nat, r: Ref)
    requires c !in s.tasks
    ensures Enabled(s, ReadPointer(c, r))
    ensures var s' := Apply(s, ReadPointer(c, r));
            if r in s.ix.pointers then
              Enabled(s', ReadRecord(c)) && Answer(s', c) == Sharded.Get(s.ix, r) && Apply(s', ReadRecord(c)) == s
            else s' == s && Sharded.Get(s.ix, r) == None
  {
    assert s.tasks[c := Validate(r, if r in s.ix.pointers then s.ix.pointers[r].val else "")] - {c} == s.tasks;
  }

  /** An undisturbed EvictByAlias is the sequential one: it evicts the record its pointer led to. */
  lemma AloneEvictByAlias(s: State, c: nat, r: Ref, members: seq<Ref>)
    requires c !in s.tasks
    requires r in s.ix.pointers ==> forall m :: m in members <==> Member(s.ix, s.ix.pointers[r].val, m)
    ensures Enabled(s, FindVictim(c, r))
    ensures var found := Apply(s, FindVictim(c, r));
            if r in s.ix.pointers then
              var evict := EvictRecord(c, s.ix.pointers[r].val, members);
              && Enabled(found, evict) && IsRun(Apply(found, evict), CleanSteps(c, |members|))
              && Final(Apply(found, evict), CleanSteps(c, |members|)) == s.(ix := Sharded.EvictThrough(s.ix, r))
            else found == s && Sharded.EvictThrough(s.ix, r) == s.ix
  {
    if r in s.ix.pointers {
      var pk := s.ix.pointers[r].val;
      var found, evict := Apply(s, FindVictim(c, r)), EvictRecord(c, pk, members);
      AloneEvict(s, c, pk, members);
      assert Apply(found, evict) == Apply(s, evict) by {
        assert found.tasks - {c} == s.tasks - {c};
        assert found.tasks[c := Clean(pk, members)] == s.tasks[c := Clean(pk, members)];
      }
    }
  }

  // ---- stability is exactly the absence of a pending clean-up ----

  /** The record is there, names the alias, and its pointer leads to it. */
  ghost predicate InPlace(s: State, pk: string, r: Ref) {
    pk in s.ix.values && Member(s.ix, pk, r) && PointsTo(s.ix, r, pk)
  }

  lemma {:induction false} CleanStepsAreQuiet(s: State, c: nat, n: nat, pk: string, r: Ref)
    requires IsRun(s, CleanSteps(c, n))
    ensures QuietRun(s, CleanSteps(c, n), pk, r)
  {
    if n > 0 {
      assert CleanSteps(c, n)[..n - 1] == CleanSteps(c, n - 1);
      CleanStepsAreQuiet(s, c, n - 1, pk, r);
    }
  }

  /** A pending clean-up that still lists the pointer takes it, in quiet steps. */
  lemma PendingCleanUpTakesPointer(s: State, c: nat, pk: string, r: Ref) returns (steps: seq<Step>)
    requires c in s.tasks && s.tasks[c].Clean? && s.tasks[c].pk == pk && r in s.tasks[c].todo
    ensures IsRun(s, steps) && QuietRun(s, steps, pk, r) && !PointsTo(Final(s, steps).ix, r, pk)
  {
    var todo := s.tasks[c].todo;
    var idle := Idle(s, c);
    assert Cleaning(idle, c, pk, todo) == s by {
      assert idle.tasks[c := Clean(pk, todo)] == s.tasks;
    }
    AloneClean(idle, c, pk, todo, |todo|);
    assert todo[..|todo|] == todo && todo[|todo|..] == [];
    steps := CleanSteps(c, |todo|);
    CleanStepsAreQuiet(s, c, |todo|, pk, r);
  }

  /** An alias in place survives every quiet run exactly when no clean-up of its pointer is pending:
      the late clean-up above is the only thing that quiet steps can do to it. */
  lemma SurvivesQuietRunsIff(s: State, pk: string, r: Ref)
    requires InPlace(s, pk, r)
    ensures (forall steps :: IsRun(s, steps) && QuietRun(s, steps, pk, r) ==> InPlace(Final(s, steps), pk, r)) <==>
            !BeingCleaned(s, pk, r)
  {
    if BeingCleaned(s, pk, r) {
      var c :| c in s.tasks && s.tasks[c].Clean? && s.tasks[c].pk == pk && r in s.tasks[c].todo;
      var steps := PendingCleanUpTakesPointer(s, c, pk, r);
      assert !InPlace(Final(s, steps), pk, r);
    } else {
      forall steps | IsRun(s, steps) && QuietRun(s, steps, pk, r) ensures InPlace(Final(s, steps), pk, r) {
        QuietRunKeeps(s, steps, pk, r);
      }
    }
  }
}
