/** When the in-memory strategy, which only hides expired records, answers as one that drops them:
    exactly as long as no put revives the aliases of an expired record. */
module Revival {
  import opened Basics
  import opened Expiries
  import opened AliasIndex
  import opened RecordTable
  import opened Runs
  import Mem = MemRefinement

  /** The put is to a record that has expired and still has aliases besides the one it registers. */
  predicate Revives(t: Table, op: Op, now: int) {
    match op
    case PutValueOp(pk, _, _) => pk in t && !LiveAt(t[pk].exp, now) && t[pk].aliases != map[]
    case PutByAliasOp(pk, ref, _, _) =>
      pk in t && !LiveAt(t[pk].exp, now) && t[pk].aliases - {ref.field} != map[]
    case _ => false
  }

  // ---- one operation ----

  lemma PutValueCommutesIff(t: Table, pk: string, val: string, exp: Option<int>, now: int)
    requires LiveAt(exp, now)
    ensures TExpire(TPutValue(t, pk, val, exp), now) == TPutValue(TExpire(t, now), pk, val, exp) <==>
            !(pk in t && !LiveAt(t[pk].exp, now) && t[pk].aliases != map[])
  {
    var a, b := TExpire(TPutValue(t, pk, val, exp), now), TPutValue(TExpire(t, now), pk, val, exp);
    assert a[pk].aliases == AliasesOf(t, pk);
    assert b[pk].aliases == if pk in t && !LiveAt(t[pk].exp, now) then map[] else AliasesOf(t, pk);
    assert forall p :: p != pk ==> (p in a <==> p in b) && (p in a ==> a[p] == b[p]);
  }

  lemma PutByAliasCommutesIff(t: Table, pk: string, r: Ref, val: string, exp: Option<int>, now: int)
    requires LiveAt(exp, now)
    ensures TExpire(TPutByAlias(t, pk, r, val, exp), now) == TPutByAlias(TExpire(t, now), pk, r, val, exp) <==>
            !(pk in t && !LiveAt(t[pk].exp, now) && t[pk].aliases - {r.field} != map[])
  {
    var a, b := TExpire(TPutByAlias(t, pk, r, val, exp), now), TPutByAlias(TExpire(t, now), pk, r, val, exp);
    forall p | p != pk ensures (p in a <==> p in b) && (p in a ==> a[p] == b[p]) {
      OthersCommute(t, pk, r, val, exp, now, p);
    }
    var held := AliasesOf(t, pk);
    assert a[pk] == Record(val, held[r.field := r.value], exp);
    if pk in t && !LiveAt(t[pk].exp, now) {
      assert b[pk] == Record(val, map[r.field := r.value], exp);
      OnlyField(held, r);
    } else {
      assert b[pk] == Record(val, held[r.field := r.value], exp);
    }
  }

  lemma OthersCommute(t: Table, pk: string, r: Ref, val: string, exp: Option<int>, now: int, p: string)
    requires p != pk
    ensures var a, b := TExpire(TPutByAlias(t, pk, r, val, exp), now), TPutByAlias(TExpire(t, now), pk, r, val, exp);
            (p in a <==> p in b) && (p in a ==> a[p] == b[p])
  {
  }

  lemma OnlyField(h: map<string, string>, r: Ref)
    ensures h[r.field := r.value] == map[r.field := r.value] <==> h - {r.field} == map[]
  {
    if h[r.field := r.value] == map[r.field := r.value] {
      forall f ensures f !in h - {r.field} {
        assert f in h ==> f in h[r.field := r.value];
      }
    }
  }

  lemma EvictByAliasCommutes(t: Table, r: Ref, now: int)
    requires OneOwner(t)
    ensures TExpire(TEvictByAlias(t, r), now) == TEvictByAlias(TExpire(t, now), r)
  {
    var live := TExpire(t, now);
    assert forall p, s :: Owns(live, p, s) <==> Owns(t, p, s) && LiveAt(t[p].exp, now);
    match Owner(t, r)
    case None =>
      assert Owner(live, r).None?;
    case Some(p) =>
      assert forall q :: Owns(t, q, r) ==> q == p;
      if LiveAt(t[p].exp, now) {
        assert Owns(live, p, r);
        assert Owner(live, r) == Some(p);
      } else {
        assert Owner(live, r).None?;
      }
  }

  lemma EvictByPrefixCommutes(t: Table, prefix: string, now: int)
    ensures TExpire(TEvictByPrefix(t, prefix), now) == TEvictByPrefix(TExpire(t, now), prefix)
  {
  }

  /** Expiring records before an operation or after it comes to the same exactly when the operation
      revives no aliases. */
  lemma CommutesIff(t: Table, op: Op, now: int)
    requires OneOwner(t)
    ensures TExpire(TableOp(t, op, now), now) == TableOp(TExpire(t, now), op, now) <==> !Revives(t, op, now)
  {
    match op
    case PutValueOp(pk, val, ttl) => PutValueCommutesIff(t, pk, val, Expiry(now, ttl), now);
    case PutByAliasOp(pk, ref, val, ttl) => PutByAliasCommutesIff(t, pk, ref, val, Expiry(now, ttl), now);
    case EvictByPrimaryOp(pk) => assert TExpire(TEvict(t, pk), now) == TEvict(TExpire(t, now), pk);
    case EvictByAliasOp(ref) => EvictByAliasCommutes(t, ref, now);
    case EvictByPrefixOp(prefix) => EvictByPrefixCommutes(t, prefix, now);
  }

  lemma TableOpOneOwner(t: Table, op: Op, now: int)
    requires OneOwner(t)
    ensures OneOwner(TableOp(t, op, now))
  {
    match op
    case PutValueOp(pk, val, ttl) =>
      assert forall p, r :: Owns(TPutValue(t, pk, val, Expiry(now, ttl)), p, r) ==> Owns(t, p, r);
    case PutByAliasOp(pk, ref, val, ttl) => PutByAliasOneOwner(t, pk, ref, val, Expiry(now, ttl));
    case _ =>
      assert forall p, r :: Owns(TableOp(t, op, now), p, r) ==> Owns(t, p, r);
  }

  /** Reading a table whose expired records are hidden is reading it without them. */
  lemma HiddenIsDropped(t: Table, now: int, pk: string, r: Ref)
    requires OneOwner(t)
    ensures Mem.LastingGet(t, pk, now) == TGetValue(TExpire(t, now), pk)
    ensures Mem.LastingGetByAlias(t, r, now) == TGetByAlias(TExpire(t, now), r)
  {
    var live := TExpire(t, now);
    assert forall p :: Owns(live, p, r) <==> Owns(t, p, r) && LiveAt(t[p].exp, now);
    if Owner(t, r).Some? {
      var p := Owner(t, r).value;
      assert forall q :: Owns(t, q, r) ==> q == p;
      if LiveAt(t[p].exp, now) {
        assert Owns(live, p, r);
      }
    }
  }

  /** A revived alias is served by the one and missed by the other. */
  lemma RevivalIsServed(t: Table, op: Op, now: int) returns (r: Ref)
    requires OneOwner(t) && Revives(t, op, now)
    ensures Mem.LastingGetByAlias(TableOp(t, op, now), r, now) == Some(op.val)
    ensures TGetByAlias(TableOp(TExpire(t, now), op, now), r) == None
  {
    var pk, h := op.pk, t[op.pk].aliases;
    var field :| field in (if op.PutByAliasOp? then h - {op.ref.field} else h);
    r := Ref(field, h[field]);
    var after, dropped := TableOp(t, op, now), TableOp(TExpire(t, now), op, now);
    TableOpOneOwner(t, op, now);
    assert Owns(t, pk, r);
    assert Owns(after, pk, r);
    OwnerIs(after, pk, r);
    forall p ensures !Owns(dropped, p, r) {
      if Owns(dropped, p, r) {
        if op.PutByAliasOp? {
          PutByAliasOwns(TExpire(t, now), pk, op.ref, op.val, Expiry(now, op.ttl), p, r);
        }
        assert Owns(t, p, r);
      }
    }
  }

  // ---- runs ----

  ghost predicate NoRevival(cs: seq<Call>) {
    forall i :: 0 <= i < |cs| ==> !Revives(LastingTableAfter(cs[..i]), cs[i].op, cs[i].at)
  }

  lemma {:induction false} LastingOneOwner(cs: seq<Call>)
    ensures OneOwner(LastingTableAfter(cs))
  {
    if cs != [] {
      LastingOneOwner(cs[..|cs| - 1]);
      TableOpOneOwner(LastingTableAfter(cs[..|cs| - 1]), cs[|cs| - 1].op, cs[|cs| - 1].at);
    }
  }

  lemma ExpireTwice(t: Table, earlier: int, now: int)
    requires earlier <= now
    ensures TExpire(TExpire(t, earlier), now) == TExpire(t, now)
  {
  }

  lemma {:induction false} UnrevivedTablesAgree(cs: seq<Call>, now: int)
    requires InTime(cs, now) && NoRevival(cs)
    ensures TExpire(LastingTableAfter(cs), now) == TExpire(TableAfter(cs), now)
  {
    if cs != [] {
      var c, before := cs[|cs| - 1], cs[..|cs| - 1];
      assert forall i :: 0 <= i < |before| ==> before[..i] == cs[..i];
      UnrevivedTablesAgree(before, c.at);
      LastingOneOwner(before);
      CommutesIff(LastingTableAfter(before), c.op, c.at);
      ExpireTwice(LastingTableAfter(cs), c.at, now);
    }
  }
}

/** memstore and colocated Redis in timed runs, each in its own clock unit, finite TTLs included. */
module TimedAgreement {
  import opened Basics
  import opened Expiries
  import opened AliasIndex
  import opened RecordTable
  import opened Runs
  import opened Equivalence
  import opened Revival
  import Colocated
  import PointerHistory
  import Sharded
  import M = MemStore
  import Col = ColocatedRefinement
  import Mem = MemRefinement
  import Sh = ShardedRefinement

  // ---- the run in both units ----

  lemma OpSameRecords(t: Table, u: Table, c: Call)
    requires SameContent(t, u) && OneOwner(t)
    ensures SameContent(TableOp(t, c.op, c.at), TableOp(u, OpInMillis(c.op), ClockMillis(c.at)))
  {
    match c.op
    case PutByAliasOp(pk, ref, val, ttl) =>
      PutByAliasSameContent(t, u, pk, ref, val, Expiry(c.at, ttl), Expiry(ClockMillis(c.at), Millis(ttl)));
    case EvictByAliasOp(ref) => SameOwners(t, u, ref);
    case _ =>
  }

  /** The two clock units make no difference to what is held, only to when it expires. */
  lemma {:induction false} RunSameRecords(cs: seq<Call>)
    ensures SameContent(LastingTableAfter(cs), LastingTableAfter(InMillis(cs)))
  {
    if cs != [] {
      var c, before, ms := cs[|cs| - 1], cs[..|cs| - 1], InMillis(cs);
      assert ms[..|ms| - 1] == InMillis(before);
      RunSameRecords(before);
      LastingOneOwner(before);
      OpSameRecords(LastingTableAfter(before), LastingTableAfter(InMillis(before)), c);
    }
  }

  /** At this time both clocks say the same of every record held: live, or expired. */
  ghost predicate SameLives(t: Table, u: Table, now: int) {
    forall p :: p in t && p in u ==> (LiveAt(t[p].exp, now) <==> LiveAt(u[p].exp, ClockMillis(now)))
  }

  ghost predicate ClocksAgree(cs: seq<Call>, now: int) {
    SameLives(LastingTableAfter(cs), LastingTableAfter(InMillis(cs)), now)
  }

  /** The clocks agree at the time of every call, on the records held before it. */
  ghost predicate ClocksAgreeThroughout(cs: seq<Call>) {
    cs == [] || (ClocksAgreeThroughout(cs[..|cs| - 1]) && ClocksAgree(cs[..|cs| - 1], cs[|cs| - 1].at))
  }

  lemma RevivesInBothUnits(t: Table, u: Table, op: Op, now: int)
    requires SameContent(t, u) && SameLives(t, u, now)
    ensures Revives(t, op, now) <==> Revives(u, OpInMillis(op), ClockMillis(now))
  {
  }

  lemma NoRevivalNext(cs: seq<Call>)
    requires cs != []
    ensures var n := |cs| - 1;
            NoRevival(cs) <==> NoRevival(cs[..n]) && !Revives(LastingTableAfter(cs[..n]), cs[n].op, cs[n].at)
  {
    var n := |cs| - 1;
    assert forall i :: 0 <= i < n ==> cs[..n][..i] == cs[..i];
    if NoRevival(cs) {
      forall i | 0 <= i < n ensures !Revives(LastingTableAfter(cs[..n][..i]), cs[..n][i].op, cs[..n][i].at) {
        assert cs[..n][i] == cs[i];
      }
    } else if NoRevival(cs[..n]) {
      forall i | 0 <= i < n ensures !Revives(LastingTableAfter(cs[..i]), cs[i].op, cs[i].at) {
        assert cs[..n][i] == cs[i];
      }
    }
  }

  lemma {:induction false} NoRevivalInMillis(cs: seq<Call>)
    requires NoRevival(cs) && ClocksAgreeThroughout(cs)
    ensures NoRevival(InMillis(cs))
  {
    if cs != [] {
      var n, ms := |cs| - 1, InMillis(cs);
      assert ms[..n] == InMillis(cs[..n]);
      NoRevivalNext(cs);
      NoRevivalInMillis(cs[..n]);
      RunSameRecords(cs[..n]);
      RevivesInBothUnits(LastingTableAfter(cs[..n]), LastingTableAfter(ms[..n]), cs[n].op, cs[n].at);
      NoRevivalNext(ms);
    }
  }

  lemma InTimeInMillis(cs: seq<Call>, now: int)
    requires InTime(cs, now)
    ensures InTime(InMillis(cs), ClockMillis(now))
  {
    forall i | 0 <= i < |cs| ensures InMillis(cs)[i].at == ClockMillis(cs[i].at) {
      InMillisAt(cs, i);
    }
  }

  // ---- the answers ----

  ghost predicate SameAnswers(cs: seq<Call>, now: int, pk: string, r: Ref) {
    var mem, col := Mem.After(cs), Purge(Col.After(InMillis(cs)), ClockMillis(now));
    && M.MemGetValue(mem, pk, now) == Colocated.ReadValue(col, pk)
    && M.MemGetByAlias(mem, r, now, now, now) == Colocated.UnvalidatedGet(col, r)
  }

  /** At this time after this run, memstore and colocated answer every read alike. */
  ghost predicate AnswerAlike(cs: seq<Call>, now: int) {
    forall pk, r :: SameAnswers(cs, now, pk, r)
  }

  /** They answer alike at the time of each call, right before it and right after it. */
  ghost predicate AlikeThroughout(cs: seq<Call>) {
    cs == [] || (var c := cs[|cs| - 1];
                 && AlikeThroughout(cs[..|cs| - 1])
                 && AnswerAlike(cs[..|cs| - 1], c.at)
                 && AnswerAlike(cs, c.at))
  }

  lemma ReadsInBothUnits(t: Table, u: Table, now: int, pk: string, r: Ref)
    requires SameContent(t, u) && OneOwner(t) && SameLives(t, u, now)
    ensures Mem.LastingGet(t, pk, now) == Mem.LastingGet(u, pk, ClockMillis(now))
    ensures Mem.LastingGetByAlias(t, r, now) == Mem.LastingGetByAlias(u, r, ClockMillis(now))
  {
    SameOwners(t, u, r);
  }

  /** Memstore's answers, in terms of its table in nanoseconds and in milliseconds. */
  lemma MemAnswers(cs: seq<Call>, now: int, pk: string, r: Ref)
    requires forall i :: 0 <= i < |cs| ==> InOrder(cs[i])
    ensures var mem, u := Mem.After(cs), TExpire(LastingTableAfter(InMillis(cs)), ClockMillis(now));
            && M.MemGetValue(mem, pk, now) == Mem.LastingGet(LastingTableAfter(cs), pk, now)
            && (ClocksAgree(cs, now) ==>
                  && M.MemGetValue(mem, pk, now) == TGetValue(u, pk)
                  && M.MemGetByAlias(mem, r, now, now, now) == TGetByAlias(u, r))
  {
    var t, u := LastingTableAfter(cs), LastingTableAfter(InMillis(cs));
    Mem.EveryReadAgrees(cs, pk, r, now, now, now);
    RunSameRecords(cs);
    LastingOneOwner(cs);
    LastingOneOwner(InMillis(cs));
    HiddenIsDropped(u, ClockMillis(now), pk, r);
    if ClocksAgree(cs, now) {
      ReadsInBothUnits(t, u, now, pk, r);
    }
  }

  /** As long as nothing was revived and the clocks agreed at every call, the two strategies answer
      every read alike exactly when the clocks agree at the time of the reads. */
  lemma AlikeIffClocksAgree(cs: seq<Call>, now: int)
    requires InTime(cs, now) && forall i :: 0 <= i < |cs| ==> InOrder(cs[i])
    requires NoRevival(cs) && ClocksAgreeThroughout(cs)
    ensures AnswerAlike(cs, now) <==> ClocksAgree(cs, now)
  {
    var ms, time := InMillis(cs), ClockMillis(now);
    TablesAgreeInMillis(cs, now);
    if ClocksAgree(cs, now) {
      forall pk, r ensures SameAnswers(cs, now, pk, r) {
        MemAnswers(cs, now, pk, r);
        Col.EveryReadAgrees(ms, time, pk, r);
      }
    } else {
      var t, u := LastingTableAfter(cs), LastingTableAfter(ms);
      var p :| p in t && p in u && (LiveAt(t[p].exp, now) <==> !LiveAt(u[p].exp, time));
      MemAnswers(cs, now, p, Ref("", ""));
      Col.EveryReadAgrees(ms, time, p, Ref("", ""));
      assert TGetValue(TExpire(u, time), p).Some? <==> LiveAt(u[p].exp, time);
      assert !SameAnswers(cs, now, p, Ref("", ""));
    }
  }

  /** In every timed run, the clocks agreeing and no put reviving an expired record's aliases, the two
      strategies answer every read at every later time alike. */
  lemma UnrevivedRunsAgree(cs: seq<Call>, now: int)
    requires InTime(cs, now) && forall i :: 0 <= i < |cs| ==> InOrder(cs[i])
    requires NoRevival(cs) && ClocksAgreeThroughout(cs) && ClocksAgree(cs, now)
    ensures AnswerAlike(cs, now)
  {
    AlikeIffClocksAgree(cs, now);
  }

  lemma StaysMissing(t: Table, now: int, r: Ref)
    requires TGetByAlias(t, r) == None
    ensures TGetByAlias(TExpire(t, now), r) == None
  {
    assert forall p :: Owns(TExpire(t, now), p, r) ==> Owns(t, p, r);
  }

  /** A put's own expiry is ahead on both clocks; no operation changes another record's. */
  lemma OpKeepsLives(t: Table, u: Table, c: Call)
    requires SameContent(t, u) && SameLives(t, u, c.at)
    ensures SameLives(TableOp(t, c.op, c.at), TableOp(u, OpInMillis(c.op), ClockMillis(c.at)), c.at)
  {
    var op, time := OpInMillis(c.op), ClockMillis(c.at);
    var t', u' := TableOp(t, c.op, c.at), TableOp(u, op, time);
    forall p | p in t' && p in u' ensures LiveAt(t'[p].exp, c.at) <==> LiveAt(u'[p].exp, time) {
      ExpiryAfterOp(t, c.op, c.at, p);
      ExpiryAfterOp(u, op, time, p);
    }
  }

  lemma ExpiryAfterOp(t: Table, op: Op, now: int, p: string)
    requires p in TableOp(t, op, now)
    ensures if (op.PutValueOp? || op.PutByAliasOp?) && op.pk == p then TableOp(t, op, now)[p].exp == Expiry(now, op.ttl)
            else p in t && TableOp(t, op, now)[p].exp == t[p].exp
  {
  }

  lemma CallKeepsClocks(cs: seq<Call>)
    requires cs != [] && ClocksAgree(cs[..|cs| - 1], cs[|cs| - 1].at)
    ensures ClocksAgree(cs, cs[|cs| - 1].at)
  {
    var c, before, ms := cs[|cs| - 1], cs[..|cs| - 1], InMillis(cs);
    assert ms[..|ms| - 1] == InMillis(before);
    RunSameRecords(before);
    OpKeepsLives(LastingTableAfter(before), LastingTableAfter(InMillis(before)), c);
  }

  /** The first revival is visible at once. */
  lemma FirstRevivalShows(cs: seq<Call>)
    requires cs != [] && forall i :: 0 <= i < |cs| ==> InOrder(cs[i])
    requires var before, c := cs[..|cs| - 1], cs[|cs| - 1];
             && InTime(before, c.at) && NoRevival(before)
             && ClocksAgreeThroughout(before) && ClocksAgree(before, c.at)
             && Revives(LastingTableAfter(before), c.op, c.at)
    ensures !AnswerAlike(cs, cs[|cs| - 1].at)
  {
    var c, before := cs[|cs| - 1], cs[..|cs| - 1];
    var op, time := OpInMillis(c.op), ClockMillis(c.at);
    var t := LastingTableAfter(InMillis(before));
    RunSameRecords(before);
    RevivesInBothUnits(LastingTableAfter(before), t, c.op, c.at);
    LastingOneOwner(InMillis(before));
    TablesAgreeInMillis(before, c.at);
    var r := RevivalIsServed(t, op, time);
    RevivedAnswersDiffer(cs, r);
  }

  lemma TablesAgreeInMillis(cs: seq<Call>, now: int)
    requires InTime(cs, now) && NoRevival(cs) && ClocksAgreeThroughout(cs)
    ensures var ms, time := InMillis(cs), ClockMillis(now);
            TExpire(LastingTableAfter(ms), time) == TExpire(TableAfter(ms), time)
  {
    NoRevivalInMillis(cs);
    InTimeInMillis(cs, now);
    UnrevivedTablesAgree(InMillis(cs), ClockMillis(now));
  }

  lemma RevivedAnswersDiffer(cs: seq<Call>, r: Ref)
    requires cs != [] && ClocksAgree(cs[..|cs| - 1], cs[|cs| - 1].at)
    requires forall i :: 0 <= i < |cs| ==> InOrder(cs[i])
    requires var c, u := cs[|cs| - 1], InMillis(cs[..|cs| - 1]);
             var op, time := OpInMillis(c.op), ClockMillis(c.at);
             && Mem.LastingGetByAlias(TableOp(LastingTableAfter(u), op, time), r, time).Some?
             && TGetByAlias(TableOp(TExpire(TableAfter(u), time), op, time), r) == None
    ensures !AnswerAlike(cs, cs[|cs| - 1].at)
  {
    var now, ms := cs[|cs| - 1].at, InMillis(cs);
    assert ms[..|ms| - 1] == InMillis(cs[..|cs| - 1]);
    CallKeepsClocks(cs);
    MemAnswers(cs, now, "", r);
    LastingOneOwner(ms);
    HiddenIsDropped(LastingTableAfter(ms), ClockMillis(now), "", r);
    Col.EveryReadAgrees(ms, ClockMillis(now), "", r);
    StaysMissing(TableAfter(ms), ClockMillis(now), r);
    assert !SameAnswers(cs, now, "", r);
  }

  /** The last call, after a run in which all went well. */
  lemma LastCallAlikeIff(cs: seq<Call>)
    requires cs != [] && InTime(cs, cs[|cs| - 1].at) && forall i :: 0 <= i < |cs| ==> InOrder(cs[i])
    requires NoRevival(cs[..|cs| - 1]) && ClocksAgreeThroughout(cs[..|cs| - 1])
    ensures var before, now := cs[..|cs| - 1], cs[|cs| - 1].at;
            AnswerAlike(before, now) && AnswerAlike(cs, now) <==> NoRevival(cs) && ClocksAgree(before, now)
  {
    var before, now := cs[..|cs| - 1], cs[|cs| - 1].at;
    AlikeIffClocksAgree(before, now);
    NoRevivalNext(cs);
    if ClocksAgree(before, now) {
      if NoRevival(cs) {
        CallKeepsClocks(cs);
        AlikeIffClocksAgree(cs, now);
      } else {
        FirstRevivalShows(cs);
      }
    }
  }

  /** In every timed run: the two strategies answer every read alike, before and after each call,
      exactly when no put revives the aliases of an expired record and both clocks agree, at each call,
      on which of the records held have expired. */
  lemma {:induction false} AgreeThroughoutIff(cs: seq<Call>)
    requires forall i :: 0 <= i < |cs| ==> InOrder(cs[i])
    requires forall i, j :: 0 <= i < j < |cs| ==> cs[i].at <= cs[j].at
    ensures AlikeThroughout(cs) <==> NoRevival(cs) && ClocksAgreeThroughout(cs)
  {
    if cs != [] {
      AgreeThroughoutIff(cs[..|cs| - 1]);
      NoRevivalNext(cs);
      if NoRevival(cs[..|cs| - 1]) && ClocksAgreeThroughout(cs[..|cs| - 1]) {
        LastCallAlikeIff(cs);
      }
    }
  }

  // ---- when the clocks agree ----

  /** Both clocks agree at this time on whether what the call stores has expired. */
  predicate SameLife(c: Call, time: int)
    requires c.op.PutValueOp? || c.op.PutByAliasOp?
  {
    LiveAt(Expiry(c.at, c.op.ttl), time) <==>
    LiveAt(Expiry(ClockMillis(c.at), Millis(c.op.ttl)), ClockMillis(time))
  }

  /** Both tables hold a record's expiry from one put. */
  lemma {:induction false} HeldFrom(cs: seq<Call>, p: string) returns (i: nat)
    requires p in LastingTableAfter(cs)
    ensures i < |cs| && (cs[i].op.PutValueOp? || cs[i].op.PutByAliasOp?) && cs[i].op.pk == p
    ensures LastingTableAfter(cs)[p].exp == Expiry(cs[i].at, cs[i].op.ttl)
    ensures p in LastingTableAfter(InMillis(cs)) &&
            LastingTableAfter(InMillis(cs))[p].exp == Expiry(ClockMillis(cs[i].at), Millis(cs[i].op.ttl))
  {
    var n, ms := |cs| - 1, InMillis(cs);
    assert ms[..n] == InMillis(cs[..n]);
    RunSameRecords(cs);
    if (cs[n].op.PutValueOp? || cs[n].op.PutByAliasOp?) && cs[n].op.pk == p {
      i := n;
    } else {
      i := HeldFrom(cs[..n], p);
    }
  }

  /** The clocks agree when they do on every put of the run. */
  lemma SameLivesFromCalls(cs: seq<Call>, now: int)
    requires forall i :: 0 <= i < |cs| && (cs[i].op.PutValueOp? || cs[i].op.PutByAliasOp?) ==> SameLife(cs[i], now)
    ensures ClocksAgree(cs, now)
  {
    forall p | p in LastingTableAfter(cs)
      ensures p in LastingTableAfter(InMillis(cs))
      ensures LiveAt(LastingTableAfter(cs)[p].exp, now) <==>
              LiveAt(LastingTableAfter(InMillis(cs))[p].exp, ClockMillis(now))
    {
      var i := HeldFrom(cs, p);
    }
  }

  /** They can part only within two milliseconds before an expiry or one after it, unless the TTL is
      below a millisecond, which Redis reads as none. */
  lemma SameLifeOutsideWindow(c: Call, time: int)
    requires c.op.PutValueOp? || c.op.PutByAliasOp?
    requires 0 < c.op.ttl ==> MILLI <= c.op.ttl
    requires 0 < c.op.ttl ==> !(c.at + c.op.ttl - 2 * MILLI < time < c.at + c.op.ttl + MILLI)
    ensures SameLife(c, time)
  {
  }

  /** And never at whole milliseconds. */
  lemma SameLifeAtWholeMillis(c: Call, time: int)
    requires c.op.PutValueOp? || c.op.PutByAliasOp?
    requires c.at % MILLI == 0 && c.op.ttl % MILLI == 0 && time % MILLI == 0
    ensures SameLife(c, time)
  {
  }

  // ---- all three strategies ----

  /** All three strategies, in timed runs with finite TTLs: reads by key agree; reads by alias agree in
      memory and colocated, and in sharded exactly unless the alias has an owner but the TTL given
      with its last registration has run out. */
  lemma TimedThreeWay(cs: seq<Call>, now: int, pk: string, r: Ref)
    requires InTime(cs, now) && forall i :: 0 <= i < |cs| ==> InOrder(cs[i])
    requires NoRevival(cs) && ClocksAgreeThroughout(cs) && ClocksAgree(cs, now)
    requires Sh.EvictsRightly(InMillis(cs))
    ensures var ms, time := InMillis(cs), ClockMillis(now);
            var sh := Purge(Sh.After(ms), time);
            && SameAnswers(cs, now, pk, r)
            && Sharded.ReadValue(sh, pk) == M.MemGetValue(Mem.After(cs), pk, now)
            && (Sharded.Get(sh, r) != M.MemGetByAlias(Mem.After(cs), r, now, now, now) <==>
                Owner(TExpire(TableAfter(ms), time), r).Some? && !PointerHistory.StillRegistered(ms, r, time))
  {
    UnrevivedRunsAgree(cs, now);
    assert SameAnswers(cs, now, pk, r);
    InTimeInMillis(cs, now);
    PointerHistory.ShardedDiffersIff(InMillis(cs), ClockMillis(now), r);
    ShardedHitsAreColocatedHits(InMillis(cs), ClockMillis(now), r);
  }
}
