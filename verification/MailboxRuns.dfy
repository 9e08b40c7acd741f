/** Whole runs of the relay: acks, sweeps, pair activations and PUTs, each PUT in
    two steps between which anything else may run, under a clock that never goes
    back. History multisets record which envelopes were answered as accepted, and
    which went by ack and by sweep. */
module MailboxRuns {
  import opened Lex
  import opened Foreign
  import opened Storage
  import opened Mailbox
  import Sweep
  import Uuid
  import Times

  /** An envelope's identity on the wire. */
  datatype Stamp = Stamp(msgId: string, ts: string)

  /** A PUT that has passed its checks at `now` and is about to insert its row. */
  datatype Flight = Flight(row: Row, body: Body, now: int)

  datatype Event =
    /** Every check of a PUT, the replay window included. */
    | CheckEvent(who: nat, pathId: string, body: Body, signature: string, now: int)
    /** The insert of a checked PUT at one instant, with a clock reading taken since. */
    | InsertEvent(who: nat, received: int, at: int)
    | AckEvent(pathId: string, ids: Option<seq<string>>, signature: string)
    /** A sweep at one instant, for a clock reading taken no later. */
    | SweepEvent(now: int, at: int)
    | PairEvent(pair: Pair)

  datatype Relay = Relay(
    envs: Envelopes, pairs: Pairs, clock: int, flight: map<nat, Flight>,
    accepted: multiset<Stamp>, acked: multiset<Stamp>, swept: multiset<Stamp>)

  function TsOf(r: Row): string {
    if r.outerJson.decoded.Some? then r.outerJson.decoded.value.ts else ""
  }

  function StampsOf(envs: Envelopes): multiset<Stamp> {
    multiset(set m | m in envs :: Stamp(m, TsOf(envs[m])))
  }

  function Removed(was: Envelopes, envs: Envelopes): Envelopes {
    map m | m in was && m !in envs :: was[m]
  }

  /** The envelope that a PUT was told is accepted. */
  function AcceptedStamp(body: Body, reply: Reply): multiset<Stamp> {
    if reply.Accepted? && body.decoded.Some? then multiset{Stamp(reply.msgId, body.decoded.value.ts)} else multiset{}
  }

  /** Time does not go back, no pair is replaced, and a PUT inserts at most `gap`
      after its window check. */
  predicate Legal(gap: nat, s: Relay, ev: Event) {
    match ev
    case CheckEvent(who, _, _, _, now) => who !in s.flight && s.clock <= now
    case InsertEvent(who, received, at) =>
      who in s.flight && s.flight[who].now <= received <= at <= s.flight[who].now + gap && s.clock <= at
    case AckEvent(_, _, _) => true
    case SweepEvent(now, at) => now <= at && s.clock <= at
    case PairEvent(pair) => pair.pathId !in s.pairs
  }

  function AfterCheck(lib: Library, s: Relay, who: nat, pathId: string, body: Body, signature: string, now: int): Relay {
    if PutProblem(lib, s.pairs, pathId, body, signature, now).Some? then s.(clock := now)
    else s.(clock := now, flight := s.flight[who := Flight(PutRow(lib, s.pairs, pathId, body, signature, now, now), body, now)])
  }

  function RowAt(f: Flight, received: int): Row {
    f.row.(receivedAt := Second(received))
  }

  function AfterInsert(s: Relay, who: nat, received: int, at: int): Relay
    requires who in s.flight
  {
    var (envs, reply) := InsertStep(s.envs, RowAt(s.flight[who], received));
    AfterPut(s.(flight := s.flight - {who}), envs, reply, s.flight[who].body, at)
  }

  function AfterPut(s: Relay, envs: Envelopes, reply: Reply, body: Body, at: int): Relay {
    s.(envs := envs, clock := at, accepted := s.accepted + AcceptedStamp(body, reply))
  }

  function AfterAck(s: Relay, envs: Envelopes): Relay {
    s.(envs := envs, acked := s.acked + StampsOf(Removed(s.envs, envs)))
  }

  function AfterSweep(s: Relay, envs: Envelopes, at: int): Relay {
    s.(envs := envs, clock := at, swept := s.swept + StampsOf(Removed(s.envs, envs)))
  }

  ghost function Step(lib: Library, maxAge: int, s: Relay, ev: Event): Relay {
    match ev
    case CheckEvent(who, pathId, body, signature, now) => AfterCheck(lib, s, who, pathId, body, signature, now)
    case InsertEvent(who, received, at) => if who in s.flight then AfterInsert(s, who, received, at) else s
    case AckEvent(pathId, ids, signature) => AfterAck(s, AckStep(lib, s.envs, s.pairs, pathId, ids, signature).0)
    case SweepEvent(now, at) => AfterSweep(s, DeleteOlder(s.envs, now - maxAge), at)
    case PairEvent(pair) => s.(pairs := s.pairs[pair.pathId := pair])
  }

  ghost function Run(lib: Library, maxAge: int, s: Relay, evs: seq<Event>): Relay {
    if evs == [] then s else Step(lib, maxAge, Run(lib, maxAge, s, evs[..|evs| - 1]), evs[|evs| - 1])
  }

  ghost predicate LegalRun(lib: Library, maxAge: int, gap: nat, s: Relay, evs: seq<Event>) {
    evs == [] ||
    (LegalRun(lib, maxAge, gap, s, evs[..|evs| - 1]) &&
     Legal(gap, Run(lib, maxAge, s, evs[..|evs| - 1]), evs[|evs| - 1]))
  }

  function Empty(clock: int): Relay {
    Relay(map[], map[], clock, map[], multiset{}, multiset{}, multiset{})
  }

  // ---- Conservation ----

  /** A row sits under its own id with the envelope it was accepted with. */
  predicate RowOk(m: string, row: Row) {
    row.msgId == m && Uuid.Uuidv7(m) && row.outerJson.decoded.Some? && row.outerJson.decoded.value.msgId == m
  }

  ghost predicate Conserved(s: Relay) {
    s.accepted == StampsOf(s.envs) + s.acked + s.swept
  }

  /** The row in flight is made of the body in flight. */
  predicate FlightOk(f: Flight) {
    RowOk(f.row.msgId, f.row) && f.row.outerJson == f.body
  }

  /** What every step keeps. */
  ghost predicate Inv(s: Relay) {
    Conserved(s) && (forall m :: m in s.envs ==> RowOk(m, s.envs[m])) &&
    (forall who :: who in s.flight ==> FlightOk(s.flight[who]))
  }

  lemma StampsSplit(was: Envelopes, envs: Envelopes)
    requires forall m :: m in envs ==> m in was && envs[m] == was[m]
    ensures StampsOf(was) == StampsOf(envs) + StampsOf(Removed(was, envs))
  {
    var gone := Removed(was, envs);
    var a, b, c := set m | m in was :: Stamp(m, TsOf(was[m])),
                   set m | m in envs :: Stamp(m, TsOf(envs[m])),
                   set m | m in gone :: Stamp(m, TsOf(gone[m]));
    forall x | x in a
      ensures x in b || x in c
    {
      assert x.msgId in envs || x.msgId in gone;
    }
    assert a == b + c && b !! c;
  }

  lemma OneStamp(m: string, row: Row)
    ensures StampsOf(map[m := row]) == multiset{Stamp(m, TsOf(row))}
  {
    var envs := map[m := row];
    var stamps := set k | k in envs :: Stamp(k, TsOf(envs[k]));
    assert m in envs && envs[m] == row;
    assert stamps == {Stamp(m, TsOf(row))};
  }

  lemma WithoutOne(envs: Envelopes, m: string)
    requires m in envs
    ensures StampsOf(envs) == StampsOf(envs - {m}) + multiset{Stamp(m, TsOf(envs[m]))}
  {
    StampsSplit(envs, envs - {m});
    assert Removed(envs, envs - {m}) == map[m := envs[m]];
    OneStamp(m, envs[m]);
  }

  /** The stamps stored are as many as the rows. */
  lemma {:induction false} StampsSize(envs: Envelopes)
    ensures |StampsOf(envs)| == |envs|
    decreases envs.Keys
  {
    if envs == map[] {
      assert StampsOf(envs) == multiset{};
    } else {
      var m :| m in envs;
      WithoutOne(envs, m);
      StampsSize(envs - {m});
      assert (envs - {m}).Keys == envs.Keys - {m};
    }
  }

  lemma AckKeepsRows(lib: Library, envs: Envelopes, pairs: Pairs, pathId: string, ids: Option<seq<string>>, signature: string)
    ensures var after := AckStep(lib, envs, pairs, pathId, ids, signature).0;
            forall m :: m in after ==> m in envs && after[m] == envs[m]
  {
  }

  lemma RowIsBody(lib: Library, pairs: Pairs, pathId: string, body: Body, signature: string, now: int, received: int)
    requires PutProblem(lib, pairs, pathId, body, signature, now).None?
    ensures body.decoded.Some?
    ensures var row := PutRow(lib, pairs, pathId, body, signature, now, received);
            row.msgId == body.decoded.value.msgId && row.outerJson == body && row.receivedAt == Second(received) && row.pathId == pathId
  {
  }

  lemma PassedChecks(lib: Library, pairs: Pairs, pathId: string, body: Body, signature: string, now: int)
    requires PutProblem(lib, pairs, pathId, body, signature, now).None?
    ensures body.decoded.Some? && Uuid.Uuidv7(body.decoded.value.msgId) && TsInWindow(lib, body.decoded.value.ts, now)
  {
    ChecksExactly(lib, pairs, pathId, body, signature, now);
  }

  lemma AcceptedRow(lib: Library, pairs: Pairs, pathId: string, body: Body, signature: string, now: int, received: int)
    requires PutProblem(lib, pairs, pathId, body, signature, now).None?
    ensures var row := PutRow(lib, pairs, pathId, body, signature, now, received);
            RowOk(row.msgId, row) && row.receivedAt == Second(received) && TsInWindow(lib, TsOf(row), now)
  {
    PassedChecks(lib, pairs, pathId, body, signature, now);
    RowIsBody(lib, pairs, pathId, body, signature, now, received);
    BodyRow(PutRow(lib, pairs, pathId, body, signature, now, received), body);
  }

  lemma BodyRow(row: Row, body: Body)
    requires body.decoded.Some? && row.msgId == body.decoded.value.msgId && row.outerJson == body
    ensures TsOf(row) == body.decoded.value.ts
    ensures Uuid.Uuidv7(row.msgId) ==> RowOk(row.msgId, row)
  {
  }

  lemma Rebalance(total: multiset<Stamp>, was: multiset<Stamp>, kept: multiset<Stamp>, gone: multiset<Stamp>,
                  acked: multiset<Stamp>, swept: multiset<Stamp>)
    requires total == was + acked + swept && was == kept + gone
    ensures total == kept + (acked + gone) + swept
    ensures total == kept + acked + (swept + gone)
  {
  }

  lemma PutConserves(s: Relay, t: Relay)
    requires Conserved(s) && forall m :: m in s.envs ==> m in t.envs && t.envs[m] == s.envs[m]
    requires t.accepted == s.accepted + StampsOf(Removed(t.envs, s.envs)) && t.acked == s.acked && t.swept == s.swept
    ensures Conserved(t)
  {
    StampsSplit(t.envs, s.envs);
    assert forall k :: t.accepted[k] == (StampsOf(t.envs) + t.acked + t.swept)[k];
  }

  lemma LossConserves(s: Relay, t: Relay)
    requires Conserved(s) && forall m :: m in t.envs ==> m in s.envs && t.envs[m] == s.envs[m]
    requires var gone := StampsOf(Removed(s.envs, t.envs));
             t.accepted == s.accepted &&
             ((t.acked == s.acked + gone && t.swept == s.swept) || (t.acked == s.acked && t.swept == s.swept + gone))
    ensures Conserved(t)
  {
    StampsSplit(s.envs, t.envs);
    Rebalance(s.accepted, StampsOf(s.envs), StampsOf(t.envs), StampsOf(Removed(s.envs, t.envs)), s.acked, s.swept);
  }

  lemma FreshRow(envs: Envelopes, row: Row)
    requires row.msgId !in envs
    ensures StampsOf(Removed(envs[row.msgId := row], envs)) == multiset{Stamp(row.msgId, TsOf(row))}
  {
    assert Removed(envs[row.msgId := row], envs) == map[row.msgId := row];
    OneStamp(row.msgId, row);
  }

  lemma NothingNew(envs: Envelopes)
    ensures StampsOf(Removed(envs, envs)) == multiset{}
  {
    assert Removed(envs, envs) == map[];
    StampsSize(map[]);
  }

  lemma InsertAdds(envs: Envelopes, body: Body, row: Row)
    requires body.decoded.Some? && row.msgId == body.decoded.value.msgId && row.outerJson == body
    ensures var (after, reply) := InsertStep(envs, row);
            StampsOf(Removed(after, envs)) == AcceptedStamp(body, reply) && |after| - |envs| == if reply.Accepted? then 1 else 0
  {
    NothingNew(envs);
    if row.msgId !in envs {
      FreshRow(envs, row);
      assert envs[row.msgId := row].Keys == envs.Keys + {row.msgId};
    }
  }

  /** The table after a PUT: as it was, or with one good row more. */
  ghost predicate Grown(envs: Envelopes, after: Envelopes) {
    (forall m :: m in envs ==> m in after && after[m] == envs[m]) &&
    (forall m :: m in after && m !in envs ==> RowOk(m, after[m]))
  }

  lemma InsertGrown(envs: Envelopes, row: Row)
    requires RowOk(row.msgId, row)
    ensures Grown(envs, InsertStep(envs, row).0)
  {
  }

  lemma AfterPutKeepsInv(s: Relay, after: Envelopes, reply: Reply, body: Body, at: int)
    requires Inv(s) && Grown(s.envs, after) && StampsOf(Removed(after, s.envs)) == AcceptedStamp(body, reply)
    ensures Inv(AfterPut(s, after, reply, body, at))
  {
    PutConserves(s, AfterPut(s, after, reply, body, at));
  }

  /** An insert adds to the table exactly what its PUT is told is accepted. */
  lemma AcceptedIsAdded(s: Relay, who: nat, received: int, at: int)
    requires Inv(s) && who in s.flight
    ensures var (after, reply) := InsertStep(s.envs, RowAt(s.flight[who], received));
            AfterInsert(s, who, received, at).envs == after && Grown(s.envs, after) &&
            StampsOf(Removed(after, s.envs)) == AcceptedStamp(s.flight[who].body, reply) &&
            |after| - |s.envs| == if reply.Accepted? then 1 else 0
  {
    var f := s.flight[who];
    InsertAdds(s.envs, f.body, RowAt(f, received));
    InsertGrown(s.envs, RowAt(f, received));
  }

  lemma InsertKeepsInv(s: Relay, who: nat, received: int, at: int)
    requires Inv(s) && who in s.flight
    ensures Inv(AfterInsert(s, who, received, at))
  {
    AcceptedIsAdded(s, who, received, at);
    var (after, reply) := InsertStep(s.envs, RowAt(s.flight[who], received));
    AfterPutKeepsInv(s.(flight := s.flight - {who}), after, reply, s.flight[who].body, at);
  }

  lemma CheckKeepsInv(lib: Library, s: Relay, who: nat, pathId: string, body: Body, signature: string, now: int)
    requires Inv(s)
    ensures Inv(AfterCheck(lib, s, who, pathId, body, signature, now))
  {
    if PutProblem(lib, s.pairs, pathId, body, signature, now).None? {
      AcceptedRow(lib, s.pairs, pathId, body, signature, now, now);
      RowIsBody(lib, s.pairs, pathId, body, signature, now, now);
      TakeOff(s, who, Flight(PutRow(lib, s.pairs, pathId, body, signature, now, now), body, now));
    }
  }

  lemma TakeOff(s: Relay, who: nat, f: Flight)
    requires Inv(s) && FlightOk(f)
    ensures Inv(s.(clock := f.now, flight := s.flight[who := f]))
  {
  }

  lemma AckStepKeepsInv(lib: Library, maxAge: int, s: Relay, ev: Event)
    requires Inv(s) && ev.AckEvent?
    ensures Inv(Step(lib, maxAge, s, ev))
  {
    AckKeepsRows(lib, s.envs, s.pairs, ev.pathId, ev.ids, ev.signature);
    LossConserves(s, Step(lib, maxAge, s, ev));
  }

  lemma StepKeepsInv(lib: Library, maxAge: int, s: Relay, ev: Event)
    requires Inv(s)
    ensures Inv(Step(lib, maxAge, s, ev))
  {
    match ev
    case CheckEvent(who, pathId, body, signature, now) => CheckKeepsInv(lib, s, who, pathId, body, signature, now);
    case InsertEvent(who, received, at) =>
      if who in s.flight {
        InsertKeepsInv(s, who, received, at);
      }
    case AckEvent(_, _, _) => AckStepKeepsInv(lib, maxAge, s, ev);
    case SweepEvent(_, _) => LossConserves(s, Step(lib, maxAge, s, ev));
    case PairEvent(_) =>
  }

  lemma {:induction false} RunKeepsInv(lib: Library, maxAge: int, s: Relay, evs: seq<Event>)
    requires Inv(s)
    ensures Inv(Run(lib, maxAge, s, evs))
  {
    if evs != [] {
      RunKeepsInv(lib, maxAge, s, evs[..|evs| - 1]);
      StepKeepsInv(lib, maxAge, Run(lib, maxAge, s, evs[..|evs| - 1]), evs[|evs| - 1]);
    }
  }

  /** Over any run, accepted = stored + acknowledged away + swept: envelope by
      envelope, and so in number. */
  lemma Conservation(lib: Library, maxAge: int, clock: int, evs: seq<Event>)
    ensures var s := Run(lib, maxAge, Empty(clock), evs);
            s.accepted == StampsOf(s.envs) + s.acked + s.swept &&
            |s.accepted| == |s.envs| + |s.acked| + |s.swept|
  {
    RunKeepsInv(lib, maxAge, Empty(clock), evs);
    StampsSize(Run(lib, maxAge, Empty(clock), evs).envs);
  }

  // ---- The same in the numbers that are reported ----

  /** How many envelopes a caller was told are accepted, acks reported as evicted
      and sweeps reported as evicted. */
  datatype Tally = Tally(accepted: nat, evicted: nat, swept: nat)

  ghost function ToldAt(lib: Library, maxAge: int, s: Relay, ev: Event): Tally {
    match ev
    case CheckEvent(_, _, _, _, _) => Tally(0, 0, 0)
    case InsertEvent(who, received, _) =>
      Tally(if who in s.flight && InsertStep(s.envs, RowAt(s.flight[who], received)).1.Accepted? then 1 else 0, 0, 0)
    case AckEvent(pathId, ids, signature) =>
      var reply := AckStep(lib, s.envs, s.pairs, pathId, ids, signature).1;
      Tally(0, if reply.Evicted? then reply.count else 0, 0)
    case SweepEvent(now, _) => Tally(0, 0, Sweep.Swept(s.envs, now - maxAge))
    case PairEvent(_) => Tally(0, 0, 0)
  }

  ghost function Told(lib: Library, maxAge: int, s: Relay, evs: seq<Event>): Tally {
    if evs == [] then Tally(0, 0, 0)
    else
      var before := Told(lib, maxAge, s, evs[..|evs| - 1]);
      var last := ToldAt(lib, maxAge, Run(lib, maxAge, s, evs[..|evs| - 1]), evs[|evs| - 1]);
      Tally(before.accepted + last.accepted, before.evicted + last.evicted, before.swept + last.swept)
  }

  lemma AckToldIsDone(lib: Library, maxAge: int, s: Relay, ev: Event)
    requires ev.AckEvent?
    ensures var told := ToldAt(lib, maxAge, s, ev);
            told.accepted == told.swept == 0 && |Step(lib, maxAge, s, ev).envs| + told.evicted == |s.envs|
  {
    AckCounts(lib, s.envs, s.pairs, ev.pathId, ev.ids, ev.signature);
  }

  /** What one event reports is what it does to the table. */
  lemma ToldIsDone(lib: Library, maxAge: int, s: Relay, ev: Event)
    requires Inv(s)
    ensures var told := ToldAt(lib, maxAge, s, ev);
            |Step(lib, maxAge, s, ev).envs| + told.evicted + told.swept == |s.envs| + told.accepted
  {
    match ev
    case CheckEvent(_, _, _, _, _) =>
    case InsertEvent(who, received, at) =>
      if who in s.flight {
        AcceptedIsAdded(s, who, received, at);
      }
    case AckEvent(_, _, _) => AckToldIsDone(lib, maxAge, s, ev);
    case SweepEvent(_, _) =>
    case PairEvent(_) =>
  }

  lemma AckCounts(lib: Library, envs: Envelopes, pairs: Pairs, pathId: string, ids: Option<seq<string>>, signature: string)
    ensures var (after, reply) := AckStep(lib, envs, pairs, pathId, ids, signature);
            |after| + (if reply.Evicted? then reply.count else 0) == |envs|
  {
  }

  /** Over any run, the acceptances that callers were told of are the envelopes
      stored, plus the counts that acks and sweeps reported. */
  lemma {:induction false} ReportedConservation(lib: Library, maxAge: int, clock: int, evs: seq<Event>)
    ensures var s := Run(lib, maxAge, Empty(clock), evs);
            var told := Told(lib, maxAge, Empty(clock), evs);
            told.accepted == |s.envs| + told.evicted + told.swept
  {
    if evs != [] {
      ReportedConservation(lib, maxAge, clock, evs[..|evs| - 1]);
      RunKeepsInv(lib, maxAge, Empty(clock), evs[..|evs| - 1]);
      ToldIsDone(lib, maxAge, Run(lib, maxAge, Empty(clock), evs[..|evs| - 1]), evs[|evs| - 1]);
    }
  }

  // ---- How a row leaves ----

  /** Its own reader acknowledged it while it was among the reader's 50 smallest. */
  ghost predicate AckedByReader(lib: Library, s: Relay, ev: Event, m: string)
    requires m in s.envs && ev.AckEvent?
  {
    var row := s.envs[m];
    row.pathId == ev.pathId && ev.ids.Some? && m in ev.ids.value && |ev.ids.value| <= MAX_ACK_BATCH &&
    CallerProblem(lib, s.pairs, ev.pathId, ev.signature, AckText(ev.pathId)).None? &&
    CallerInbox(lib, s.pairs, ev.pathId, ev.signature, AckText(ev.pathId)) == Some(row.direction) &&
    m in PageIds(s.envs, ev.pathId, row.direction, "")
  }

  /** A row leaves the table exactly when its own reader acknowledges it or when
      the sweep finds it too old. */
  lemma LeavesExactly(lib: Library, maxAge: int, s: Relay, ev: Event, m: string)
    requires m in s.envs && Inv(s)
    ensures m !in Step(lib, maxAge, s, ev).envs <==>
            (ev.AckEvent? && AckedByReader(lib, s, ev, m)) ||
            (ev.SweepEvent? && s.envs[m].receivedAt < Second(ev.now - maxAge))
  {
    match ev
    case CheckEvent(_, _, _, _, _) =>
    case InsertEvent(who, received, at) =>
      if who in s.flight {
        AcceptedIsAdded(s, who, received, at);
      }
    case AckEvent(_, _, _) => AckLeavesExactly(lib, s, ev, m);
    case SweepEvent(_, _) =>
    case PairEvent(_) =>
  }

  lemma AckLeavesExactly(lib: Library, s: Relay, ev: Event, m: string)
    requires m in s.envs && ev.AckEvent?
    ensures m !in AckStep(lib, s.envs, s.pairs, ev.pathId, ev.ids, ev.signature).0 <==> AckedByReader(lib, s, ev, m)
  {
    if ev.ids.Some? && CallerProblem(lib, s.pairs, ev.pathId, ev.signature, AckText(ev.pathId)).None? {
      var dir := CallerInbox(lib, s.pairs, ev.pathId, ev.signature, AckText(ev.pathId));
      if dir.Some? {
        EvictLeavesExactly(s.envs, ev.pathId, dir.value, ev.ids.value, m);
      }
    }
  }

  lemma EvictLeavesExactly(envs: Envelopes, pathId: string, dir: Direction, ids: seq<string>, m: string)
    requires m in envs
    ensures m !in EvictStep(envs, pathId, dir, ids).0 <==>
            envs[m].pathId == pathId && envs[m].direction == dir && m in ids && m in PageIds(envs, pathId, dir, "")
  {
    RequestedMeaning(PageIds(envs, pathId, dir, ""), ids);
    assert m in PageIds(envs, pathId, dir, "") ==> Matches(envs[m], pathId, dir);
  }

  // ---- A PUT that nobody interrupts ----

  /** A PUT whose two steps run in a row does and answers what the handler does. */
  lemma UninterruptedPut(lib: Library, maxAge: int, s: Relay, who: nat, pathId: string, body: Body, signature: string,
                         now: int, received: int)
    requires who !in s.flight
    ensures var checked := Step(lib, maxAge, s, CheckEvent(who, pathId, body, signature, now));
            var t := Step(lib, maxAge, checked, InsertEvent(who, received, received));
            var (envs, reply) := PutStep(lib, s.envs, s.pairs, pathId, body, signature, now, received);
            t.envs == envs && t.pairs == s.pairs && t.flight == s.flight &&
            t.accepted == s.accepted + AcceptedStamp(body, reply) && t.acked == s.acked && t.swept == s.swept
  {
    if PutProblem(lib, s.pairs, pathId, body, signature, now).None? {
      SameRow(lib, s.pairs, pathId, body, signature, now, received);
      var f := Flight(PutRow(lib, s.pairs, pathId, body, signature, now, now), body, now);
      ThenInsert(s, who, f, received, PutRow(lib, s.pairs, pathId, body, signature, now, received));
    } else {
      ProblemRefuses(lib, s.pairs, pathId, body, signature, now);
    }
  }

  /** A PUT in flight that inserts at once. */
  lemma ThenInsert(s: Relay, who: nat, f: Flight, received: int, row: Row)
    requires who !in s.flight && RowAt(f, received) == row
    ensures var t := AfterInsert(s.(clock := f.now, flight := s.flight[who := f]), who, received, received);
            var (envs, reply) := InsertStep(s.envs, row);
            t == AfterPut(s, envs, reply, f.body, received)
  {
    assert s.flight[who := f] - {who} == s.flight;
  }

  lemma SameRow(lib: Library, pairs: Pairs, pathId: string, body: Body, signature: string, now: int, received: int)
    requires PutProblem(lib, pairs, pathId, body, signature, now).None?
    ensures RowAt(Flight(PutRow(lib, pairs, pathId, body, signature, now, now), body, now), received) ==
            PutRow(lib, pairs, pathId, body, signature, now, received)
  {
  }

  // ---- At most once ----

  /** For one stamp with instant t: it was swept at most once, and then no PUT of it
      can still insert; while stored, its row is no older than the window. */
  ghost predicate SweptOnce(s: Relay, gap: nat, k: Stamp, t: int) {
    s.swept[k] <= 1 &&
    (s.swept[k] == 1 ==> s.clock > t + REPLAY_WINDOW + gap && StampsOf(s.envs)[k] == 0) &&
    (k.msgId in s.envs && TsOf(s.envs[k.msgId]) == k.ts ==>
      t - REPLAY_WINDOW < (s.envs[k.msgId].receivedAt + 1) * Times.NANOS)
  }

  /** PUTs in flight of the envelope dated t were checked in its window. */
  ghost predicate Timely(s: Relay, k: Stamp, t: int) {
    forall who :: who in s.flight && TsOf(s.flight[who].row) == k.ts ==>
      t - REPLAY_WINDOW <= s.flight[who].now <= t + REPLAY_WINDOW
  }

  lemma StampStored(envs: Envelopes, k: Stamp)
    ensures StampsOf(envs)[k] == if k.msgId in envs && TsOf(envs[k.msgId]) == k.ts then 1 else 0
  {
    var stamps := set m | m in envs :: Stamp(m, TsOf(envs[m]));
    if k.msgId in envs && TsOf(envs[k.msgId]) == k.ts {
      assert k in stamps;
    }
  }

  lemma SweptIsOld(received: int, cutoff: int)
    requires received < Second(cutoff)
    ensures (received + 1) * Times.NANOS <= cutoff
  {
  }

  lemma SecondCovers(received: int)
    ensures received < (Second(received) + 1) * Times.NANOS
  {
  }

  lemma CheckIsTimely(lib: Library, s: Relay, ev: Event, k: Stamp, t: int)
    requires Timely(s, k, t) && ev.CheckEvent? && s.clock <= ev.now
    requires lib.parseTime(k.ts) == Some(t) && t - s.clock < -MIN_INT64
    ensures Timely(AfterCheck(lib, s, ev.who, ev.pathId, ev.body, ev.signature, ev.now), k, t)
  {
    if PutProblem(lib, s.pairs, ev.pathId, ev.body, ev.signature, ev.now).None? {
      AcceptedRow(lib, s.pairs, ev.pathId, ev.body, ev.signature, ev.now, ev.now);
      var row := PutRow(lib, s.pairs, ev.pathId, ev.body, ev.signature, ev.now, ev.now);
      WindowExactly(ev.now, t);
      TakeOffTimely(s, ev.who, Flight(row, ev.body, ev.now), k, t);
    }
  }

  lemma TakeOffTimely(s: Relay, who: nat, f: Flight, k: Stamp, t: int)
    requires Timely(s, k, t) && (TsOf(f.row) == k.ts ==> t - REPLAY_WINDOW <= f.now <= t + REPLAY_WINDOW)
    ensures Timely(s.(clock := f.now, flight := s.flight[who := f]), k, t)
  {
  }

  lemma InsertSweepsOnce(s: Relay, gap: nat, who: nat, received: int, at: int, k: Stamp, t: int)
    requires SweptOnce(s, gap, k, t) && Timely(s, k, t) && Legal(gap, s, InsertEvent(who, received, at))
    ensures SweptOnce(AfterInsert(s, who, received, at), gap, k, t) && Timely(AfterInsert(s, who, received, at), k, t)
  {
    var row := RowAt(s.flight[who], received);
    assert TsOf(row) == TsOf(s.flight[who].row);
    StampStored(s.envs, k);
    StampStored(s.envs[row.msgId := row], k);
    SecondCovers(received);
  }

  lemma FewerSweepsOnce(s: Relay, gap: nat, after: Envelopes, k: Stamp, t: int)
    requires SweptOnce(s, gap, k, t) && forall m :: m in after ==> m in s.envs && after[m] == s.envs[m]
    ensures SweptOnce(AfterAck(s, after), gap, k, t)
  {
    StampStored(s.envs, k);
    StampStored(after, k);
  }

  lemma SweepSweepsOnce(s: Relay, maxAge: int, gap: nat, now: int, at: int, k: Stamp, t: int)
    requires SweptOnce(s, gap, k, t) && now <= at && s.clock <= at && maxAge >= 2 * REPLAY_WINDOW + gap
    ensures SweptOnce(AfterSweep(s, DeleteOlder(s.envs, now - maxAge), at), gap, k, t)
  {
    var after := DeleteOlder(s.envs, now - maxAge);
    var gone := Removed(s.envs, after);
    StampStored(s.envs, k);
    StampStored(after, k);
    StampStored(gone, k);
    if k.msgId in gone {
      SweptIsOld(s.envs[k.msgId].receivedAt, now - maxAge);
    }
  }

  lemma StepSweepsOnce(lib: Library, maxAge: int, gap: nat, s: Relay, ev: Event, k: Stamp, t: int)
    requires SweptOnce(s, gap, k, t) && Timely(s, k, t) && Legal(gap, s, ev)
    requires maxAge >= 2 * REPLAY_WINDOW + gap
    requires lib.parseTime(k.ts) == Some(t) && t - s.clock < -MIN_INT64
    ensures SweptOnce(Step(lib, maxAge, s, ev), gap, k, t) && Timely(Step(lib, maxAge, s, ev), k, t)
  {
    match ev
    case CheckEvent(_, _, _, _, _) => CheckIsTimely(lib, s, ev, k, t);
    case InsertEvent(who, received, at) => InsertSweepsOnce(s, gap, who, received, at, k, t);
    case AckEvent(pathId, ids, signature) =>
      AckKeepsRows(lib, s.envs, s.pairs, pathId, ids, signature);
      FewerSweepsOnce(s, gap, AckStep(lib, s.envs, s.pairs, pathId, ids, signature).0, k, t);
    case SweepEvent(now, at) => SweepSweepsOnce(s, maxAge, gap, now, at, k, t);
    case PairEvent(_) =>
  }

  lemma {:induction false} RunSweepsOnce(lib: Library, maxAge: int, gap: nat, clock: int, evs: seq<Event>, k: Stamp, t: int)
    requires LegalRun(lib, maxAge, gap, Empty(clock), evs)
    requires maxAge >= 2 * REPLAY_WINDOW + gap
    requires lib.parseTime(k.ts) == Some(t) && t - clock < -MIN_INT64
    ensures SweptOnce(Run(lib, maxAge, Empty(clock), evs), gap, k, t) && Timely(Run(lib, maxAge, Empty(clock), evs), k, t)
    ensures clock <= Run(lib, maxAge, Empty(clock), evs).clock
  {
    if evs == [] {
      StampStored(map[], k);
    } else {
      var init := evs[..|evs| - 1];
      RunSweepsOnce(lib, maxAge, gap, clock, init, k, t);
      StepSweepsOnce(lib, maxAge, gap, Run(lib, maxAge, Empty(clock), init), evs[|evs| - 1], k, t);
    }
  }

  /** The promise for one stamp over the runs of one relay: it is accepted at most
      once more than acks have evicted it. */
  ghost predicate AtMostOnce(lib: Library, maxAge: int, gap: nat, clock: int, k: Stamp) {
    forall evs: seq<Event> :: LegalRun(lib, maxAge, gap, Empty(clock), evs) ==>
      var s := Run(lib, maxAge, Empty(clock), evs); s.accepted[k] <= 1 + s.acked[k]
  }

  /** With a retention of at least twice the replay window, plus the longest time
      from a PUT's window check to its insert, the sweep never opens the door to a
      replay, received_at being cut to the second notwithstanding. */
  lemma AcceptedAtMostOnce(lib: Library, maxAge: int, gap: nat, clock: int, k: Stamp, t: int)
    requires maxAge >= 2 * REPLAY_WINDOW + gap
    requires lib.parseTime(k.ts) == Some(t) && t - clock < -MIN_INT64
    ensures AtMostOnce(lib, maxAge, gap, clock, k)
  {
    forall evs: seq<Event> | LegalRun(lib, maxAge, gap, Empty(clock), evs)
      ensures var s := Run(lib, maxAge, Empty(clock), evs); s.accepted[k] <= 1 + s.acked[k]
    {
      var s := Run(lib, maxAge, Empty(clock), evs);
      RunSweepsOnce(lib, maxAge, gap, clock, evs, k, t);
      RunKeepsInv(lib, maxAge, Empty(clock), evs);
      StampStored(s.envs, k);
    }
  }
}
