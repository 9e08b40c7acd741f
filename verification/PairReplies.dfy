/** Which answer each pair endpoint gives, what an approval stores, and until when
    a request can still be approved. */
module PairReplies {
  import opened Lex
  import opened Foreign
  import opened Checks
  import opened Halves
  import opened SelfSig
  import opened Storage
  import opened PairFlow
  import opened PairRuns
  import Base64Url
  import Mailbox
  import PathId
  import Uuid

  // ---- Submit ----

  /** The refusals of the schema, as answers. */
  function SchemaRefusals(): (answers: seq<Answer>)
    ensures |answers| == |FLAWS| && forall i :: 0 <= i < |FLAWS| ==> answers[i] == Rejected(400, BadHalf(FLAWS[i]))
  {
    seq(|FLAWS|, i requires 0 <= i < |FLAWS| => Rejected(400, BadHalf(FLAWS[i])))
  }

  function SubmitRefusals(): seq<Answer> {
    [Rejected(400, InvalidJson), Rejected(400, MissingTarget), Rejected(400, TargetTooLong)] + SchemaRefusals() +
    [Rejected(400, TsOutOfWindow), Rejected(400, BadSelfSig)]
  }

  /** Every check of POST /pair/request, in order. */
  ghost function SubmitChecks(lib: Library, body: Option<Submission>, now: int): seq<bool> {
    if body.None? then [false]
    else
      var Submission(target, half) := body.value;
      [true, target != "", |Utf8Text(target)| <= 256] + HalfChecks(half) + [Mailbox.Fresh(lib, half.ts, now), SelfSigned(lib, half)]
  }

  /** A schema, between checks that come before and after it. */
  lemma AroundSchema(front: seq<bool>, half: seq<bool>, back: seq<bool>, k: nat)
    ensures FirstFailing(front + half + back, k) <==>
            if k < |front| then FirstFailing(front, k)
            else if k < |front| + |half| then AllPass(front) && FirstFailing(half, k - |front|)
            else AllPass(front) && AllPass(half) && FirstFailing(back, k - |front| - |half|)
    ensures AllPass(front + half + back) <==> AllPass(front) && AllPass(half) && AllPass(back)
  {
    FailingIn(front + half, back, k);
    FailingIn(front, half, k);
  }

  lemma ThreeChecks(c: seq<bool>, k: nat)
    requires |c| == 3 && k < 3
    ensures AllPass(c) <==> c[0] && c[1] && c[2]
    ensures FirstFailing(c, k) <==> !c[k] && (k > 0 ==> c[0]) && (k > 1 ==> c[1])
  {
  }

  lemma TwoChecks(c: seq<bool>, k: nat)
    requires |c| == 2 && k < 2
    ensures AllPass(c) <==> c[0] && c[1]
    ensures FirstFailing(c, k) <==> !c[k] && (k > 0 ==> c[0])
  {
  }

  lemma RefusalAt(k: nat)
    requires k < 15
    ensures |SubmitRefusals()| == 15
    ensures SubmitRefusals()[k] ==
            if k == 0 then Rejected(400, InvalidJson) else if k == 1 then Rejected(400, MissingTarget)
            else if k == 2 then Rejected(400, TargetTooLong) else if k < 13 then Rejected(400, BadHalf(FLAWS[k - 3]))
            else if k == 13 then Rejected(400, TsOutOfWindow) else Rejected(400, BadSelfSig)
  {
  }

  /** What a half is refused for, or that it is not: the ten schema checks, then
      freshness, then the signature. */
  lemma HalfFacts(lib: Library, h: Half, now: int, k: nat)
    requires k < 10
    ensures ParseHalf(h) == Flawed(FLAWS[k]) <==> FirstFailing(HalfChecks(h), k)
    ensures ParseHalf(h).Parsed? <==> AllPass(HalfChecks(h))
    ensures ParseHalf(h).Parsed? ==> (VerifySelfSig(lib, h, ParseHalf(h).raw) <==> SelfSigned(lib, h))
    ensures Mailbox.TsInWindow(lib, h.ts, now) <==> Mailbox.Fresh(lib, h.ts, now)
  {
    SchemaExactly(h, k);
    Mailbox.FreshExactly(lib, h.ts, now);
    if ParseHalf(h).Parsed? {
      VerifiesExactly(lib, h);
    }
  }

  /** A submission is refused for the first check that fails. */
  lemma SubmitRefusesExactly(lib: Library, body: Option<Submission>, now: int, k: nat)
    requires k < 15
    ensures |SubmitRefusals()| == 15
    ensures SubmitProblem(lib, body, now) == Some(SubmitRefusals()[k]) <==> FirstFailing(SubmitChecks(lib, body, now), k)
    ensures SubmitProblem(lib, body, now).None? <==> AllPass(SubmitChecks(lib, body, now))
  {
    RefusalAt(k);
    if body.Some? {
      var Submission(target, half) := body.value;
      var front, back := [true, target != "", |Utf8Text(target)| <= 256], [Mailbox.Fresh(lib, half.ts, now), SelfSigned(lib, half)];
      SizeIsOctets(target);
      HalfFacts(lib, half, now, if 3 <= k < 13 then k - 3 else 0);
      AroundSchema(front, HalfChecks(half), back, k);
      ThreeChecks(front, if k < 3 then k else 0);
      TwoChecks(back, if k >= 13 then k - 13 else 0);
    } else {
      assert !SubmitChecks(lib, body, now)[0];
    }
  }

  // ---- Approve, up to its first write ----

  function ApproveRefusals(): seq<Answer> {
    [Rejected(400, InvalidRequestId), Rejected(400, InvalidJson), Rejected(404, RequestNotFound)] + SchemaRefusals() +
    [Rejected(400, TsOutOfWindow), Rejected(400, BadSelfSig)]
  }

  /** Every check of an approval of a pending request, in order. */
  ghost function ApproveChecks(lib: Library, rs: Requests, id: string, body: Option<Approval>, now: int): seq<bool> {
    if body.None? then [Uuid.UuidShape(id), false]
    else
      var half := body.value.owner;
      [Uuid.UuidShape(id), true, id in rs] + HalfChecks(half) + [Mailbox.Fresh(lib, half.ts, now), SelfSigned(lib, half)]
  }

  lemma ApproveRefusalAt(k: nat)
    requires k < 15
    ensures |ApproveRefusals()| == 15
    ensures ApproveRefusals()[k] ==
            if k == 0 then Rejected(400, InvalidRequestId) else if k == 1 then Rejected(400, InvalidJson)
            else if k == 2 then Rejected(404, RequestNotFound) else if k < 13 then Rejected(400, BadHalf(FLAWS[k - 3]))
            else if k == 13 then Rejected(400, TsOutOfWindow) else Rejected(400, BadSelfSig)
  {
  }

  lemma OwnerRefusesExactly(lib: Library, requester: Half, body: Approval, now: int, k: nat)
    requires requester.sigAlg == "ed25519" && k < 15
    ensures var reading := CheckOwner(lib, requester, body, now);
            var half := body.owner;
            (3 <= k < 13 ==> (reading == Stop(Rejected(400, BadHalf(FLAWS[k - 3]))) <==> FirstFailing(HalfChecks(half), k - 3))) &&
            (reading == Stop(Rejected(400, TsOutOfWindow)) <==> AllPass(HalfChecks(half)) && !Mailbox.Fresh(lib, half.ts, now)) &&
            (reading == Stop(Rejected(400, BadSelfSig)) <==>
             AllPass(HalfChecks(half)) && Mailbox.Fresh(lib, half.ts, now) && !SelfSigned(lib, half)) &&
            (reading.Proceed? <==> AllPass(HalfChecks(half)) && Mailbox.Fresh(lib, half.ts, now) && SelfSigned(lib, half)) &&
            (reading.Stop? ==> reading.answer.Rejected? && reading.answer.httpStatus == 400 &&
                               reading.answer.code !in {InvalidRequestId, InvalidJson, RequestNotFound})
  {
    HalfFacts(lib, body.owner, now, if 3 <= k < 13 then k - 3 else 0);
    TenChecks(HalfChecks(body.owner), 3);
  }

  /** An approval of a request that is not yet decided is refused for the first check
      that fails, and goes ahead when none does. */
  lemma ApproveRefusesExactly(lib: Library, rs: Requests, ps: Pairs, id: string, body: Option<Approval>, now: int, k: nat)
    requires TablesOk(RulesOf(lib), rs, ps) && (id in rs ==> rs[id].status == Pending) && k < 15
    ensures |ApproveRefusals()| == 15
    ensures ReadRequest(lib, rs, id, body, now) == Stop(ApproveRefusals()[k]) <==>
            FirstFailing(ApproveChecks(lib, rs, id, body, now), k)
    ensures ReadRequest(lib, rs, id, body, now).Proceed? <==> AllPass(ApproveChecks(lib, rs, id, body, now))
  {
    if body.None? {
      ApproveRefusalAt(k);
      TwoChecks(ApproveChecks(lib, rs, id, body, now), if k < 2 then k else 0);
    } else if !Uuid.UuidShape(id) || id !in rs {
      FrontDecides(lib, rs, id, body, now, k);
    } else {
      var half := body.value.owner;
      var back := [Mailbox.Fresh(lib, half.ts, now), SelfSigned(lib, half)];
      assert RequestOk(RulesOf(lib), id, rs[id]);
      CheckedHalf(lib, rs[id].requester);
      OwnerRefusesExactly(lib, rs[id].requester, body.value, now, k);
      TwoChecks(back, if k >= 13 then k - 13 else 0);
      OwnerTable(CheckOwner(lib, rs[id].requester, body.value, now), HalfChecks(half), back, k);
    }
  }

  lemma FrontDecides(lib: Library, rs: Requests, id: string, body: Option<Approval>, now: int, k: nat)
    requires body.Some? && (!Uuid.UuidShape(id) || id !in rs) && k < 15
    ensures |ApproveRefusals()| == 15
    ensures ReadRequest(lib, rs, id, body, now) == Stop(ApproveRefusals()[k]) <==>
            FirstFailing(ApproveChecks(lib, rs, id, body, now), k)
    ensures !ReadRequest(lib, rs, id, body, now).Proceed? && !AllPass(ApproveChecks(lib, rs, id, body, now))
  {
    ApproveRefusalAt(k);
    var half := body.value.owner;
    var front, back := [Uuid.UuidShape(id), true, id in rs], [Mailbox.Fresh(lib, half.ts, now), SelfSigned(lib, half)];
    AroundSchema(front, HalfChecks(half), back, k);
    ThreeChecks(front, if k < 3 then k else 0);
  }

  /** The same table, once the request is there. */
  lemma OwnerTable(reading: Reading, half: seq<bool>, back: seq<bool>, k: nat)
    requires k < 15 && |half| == 10 && |back| == 2
    requires 3 <= k < 13 ==> (reading == Stop(Rejected(400, BadHalf(FLAWS[k - 3]))) <==> FirstFailing(half, k - 3))
    requires reading == Stop(Rejected(400, TsOutOfWindow)) <==> AllPass(half) && !back[0]
    requires reading == Stop(Rejected(400, BadSelfSig)) <==> AllPass(half) && back[0] && !back[1]
    requires reading.Stop? ==> reading.answer.Rejected? && reading.answer.httpStatus == 400 &&
                               reading.answer.code !in {InvalidRequestId, InvalidJson, RequestNotFound}
    requires reading.Proceed? <==> AllPass(half) && back[0] && back[1]
    ensures |ApproveRefusals()| == 15
    ensures reading == Stop(ApproveRefusals()[k]) <==> FirstFailing([true, true, true] + half + back, k)
    ensures reading.Proceed? <==> AllPass([true, true, true] + half + back)
  {
    ApproveRefusalAt(k);
    AroundSchema([true, true, true], half, back, k);
    ThreeChecks([true, true, true], if k < 3 then k else 0);
    TwoChecks(back, if k >= 13 then k - 13 else 0);
  }

  /** On a decided request a call is told 200 exactly when the request was approved,
      the caller signs a half that passes the schema, and the pair at its address
      carries that half's key; otherwise 409. Nothing changes either way. */
  lemma DecidedAnswersExactly(lib: Library, rs: Requests, ps: Pairs, id: string, body: Option<Approval>, now: int, activated: int)
    requires TablesOk(RulesOf(lib), rs, ps) && Uuid.UuidShape(id) && body.Some? && id in rs && rs[id].status != Pending
    ensures ApproveStep(lib, rs, ps, id, body, now, activated) ==
            (rs, ps,
             if rs[id].status == Approved && AllPass(HalfChecks(body.value.owner)) && SelfSigned(lib, body.value.owner) &&
                rs[id].pathId.value in ps && ps[rs[id].pathId.value].ownerPubkey == body.value.owner.pubkey
             then ApprovedWith(id, rs[id].pathId.value, rs[id].requester)
             else Rejected(409, RequestNotPending))
  {
    assert RequestOk(RulesOf(lib), id, rs[id]);
    SelfCheckedExactly(lib, body.value.owner);
  }

  // ---- What an approval stores ----

  /** Approve on a pending request whose checks all pass: a new pair with both
      parties' names and keys, or the pair that is there already if it carries both
      key texts, or 409. The request is approved exactly with a 200. */
  lemma ApproveStoresExactly(lib: Library, rs: Requests, ps: Pairs, id: string, body: Option<Approval>, now: int, activated: int)
    requires TablesOk(RulesOf(lib), rs, ps) && id in rs && rs[id].status == Pending
    requires AllPass(ApproveChecks(lib, rs, id, body, now))
    ensures body.Some? && KeyText(rs[id].requester.pubkey) && KeyText(body.value.owner.pubkey)
    ensures var requester, owner := rs[id].requester, body.value.owner;
            var path := PathId.ComputePathId(lib.sha256, Base64Url.Decode(requester.pubkey).value, Base64Url.Decode(owner.pubkey).value);
            ApproveStep(lib, rs, ps, id, body, now, activated) ==
            if path !in ps then
              (rs[id := rs[id].(status := Approved, owner := OwnerHalf(owner), pathId := Some(path))],
               ps[path := Pair(path, requester.nexusId, requester.pubkey, owner.nexusId, owner.pubkey, "ed25519", "P-256",
                               activated / 1_000_000_000)],
               ApprovedWith(id, path, requester))
            else if ps[path].requesterPubkey == requester.pubkey && ps[path].ownerPubkey == owner.pubkey then
              (rs[id := rs[id].(status := Approved, owner := OwnerBody(owner, body.value.topLevel), pathId := Some(path))], ps,
               ApprovedWith(id, path, requester))
            else (rs, ps, Rejected(409, PairConflict))
  {
    ApproveRefusesExactly(lib, rs, ps, id, body, now, 0);
    ReadsOwner(lib, rs, id, body, now);
    OwnerFacts(lib, rs[id].requester, body.value, now);
    assert RequestOk(RulesOf(lib), id, rs[id]);
    CheckedHalf(lib, rs[id].requester);
    CheckedHalf(lib, body.value.owner);
    FinishExactly(rs, ps, id, ReadRequest(lib, rs, id, body, now), activated);
  }

  lemma FinishExactly(rs: Requests, ps: Pairs, id: string, p: Reading, activated: int)
    requires id in rs && rs[id].status == Pending && p.Proceed? && p.requester.sigAlg == "ed25519" && p.wholeBody.OwnerBody?
    ensures FinishApprove(rs, ps, id, p, activated) ==
            if p.pathId !in ps then
              (rs[id := rs[id].(status := Approved, owner := OwnerHalf(p.owner), pathId := Some(p.pathId))],
               ps[p.pathId := Pair(p.pathId, p.requester.nexusId, p.requester.pubkey, p.owner.nexusId, p.owner.pubkey, "ed25519", "P-256",
                                   activated / 1_000_000_000)],
               ApprovedWith(id, p.pathId, p.requester))
            else if ps[p.pathId].requesterPubkey == p.requester.pubkey && ps[p.pathId].ownerPubkey == p.owner.pubkey then
              (rs[id := rs[id].(status := Approved, owner := p.wholeBody, pathId := Some(p.pathId))], ps,
               ApprovedWith(id, p.pathId, p.requester))
            else (rs, ps, Rejected(409, PairConflict))
  {
  }

  // ---- Deny and poll ----

  /** Every answer of deny, and what it leaves. */
  lemma DenyAnswersExactly(rs: Requests, id: string)
    ensures DenyStep(rs, id) ==
            if !Uuid.UuidShape(id) then (rs, Rejected(400, InvalidRequestId))
            else if id !in rs then (rs, Rejected(404, RequestNotFound))
            else if rs[id].status == Pending then (rs[id := rs[id].(status := Denied)], DeniedOk(id))
            else if rs[id].status == Denied then (rs, DeniedOk(id))
            else (rs, Rejected(409, RequestNotPending))
  {
  }

  /** A poll reports the stored status and path, and a half exactly for an approved
      request: the one that its owner column reads as. */
  lemma PollReportsExactly(lib: Library, rs: Requests, ps: Pairs, id: string)
    requires TablesOk(RulesOf(lib), rs, ps)
    ensures !Uuid.UuidShape(id) ==> PollAnswer(rs, id) == Rejected(400, InvalidRequestId)
    ensures Uuid.UuidShape(id) && id !in rs ==> PollAnswer(rs, id) == Rejected(404, RequestNotFound)
    ensures Uuid.UuidShape(id) && id in rs ==>
              var answer := PollAnswer(rs, id);
              answer.StatusReport? && answer.id == id && answer.status == rs[id].status && answer.path == rs[id].pathId &&
              (answer.path.Some? <==> rs[id].status == Approved) &&
              (rs[id].status != Approved ==> answer.ownerHalf == None) &&
              (rs[id].status == Approved ==>
                 answer.ownerHalf == if rs[id].owner.OwnerHalf? then Some(rs[id].owner.half) else rs[id].owner.topLevel)
  {
    if id in rs {
      assert RequestOk(RulesOf(lib), id, rs[id]);
    }
  }

  // ---- Until when a request can be approved ----

  /** A call that may decide this request. */
  predicate Decides(ev: Event, id: string) {
    (ev.Approve? || ev.Deny?) && ev.id == id
  }

  predicate InTime(evs: seq<Event>, due: int) {
    forall i :: 0 <= i < |evs| ==> evs[i].arrival / 1_000_000_000 <= due
  }

  predicate NoneDecides(evs: seq<Event>, id: string) {
    forall i :: 0 <= i < |evs| ==> !Decides(evs[i], id)
  }

  /** One event that does not decide a request leaves it alone, or expires it when it
      is pending and the event arrives in a second past its deadline. */
  lemma Untouched(lib: Library, s: Flow, ev: Event, id: string)
    requires id in s.rs && !Decides(ev, id)
    ensures id in Step(lib, s, ev).rs
    ensures Step(lib, s, ev).rs[id] ==
            if s.rs[id].status == Pending && s.rs[id].expiresAt < ev.arrival / 1_000_000_000 then s.rs[id].(status := Expired)
            else s.rs[id]
  {
    var expired := ExpirePending(s.rs, ev.arrival);
    match ev
    case Submit(body, newId, _, checked, now) =>
    case Approve(other, approval, _, checked, now) =>
      OtherApproval(expired, s.ps, id, other, ReadRequest(lib, expired, other, approval, checked), now);
    case Deny(other, _) => OtherDenial(expired, id, other);
    case Poll(_) =>
    case Sweep(_) =>
  }

  lemma OtherApproval(rs: Requests, ps: Pairs, id: string, other: string, p: Reading, activated: int)
    requires id in rs && id != other
    ensures var after := FinishApprove(rs, ps, other, p, activated).0; id in after && after[id] == rs[id]
  {
  }

  lemma OtherDenial(rs: Requests, id: string, other: string)
    requires id in rs && id != other
    ensures var after := DenyStep(rs, other).0; id in after && after[id] == rs[id]
  {
  }

  /** Over any run in which nobody decides it, a pending request stays pending exactly
      as long as every call arrives no later than its deadline's second, and is
      expired from the first later call on; nothing else about it changes. */
  lemma {:induction false} PendingUntilDue(lib: Library, s: Flow, evs: seq<Event>, id: string)
    requires id in s.rs && s.rs[id].status == Pending && NoneDecides(evs, id)
    ensures id in Run(lib, s, evs).rs
    ensures Run(lib, s, evs).rs[id] == s.rs[id].(status := if InTime(evs, s.rs[id].expiresAt) then Pending else Expired)
  {
    if evs != [] {
      var before, last := evs[..|evs| - 1], evs[|evs| - 1];
      PendingUntilDue(lib, s, before, id);
      Untouched(lib, Run(lib, s, before), last, id);
      assert evs == before + [last];
      assert InTime(evs, s.rs[id].expiresAt) <==>
             InTime(before, s.rs[id].expiresAt) && last.arrival / 1_000_000_000 <= s.rs[id].expiresAt;
    }
  }

  /** An approval that arrives goes ahead exactly when the request is pending and not
      past its deadline, and the checks on the owner's half pass. */
  lemma ArrivalProceedsExactly(lib: Library, rs: Requests, ps: Pairs, id: string, body: Option<Approval>, arrival: int, now: int)
    requires TablesOk(RulesOf(lib), rs, ps)
    ensures ReadRequest(lib, ExpirePending(rs, arrival), id, body, now).Proceed? <==>
            Uuid.UuidShape(id) && body.Some? && id in rs && rs[id].status == Pending &&
            arrival / 1_000_000_000 <= rs[id].expiresAt &&
            AllPass(HalfChecks(body.value.owner)) && SelfSigned(lib, body.value.owner) && Mailbox.Fresh(lib, body.value.owner.ts, now)
  {
    ExpireKeeps(RulesOf(lib), rs, ps, arrival);
    ApproveProceedsExactly(lib, ExpirePending(rs, arrival), ps, id, body, now);
  }

  /** From submission to approval: a request staged at `staged` and decided by nobody
      can be approved exactly while no call has arrived, and the approval itself does
      not arrive, more than a day of whole seconds later. */
  lemma StagedProceedsExactly(lib: Library, s: Flow, submission: Submission, id: string, staged: int, evs: seq<Event>,
                              body: Option<Approval>, arrival: int, now: int)
    requires TablesOk(RulesOf(lib), s.rs, s.ps) && NoOrphans(s.rs, s.ps) && SelfChecked(lib, submission.requester)
    requires id !in s.rs && NoneDecides(evs, id)
    ensures var after := Run(lib, Flow(StageRequest(s.rs, submission, id, staged).0, s.ps), evs);
            var due := staged / 1_000_000_000 + 24 * 3600;
            ReadRequest(lib, ExpirePending(after.rs, arrival), id, body, now).Proceed? <==>
            InTime(evs, due) && arrival / 1_000_000_000 <= due &&
            Uuid.UuidShape(id) && body.Some? && AllPass(HalfChecks(body.value.owner)) && SelfSigned(lib, body.value.owner) &&
            Mailbox.Fresh(lib, body.value.owner.ts, now)
  {
    var start := Flow(StageRequest(s.rs, submission, id, staged).0, s.ps);
    StageKeeps(RulesOf(lib), s.rs, s.ps, submission, id, staged);
    DecisionsKeepOrphansOut(s.rs, start.rs, s.ps);
    DayLater(staged);
    PendingUntilDue(lib, start, evs, id);
    LaterRunKeeps(lib, start, evs);
    var after := Run(lib, start, evs);
    ArrivalProceedsExactly(lib, after.rs, after.ps, id, body, arrival, now);
  }

  lemma {:induction false} LaterRunKeeps(lib: Library, s: Flow, evs: seq<Event>)
    requires TablesOk(RulesOf(lib), s.rs, s.ps) && NoOrphans(s.rs, s.ps)
    ensures var t := Run(lib, s, evs); TablesOk(RulesOf(lib), t.rs, t.ps) && NoOrphans(t.rs, t.ps)
  {
    if evs != [] {
      LaterRunKeeps(lib, s, evs[..|evs| - 1]);
      StepKeeps(lib, Run(lib, s, evs[..|evs| - 1]), evs[|evs| - 1]);
    }
  }
}
