/** What pairing keeps over whole runs when every handler runs uninterrupted, and
    the invariants that its steps keep even when they interleave. */
module PairRuns {
  import opened Lex
  import opened Foreign
  import opened Checks
  import opened Halves
  import opened SelfSig
  import opened Storage
  import opened PairFlow
  import Base64Url
  import Mailbox
  import PathId
  import Uuid

  // ---- Invariants of the two tables ----

  function OwnerOf(doc: OwnerDoc): Half
    requires doc != NoOwner
  {
    if doc.OwnerHalf? then doc.half else doc.owner
  }

  /** The checks that table invariants speak of: which halves and key texts are
      good, and the address of two keys. */
  datatype Rules = Rules(checked: Half -> bool, goodKey: string -> bool, address: (string, string) -> string)

  function Address(lib: Library, a: string, b: string): string {
    PathId.ComputePathId(lib.sha256, RawText(a), RawText(b))
  }

  function RawText(text: string): seq<Octet> {
    var raw := Base64Url.Decode(text);
    if raw.Some? then raw.value else []
  }

  /** The rules of the pair flow. */
  function RulesOf(lib: Library): Rules {
    Rules(h => SelfChecked(lib, h), KeyText, (a, b) => Address(lib, a, b))
  }

  /** Path id and owner column are set exactly on approved requests, and every
      stored requester half was checked. */
  ghost predicate RequestOk(rules: Rules, id: string, r: PairRequest) {
    r.requestId == id && rules.checked(r.requester) &&
    (r.status == Approved <==> r.pathId.Some?) && (r.status == Approved <==> r.owner != NoOwner)
  }

  /** A pair sits at the address of its two 32-byte keys. */
  ghost predicate PairOk(rules: Rules, key: string, p: Pair) {
    p.pathId == key && p.sigAlg == "ed25519" && rules.goodKey(p.requesterPubkey) && rules.goodKey(p.ownerPubkey) &&
    key == rules.address(p.requesterPubkey, p.ownerPubkey)
  }

  /** An approved request has its pair: with the requester's own key, and with the
      key of an owner half that was checked, its self-signature included. */
  ghost predicate Backed(rules: Rules, r: PairRequest, ps: Pairs) {
    r.status == Approved && r.pathId.Some? && r.owner != NoOwner ==>
      r.pathId.value in ps && SameParties(ps[r.pathId.value], r.requester, OwnerOf(r.owner)) &&
      rules.checked(OwnerOf(r.owner))
  }

  ghost predicate TablesOk(rules: Rules, rs: Requests, ps: Pairs) {
    (forall id :: id in rs ==> RequestOk(rules, id, rs[id]) && Backed(rules, rs[id], ps)) &&
    (forall key :: key in ps ==> PairOk(rules, key, ps[key]))
  }

  /** Requests stay with their requester and deadline; a decided one never changes. */
  ghost predicate DecisionsKept(rs: Requests, after: Requests) {
    forall id :: id in rs ==>
      id in after && after[id].requester == rs[id].requester && after[id].expiresAt == rs[id].expiresAt &&
      (rs[id].status != Pending ==> after[id] == rs[id])
  }

  ghost predicate PairsKept(ps: Pairs, after: Pairs) {
    forall key :: key in ps ==> key in after && after[key] == ps[key]
  }

  // ---- Each table operation keeps them ----

  lemma CheckedHalf(lib: Library, h: Half)
    requires SelfChecked(lib, h)
    ensures h.sigAlg == "ed25519" && KeyText(h.pubkey)
    ensures RawKey(h) == ParseHalf(h).raw == RawText(h.pubkey)
  {
  }

  lemma StageKeeps(rules: Rules, rs: Requests, ps: Pairs, body: Submission, id: string, now: int)
    requires TablesOk(rules, rs, ps) && rules.checked(body.requester)
    ensures var after := StageRequest(rs, body, id, now).0;
            TablesOk(rules, after, ps) && DecisionsKept(rs, after)
  {
  }

  lemma SubmitKeeps(lib: Library, rs: Requests, ps: Pairs, body: Option<Submission>, id: string, checked: int, now: int)
    requires TablesOk(RulesOf(lib), rs, ps)
    ensures var after := SubmitStep(lib, rs, body, id, checked, now).0;
            TablesOk(RulesOf(lib), after, ps) && DecisionsKept(rs, after)
  {
    if SubmitProblem(lib, body, checked).None? {
      assert RulesOf(lib).checked(body.value.requester);
      StageKeeps(RulesOf(lib), rs, ps, body.value, id, now);
    }
  }

  lemma ExpireKeeps(rules: Rules, rs: Requests, ps: Pairs, now: int)
    requires TablesOk(rules, rs, ps)
    ensures var after := ExpirePending(rs, now); TablesOk(rules, after, ps) && DecisionsKept(rs, after)
  {
  }

  lemma DenyKeeps(rules: Rules, rs: Requests, ps: Pairs, id: string)
    requires TablesOk(rules, rs, ps)
    ensures var after := UpdatePending(rs, id, Denied, NoOwner, None);
            TablesOk(rules, after, ps) && DecisionsKept(rs, after)
  {
  }

  lemma ApproveKeeps(rules: Rules, rs: Requests, ps: Pairs, id: string, doc: OwnerDoc, pathId: string)
    requires TablesOk(rules, rs, ps) && id in rs && doc != NoOwner
    requires pathId in ps && SameParties(ps[pathId], rs[id].requester, OwnerOf(doc)) && rules.checked(OwnerOf(doc))
    ensures var after := UpdatePending(rs, id, Approved, doc, Some(pathId));
            TablesOk(rules, after, ps) && DecisionsKept(rs, after)
  {
  }

  lemma InsertPairKeeps(rules: Rules, rs: Requests, ps: Pairs, key: string, p: Pair)
    requires TablesOk(rules, rs, ps) && key !in ps && PairOk(rules, key, p)
    ensures TablesOk(rules, rs, ps[key := p])
  {
    forall id | id in rs
      ensures Backed(rules, rs[id], ps[key := p])
    {
      assert Backed(rules, rs[id], ps);
    }
  }

  /** What approve has established once it goes ahead. */
  ghost predicate GoesAhead(rules: Rules, r: PairRequest, p: Reading, activated: int) {
    p.Proceed? && p.requester == r.requester && rules.checked(p.requester) && rules.checked(p.owner) &&
    p.wholeBody.OwnerBody? && p.wholeBody.owner == p.owner &&
    PairOk(rules, p.pathId, NewPair(p.requester, p.owner, p.pathId, activated))
  }

  lemma ProceedFacts(lib: Library, rs: Requests, ps: Pairs, id: string, body: Option<Approval>, now: int, activated: int)
    requires TablesOk(RulesOf(lib), rs, ps) && ReadRequest(lib, rs, id, body, now).Proceed?
    ensures id in rs && rs[id].status == Pending && body.Some?
    ensures var p := ReadRequest(lib, rs, id, body, now);
            GoesAhead(RulesOf(lib), rs[id], p, activated) &&
            p.owner == body.value.owner && p.wholeBody.topLevel == body.value.topLevel
  {
    ReadsOwner(lib, rs, id, body, now);
    OwnerFacts(lib, rs[id].requester, body.value, now);
    assert RequestOk(RulesOf(lib), id, rs[id]);
    AheadFacts(lib, rs[id], ReadRequest(lib, rs, id, body, now), activated);
  }

  lemma ReadsOwner(lib: Library, rs: Requests, id: string, body: Option<Approval>, now: int)
    requires ReadRequest(lib, rs, id, body, now).Proceed?
    ensures id in rs && rs[id].status == Pending && body.Some?
    ensures ReadRequest(lib, rs, id, body, now) == CheckOwner(lib, rs[id].requester, body.value, now)
  {
  }

  lemma AheadFacts(lib: Library, r: PairRequest, p: Reading, activated: int)
    requires p.Proceed? && p.requester == r.requester && SelfChecked(lib, p.requester) && SelfChecked(lib, p.owner)
    requires p.wholeBody.OwnerBody? && p.wholeBody.owner == p.owner
    requires p.pathId == PathId.ComputePathId(lib.sha256, RawKey(p.requester), RawKey(p.owner))
    ensures GoesAhead(RulesOf(lib), r, p, activated)
  {
    CheckedHalf(lib, p.requester);
    CheckedHalf(lib, p.owner);
  }

  lemma OwnerFacts(lib: Library, requester: Half, body: Approval, now: int)
    requires CheckOwner(lib, requester, body, now).Proceed?
    ensures var p := CheckOwner(lib, requester, body, now);
            p.requester == requester && p.owner == body.owner && SelfChecked(lib, p.owner) &&
            p.wholeBody == OwnerBody(body.owner, body.topLevel) &&
            p.pathId == PathId.ComputePathId(lib.sha256, RawKey(requester), RawKey(body.owner))
  {
  }

  // ---- Runs of uninterrupted handlers ----

  datatype Event =
    | Submit(body: Option<Submission>, newId: string, arrival: int, checked: int, now: int)
    | Approve(id: string, approval: Option<Approval>, arrival: int, checked: int, now: int)
    | Deny(id: string, arrival: int)
    | Poll(arrival: int)
    | Sweep(arrival: int)

  datatype Flow = Flow(rs: Requests, ps: Pairs)

  /** The handler itself. */
  function Handled(lib: Library, s: Flow, ev: Event): Flow {
    match ev
    case Submit(body, newId, _, checked, now) => Flow(SubmitStep(lib, s.rs, body, newId, checked, now).0, s.ps)
    case Approve(id, approval, _, checked, now) =>
      var (after, ps, answer) := ApproveStep(lib, s.rs, s.ps, id, approval, checked, now);
      Flow(after, ps)
    case Deny(id, _) => Flow(DenyStep(s.rs, id).0, s.ps)
    case Poll(_) => s
    case Sweep(_) => s
  }

  /** The dispatcher expires overdue requests, then the handler runs. */
  function Step(lib: Library, s: Flow, ev: Event): Flow {
    Handled(lib, Flow(ExpirePending(s.rs, ev.arrival), s.ps), ev)
  }

  function Run(lib: Library, s: Flow, evs: seq<Event>): Flow {
    if evs == [] then s else Step(lib, Run(lib, s, evs[..|evs| - 1]), evs[|evs| - 1])
  }

  /** Every pair belongs to an approved request. */
  ghost predicate NoOrphans(rs: Requests, ps: Pairs) {
    forall key :: key in ps ==> exists id :: id in rs && rs[id].status == Approved && rs[id].pathId == Some(key)
  }

  lemma DecisionsKeepOrphansOut(rs: Requests, after: Requests, ps: Pairs)
    requires NoOrphans(rs, ps) && DecisionsKept(rs, after)
    ensures NoOrphans(after, ps)
  {
    forall key | key in ps
      ensures exists id :: id in after && after[id].status == Approved && after[id].pathId == Some(key)
    {
      var id :| id in rs && rs[id].status == Approved && rs[id].pathId == Some(key);
      assert id in after && after[id] == rs[id];
    }
  }

  lemma DecisionsCompose(a: Requests, b: Requests, c: Requests)
    requires DecisionsKept(a, b) && DecisionsKept(b, c)
    ensures DecisionsKept(a, c)
  {
  }

  lemma NewPairBelongs(rs: Requests, ps: Pairs, after: Requests, pairs: Pairs, key: string, id: string)
    requires NoOrphans(rs, ps) && DecisionsKept(rs, after) && pairs.Keys == ps.Keys + {key}
    requires id in after && after[id].status == Approved && after[id].pathId == Some(key)
    ensures NoOrphans(after, pairs)
  {
    DecisionsKeepOrphansOut(rs, after, ps);
  }

  lemma FreshPairKeeps(rules: Rules, rs: Requests, ps: Pairs, id: string, key: string, pair: Pair, owner: Half,
                       pairs: Pairs, after: Requests)
    requires TablesOk(rules, rs, ps) && id in rs && key !in ps
    requires PairOk(rules, key, pair) && SameParties(pair, rs[id].requester, owner) && rules.checked(owner)
    requires pairs == ps[key := pair] && after == UpdatePending(rs, id, Approved, OwnerHalf(owner), Some(key))
    ensures TablesOk(rules, after, pairs) && DecisionsKept(rs, after) && PairsKept(ps, pairs)
  {
    InsertPairKeeps(rules, rs, ps, key, pair);
    ApproveKeeps(rules, rs, pairs, id, OwnerHalf(owner), key);
  }

  lemma KnownPairKeeps(rules: Rules, rs: Requests, ps: Pairs, id: string, p: Reading, activated: int, after: Requests)
    requires TablesOk(rules, rs, ps) && NoOrphans(rs, ps) && p.Proceed?
    requires id in rs && rs[id].status == Pending && GoesAhead(rules, rs[id], p, activated)
    requires p.pathId in ps && SameParties(ps[p.pathId], p.requester, p.owner)
    requires after == UpdatePending(rs, id, Approved, p.wholeBody, Some(p.pathId))
    ensures TablesOk(rules, after, ps) && NoOrphans(after, ps) && DecisionsKept(rs, after)
  {
    ApproveKeeps(rules, rs, ps, id, p.wholeBody, p.pathId);
    DecisionsKeepOrphansOut(rs, after, ps);
  }

  lemma FinishKeeps(rules: Rules, rs: Requests, ps: Pairs, id: string, p: Reading, activated: int)
    requires TablesOk(rules, rs, ps) && NoOrphans(rs, ps)
    requires id in rs && rs[id].status == Pending && GoesAhead(rules, rs[id], p, activated)
    ensures var (after, pairs, answer) := FinishApprove(rs, ps, id, p, activated);
            TablesOk(rules, after, pairs) && NoOrphans(after, pairs) && DecisionsKept(rs, after) && PairsKept(ps, pairs)
  {
    var (after, pairs, answer) := FinishApprove(rs, ps, id, p, activated);
    if p.pathId !in ps {
      FreshPairKeeps(rules, rs, ps, id, p.pathId, pairs[p.pathId], p.owner, pairs, after);
      NewPairBelongs(rs, ps, after, pairs, p.pathId, id);
    } else if SameParties(ps[p.pathId], p.requester, p.owner) {
      KnownPairKeeps(rules, rs, ps, id, p, activated, after);
    }
  }

  /** Approve, run in one piece, keeps everything. */
  lemma ApproveStepKeeps(lib: Library, rs: Requests, ps: Pairs, id: string, body: Option<Approval>, now: int, activated: int)
    requires TablesOk(RulesOf(lib), rs, ps) && NoOrphans(rs, ps)
    ensures var (after, pairs, answer) := ApproveStep(lib, rs, ps, id, body, now, activated);
            TablesOk(RulesOf(lib), after, pairs) && NoOrphans(after, pairs) &&
            DecisionsKept(rs, after) && PairsKept(ps, pairs)
  {
    var reading := ReadRequest(lib, rs, id, body, now);
    if reading.Proceed? {
      ProceedFacts(lib, rs, ps, id, body, now, activated);
      FinishKeeps(RulesOf(lib), rs, ps, id, reading, activated);
    }
  }

  lemma FinishNamesStoredPath(rs: Requests, ps: Pairs, id: string, p: Reading, activated: int)
    requires p.Proceed? ==> id in rs && rs[id].status == Pending && p.requester == rs[id].requester
    requires p.Returning? ==> id in rs && rs[id].status == Approved && rs[id].pathId == Some(p.pathId) && p.requester == rs[id].requester
    requires p.Stop? ==> !p.answer.ApprovedWith?
    ensures var (after, pairs, answer) := FinishApprove(rs, ps, id, p, activated);
            answer.ApprovedWith? ==>
              answer.id == id && id in after && after[id].status == Approved && after[id].pathId == Some(answer.pathId) &&
              answer.requesterHalf == after[id].requester
  {
  }

  /** A 200 from an uninterrupted approve names the path id stored on the request. */
  lemma ApprovedNamesStoredPath(lib: Library, rs: Requests, ps: Pairs, id: string, body: Option<Approval>, now: int, activated: int)
    ensures var (after, pairs, answer) := ApproveStep(lib, rs, ps, id, body, now, activated);
            answer.ApprovedWith? ==>
              answer.id == id && id in after && after[id].status == Approved && after[id].pathId == Some(answer.pathId) &&
              answer.requesterHalf == after[id].requester
  {
    FinishNamesStoredPath(rs, ps, id, ReadRequest(lib, rs, id, body, now), activated);
  }

  lemma ExpiredKeeps(rules: Rules, rs: Requests, ps: Pairs, now: int)
    requires TablesOk(rules, rs, ps) && NoOrphans(rs, ps)
    ensures var after := ExpirePending(rs, now); TablesOk(rules, after, ps) && NoOrphans(after, ps) && DecisionsKept(rs, after)
  {
    ExpireKeeps(rules, rs, ps, now);
    DecisionsKeepOrphansOut(rs, ExpirePending(rs, now), ps);
  }

  lemma SubmittedKeeps(lib: Library, rs: Requests, ps: Pairs, body: Option<Submission>, id: string, checked: int, now: int)
    requires TablesOk(RulesOf(lib), rs, ps) && NoOrphans(rs, ps)
    ensures var after := SubmitStep(lib, rs, body, id, checked, now).0;
            TablesOk(RulesOf(lib), after, ps) && NoOrphans(after, ps) && DecisionsKept(rs, after)
  {
    SubmitKeeps(lib, rs, ps, body, id, checked, now);
    DecisionsKeepOrphansOut(rs, SubmitStep(lib, rs, body, id, checked, now).0, ps);
  }

  lemma DeniedKeeps(rules: Rules, rs: Requests, ps: Pairs, id: string)
    requires TablesOk(rules, rs, ps) && NoOrphans(rs, ps)
    ensures var after := DenyStep(rs, id).0; TablesOk(rules, after, ps) && NoOrphans(after, ps) && DecisionsKept(rs, after)
  {
    DenyKeeps(rules, rs, ps, id);
    DecisionsKeepOrphansOut(rs, DenyStep(rs, id).0, ps);
  }

  lemma HandledKeeps(lib: Library, s: Flow, ev: Event)
    requires TablesOk(RulesOf(lib), s.rs, s.ps) && NoOrphans(s.rs, s.ps)
    ensures var t := Handled(lib, s, ev);
            TablesOk(RulesOf(lib), t.rs, t.ps) && NoOrphans(t.rs, t.ps) && DecisionsKept(s.rs, t.rs) && PairsKept(s.ps, t.ps)
  {
    match ev
    case Submit(body, newId, _, checked, now) => SubmittedKeeps(lib, s.rs, s.ps, body, newId, checked, now);
    case Approve(id, approval, _, checked, now) => ApproveStepKeeps(lib, s.rs, s.ps, id, approval, checked, now);
    case Deny(id, _) => DeniedKeeps(RulesOf(lib), s.rs, s.ps, id);
    case Poll(_) =>
    case Sweep(_) =>
  }

  lemma StepKeeps(lib: Library, s: Flow, ev: Event)
    requires TablesOk(RulesOf(lib), s.rs, s.ps) && NoOrphans(s.rs, s.ps)
    ensures var t := Step(lib, s, ev);
            TablesOk(RulesOf(lib), t.rs, t.ps) && NoOrphans(t.rs, t.ps) && DecisionsKept(s.rs, t.rs) && PairsKept(s.ps, t.ps)
  {
    var expired := Flow(ExpirePending(s.rs, ev.arrival), s.ps);
    ExpiredKeeps(RulesOf(lib), s.rs, s.ps, ev.arrival);
    HandledKeeps(lib, expired, ev);
    DecisionsCompose(s.rs, expired.rs, Step(lib, s, ev).rs);
  }

  function ApprovedPaths(rs: Requests): set<string> {
    set id | id in rs && rs[id].status == Approved && rs[id].pathId.Some? :: rs[id].pathId.value
  }

  lemma PairsMatchApprovals(rules: Rules, rs: Requests, ps: Pairs)
    requires TablesOk(rules, rs, ps) && NoOrphans(rs, ps)
    ensures ps.Keys == ApprovedPaths(rs)
  {
    forall key | key in ApprovedPaths(rs)
      ensures key in ps
    {
      var id :| id in rs && rs[id].status == Approved && rs[id].pathId == Some(key);
      assert RequestOk(rules, id, rs[id]) && Backed(rules, rs[id], ps);
    }
  }

  /** Every run from empty tables keeps every table invariant. */
  lemma {:induction false} RunKeeps(lib: Library, evs: seq<Event>)
    ensures var s := Run(lib, Flow(map[], map[]), evs); TablesOk(RulesOf(lib), s.rs, s.ps) && NoOrphans(s.rs, s.ps)
  {
    if evs != [] {
      RunKeeps(lib, evs[..|evs| - 1]);
      StepKeeps(lib, Run(lib, Flow(map[], map[]), evs[..|evs| - 1]), evs[|evs| - 1]);
    }
  }

  /** Over any run of uninterrupted handlers the pairs table holds exactly the
      path ids of approved requests. */
  lemma PairsAreApprovals(lib: Library, evs: seq<Event>)
    ensures var s := Run(lib, Flow(map[], map[]), evs); s.ps.Keys == ApprovedPaths(s.rs)
  {
    RunKeeps(lib, evs);
    var s := Run(lib, Flow(map[], map[]), evs);
    PairsMatchApprovals(RulesOf(lib), s.rs, s.ps);
  }

  /** A request that becomes approved was not past its deadline's second when the
      approving call arrived. */
  lemma NoLateApproval(lib: Library, s: Flow, ev: Event, id: string)
    requires id in s.rs && s.rs[id].status == Pending && ev.Approve?
    requires id in Step(lib, s, ev).rs && Step(lib, s, ev).rs[id].status == Approved
    ensures Second(ev.arrival) <= s.rs[id].expiresAt
  {
    var rs := ExpirePending(s.rs, ev.arrival);
    if s.rs[id].expiresAt < Second(ev.arrival) {
      DecidedStays(rs, s.ps, id, ev.id, ReadRequest(lib, rs, ev.id, ev.approval, ev.checked), ev.now);
    }
  }

  /** Approve changes no decided request. */
  lemma DecidedStays(rs: Requests, ps: Pairs, id: string, target: string, p: Reading, activated: int)
    requires id in rs && rs[id].status != Pending
    ensures var after := FinishApprove(rs, ps, target, p, activated).0; id in after && after[id] == rs[id]
  {
  }

  /** A half that passes the schema and is signed by the key that it names. */
  lemma SelfCheckedExactly(lib: Library, h: Half)
    ensures SelfChecked(lib, h) <==> AllPass(HalfChecks(h)) && SelfSigned(lib, h)
  {
    SchemaExactly(h, 0);
    if ParseHalf(h).Parsed? {
      VerifiesExactly(lib, h);
    }
  }

  /** A submission is staged exactly when it names a target, its half passes the
      schema and is signed by its own key, its timestamp is fresh and the drawn id
      is new; one pending request is added, due a day later, and a poll shows it. */
  lemma SubmitAcceptsExactly(lib: Library, rs: Requests, body: Option<Submission>, id: string, checked: int, now: int)
    ensures var (after, answer) := SubmitStep(lib, rs, body, id, checked, now);
            answer.Created? <==>
              body.Some? && body.value.target != "" && |Utf8Text(body.value.target)| <= 256 &&
              AllPass(HalfChecks(body.value.requester)) && SelfSigned(lib, body.value.requester) &&
              Mailbox.Fresh(lib, body.value.requester.ts, checked) && id !in rs
    ensures var (after, answer) := SubmitStep(lib, rs, body, id, checked, now);
            if answer.Created? then
              var due := now / 1_000_000_000 + 24 * 3600;
              answer == Created(id, due) &&
              after == rs[id := PairRequest(id, Pending, now / 1_000_000_000, due, None, body.value.requester, NoOwner, body.value.target)] &&
              (Uuid.UuidShape(id) ==> PollAnswer(after, id) == StatusReport(id, Pending, None, None))
            else after == rs
  {
    SubmitProblemExactly(lib, body, checked);
    if SubmitProblem(lib, body, checked).None? {
      StagedPolls(rs, body.value, id, now);
    }
  }

  lemma SubmitProblemExactly(lib: Library, body: Option<Submission>, checked: int)
    ensures SubmitProblem(lib, body, checked).None? <==>
            body.Some? && body.value.target != "" && |Utf8Text(body.value.target)| <= 256 &&
            AllPass(HalfChecks(body.value.requester)) && SelfSigned(lib, body.value.requester) &&
            Mailbox.Fresh(lib, body.value.requester.ts, checked)
    ensures SubmitProblem(lib, body, checked).Some? ==> SubmitProblem(lib, body, checked).value.Rejected?
  {
    if body.Some? {
      SizeIsOctets(body.value.target);
      SelfCheckedExactly(lib, body.value.requester);
      Mailbox.FreshExactly(lib, body.value.requester.ts, checked);
    }
  }

  lemma StagedPolls(rs: Requests, body: Submission, id: string, now: int)
    ensures var (after, answer) := StageRequest(rs, body, id, now);
            var due := now / 1_000_000_000 + 24 * 3600;
            if id in rs then answer.Rejected? && after == rs
            else
              answer == Created(id, due) &&
              after == rs[id := PairRequest(id, Pending, now / 1_000_000_000, due, None, body.requester, NoOwner, body.target)] &&
              (Uuid.UuidShape(id) ==> PollAnswer(after, id) == StatusReport(id, Pending, None, None))
  {
    DayLater(now);
  }

  lemma DayLater(now: int)
    ensures Second(now + REQUEST_TTL) == Second(now) + 24 * 3600
  {
  }

  /** Approve goes ahead exactly on a pending request with a fresh owner half that
      passes the schema and is signed by its own key; the two halves' algorithms
      always agree by then. */
  lemma ApproveProceedsExactly(lib: Library, rs: Requests, ps: Pairs, id: string, body: Option<Approval>, now: int)
    requires TablesOk(RulesOf(lib), rs, ps)
    ensures ReadRequest(lib, rs, id, body, now).Proceed? <==>
            Uuid.UuidShape(id) && body.Some? && id in rs && rs[id].status == Pending &&
            AllPass(HalfChecks(body.value.owner)) && SelfSigned(lib, body.value.owner) &&
            Mailbox.Fresh(lib, body.value.owner.ts, now)
    ensures ReadRequest(lib, rs, id, body, now) != Stop(Rejected(400, SigAlgMismatch))
  {
    if body.Some? && id in rs {
      assert RequestOk(RulesOf(lib), id, rs[id]);
      CheckedHalf(lib, rs[id].requester);
      OwnerProceedsExactly(lib, rs[id].requester, body.value, now);
      SelfCheckedExactly(lib, body.value.owner);
      Mailbox.FreshExactly(lib, body.value.owner.ts, now);
    }
  }

  lemma OwnerProceedsExactly(lib: Library, requester: Half, body: Approval, now: int)
    requires requester.sigAlg == "ed25519"
    ensures CheckOwner(lib, requester, body, now).Proceed? <==>
            SelfChecked(lib, body.owner) && Mailbox.TsInWindow(lib, body.owner.ts, now)
    ensures !CheckOwner(lib, requester, body, now).Returning?
    ensures CheckOwner(lib, requester, body, now) != Stop(Rejected(400, SigAlgMismatch))
  {
  }

  /** A denial succeeds exactly on a pending or already denied request, which is
      denied from then on; otherwise it changes nothing. */
  lemma DenyExactly(rs: Requests, id: string)
    ensures var (after, answer) := DenyStep(rs, id);
            (answer == DeniedOk(id) <==> Uuid.UuidShape(id) && id in rs && rs[id].status in {Pending, Denied}) &&
            (answer == DeniedOk(id) ==>
               id in after && after[id].status == Denied && after[id].pathId == rs[id].pathId &&
               PollAnswer(after, id) == StatusReport(id, Denied, rs[id].pathId, None)) &&
            (answer != DeniedOk(id) ==> after == rs)
  {
  }

  /** Whatever runs after a denial, an approval of that request is refused and
      changes nothing. */
  lemma NoApprovalAfterDenial(lib: Library, rs: Requests, later: Requests, ps: Pairs, id: string, body: Option<Approval>,
                              now: int, activated: int)
    requires DenyStep(rs, id).1 == DeniedOk(id) && DecisionsKept(DenyStep(rs, id).0, later) && body.Some?
    ensures ApproveStep(lib, later, ps, id, body, now, activated) == (later, ps, Rejected(409, RequestNotPending))
  {
    DenyExactly(rs, id);
    var after := DenyStep(rs, id).0;
    assert id in later && later[id] == after[id];
  }

  /** What a 200 leaves behind: the caller's own half passed the schema and was
      signed by its key, and that key is the stored pair's. */
  lemma ApprovedFacts(lib: Library, rs: Requests, ps: Pairs, id: string, body: Option<Approval>, now: int, activated: int)
    requires TablesOk(RulesOf(lib), rs, ps)
    ensures var (after, pairs, answer) := ApproveStep(lib, rs, ps, id, body, now, activated);
            answer.ApprovedWith? ==>
              Uuid.UuidShape(id) && body.Some? &&
              AllPass(HalfChecks(body.value.owner)) && SelfSigned(lib, body.value.owner) &&
              answer.pathId in pairs && pairs[answer.pathId].ownerPubkey == body.value.owner.pubkey
  {
    var reading := ReadRequest(lib, rs, id, body, now);
    ReadingFacts(lib, rs, id, body, now);
    if body.Some? {
      SelfCheckedExactly(lib, body.value.owner);
    }
    if reading.Proceed? {
      ProceedFacts(lib, rs, ps, id, body, now, activated);
      assert RulesOf(lib).checked(reading.owner) == SelfChecked(lib, reading.owner);
      assert reading.owner == body.value.owner;
    }
    PairAfterFinish(rs, ps, id, reading, activated);
  }

  lemma ReadingFacts(lib: Library, rs: Requests, id: string, body: Option<Approval>, now: int)
    ensures var r := ReadRequest(lib, rs, id, body, now);
            (r.Stop? ==> !r.answer.ApprovedWith?) && (!r.Stop? ==> Uuid.UuidShape(id) && body.Some?) &&
            (r.Returning? ==> r.owner == body.value.owner && SelfChecked(lib, r.owner) && id in rs &&
                              rs[id].status == Approved && rs[id].pathId == Some(r.pathId) && r.requester == rs[id].requester) &&
            (r.Proceed? ==> id in rs && rs[id].status == Pending)
  {
  }

  lemma PairAfterFinish(rs: Requests, ps: Pairs, id: string, r: Reading, activated: int)
    requires r.Stop? ==> !r.answer.ApprovedWith?
    ensures var (after, pairs, answer) := FinishApprove(rs, ps, id, r, activated);
            answer.ApprovedWith? ==>
              !r.Stop? && answer.pathId == r.pathId && r.pathId in pairs && pairs[r.pathId].ownerPubkey == r.owner.pubkey
  {
  }

  lemma Repeats(lib: Library, rs: Requests, ps: Pairs, id: string, body: Option<Approval>, pathId: string, now: int, activated: int)
    requires Uuid.UuidShape(id) && body.Some? && SelfChecked(lib, body.value.owner)
    requires id in rs && rs[id].status == Approved && rs[id].pathId == Some(pathId)
    requires pathId in ps && ps[pathId].ownerPubkey == body.value.owner.pubkey
    ensures ApproveStep(lib, rs, ps, id, body, now, activated) == (rs, ps, ApprovedWith(id, pathId, rs[id].requester))
  {
    assert ReadRequest(lib, rs, id, body, now) == Returning(body.value.owner, pathId, rs[id].requester);
  }

  /** Approve is idempotent: at any later time, whatever ran since, the same call
      gets the same 200 and changes nothing. */
  lemma ApproveTwice(lib: Library, rs: Requests, ps: Pairs, id: string, body: Option<Approval>, now: int, activated: int,
                     laterRs: Requests, laterPs: Pairs, later: int)
    requires TablesOk(RulesOf(lib), rs, ps)
    requires var (after, pairs, answer) := ApproveStep(lib, rs, ps, id, body, now, activated);
             answer.ApprovedWith? && DecisionsKept(after, laterRs) && PairsKept(pairs, laterPs)
    ensures ApproveStep(lib, laterRs, laterPs, id, body, later, later) ==
            (laterRs, laterPs, ApproveStep(lib, rs, ps, id, body, now, activated).2)
  {
    var (after, pairs, answer) := ApproveStep(lib, rs, ps, id, body, now, activated);
    ApprovedFacts(lib, rs, ps, id, body, now, activated);
    SelfCheckedExactly(lib, body.value.owner);
    ApprovedNamesStoredPath(lib, rs, ps, id, body, now, activated);
    SameLater(after, pairs, laterRs, laterPs, id, answer.pathId);
    Repeats(lib, laterRs, laterPs, id, body, answer.pathId, later, later);
  }

  lemma SameLater(rs: Requests, ps: Pairs, laterRs: Requests, laterPs: Pairs, id: string, key: string)
    requires DecisionsKept(rs, laterRs) && PairsKept(ps, laterPs)
    requires id in rs && rs[id].status == Approved && key in ps
    ensures id in laterRs && laterRs[id] == rs[id] && key in laterPs && laterPs[key] == ps[key]
  {
  }

  // ---- What the requester sees ----

  lemma FinishThenPoll(rules: Rules, rs: Requests, ps: Pairs, id: string, p: Reading, activated: int)
    requires p.Proceed? && Uuid.UuidShape(id) && id in rs && rs[id].status == Pending && GoesAhead(rules, rs[id], p, activated)
    ensures var (after, pairs, answer) := FinishApprove(rs, ps, id, p, activated);
            answer.ApprovedWith? ==>
              PollAnswer(after, id) == StatusReport(id, Approved, Some(p.pathId),
                                         if p.pathId !in ps then Some(p.owner) else p.wholeBody.topLevel)
  {
  }

  /** The half a later poll shows: the owner's when approve inserted the pair
      itself, the body's top level when it found the pair already there. */
  lemma ApprovalThenPoll(lib: Library, rs: Requests, ps: Pairs, id: string, body: Option<Approval>, now: int, activated: int)
    requires TablesOk(RulesOf(lib), rs, ps) && ReadRequest(lib, rs, id, body, now).Proceed?
    ensures body.Some?
    ensures var pathId := ReadRequest(lib, rs, id, body, now).pathId;
            var (after, pairs, answer) := ApproveStep(lib, rs, ps, id, body, now, activated);
            answer.ApprovedWith? ==>
              PollAnswer(after, id) == StatusReport(id, Approved, Some(pathId),
                                         if pathId !in ps then Some(body.value.owner) else body.value.topLevel)
  {
    ProceedFacts(lib, rs, ps, id, body, now, activated);
    FinishThenPoll(RulesOf(lib), rs, ps, id, ReadRequest(lib, rs, id, body, now), activated);
  }

  /** A later poll shows the owner half that approve accepted exactly when approve
      inserted the pair itself, or the whole body reads as that half. */
  lemma PollShowsOwnerExactly(lib: Library, rs: Requests, ps: Pairs, id: string, body: Option<Approval>, now: int, activated: int)
    requires TablesOk(RulesOf(lib), rs, ps) && ReadRequest(lib, rs, id, body, now).Proceed?
    requires ApproveStep(lib, rs, ps, id, body, now, activated).2.ApprovedWith?
    ensures body.Some?
    ensures var pathId := ReadRequest(lib, rs, id, body, now).pathId;
            var after := ApproveStep(lib, rs, ps, id, body, now, activated).0;
            PollAnswer(after, id) == StatusReport(id, Approved, Some(pathId), Some(body.value.owner)) <==>
            pathId !in ps || body.value.topLevel == Some(body.value.owner)
  {
    ApprovalThenPoll(lib, rs, ps, id, body, now, activated);
  }

  /** Every activated pair has a mailbox that works: its address is well formed
      and the verifier never fails on its stored keys. */
  lemma ActivatedPairIsUsable(lib: Library, key: string, p: Pair, signature: string, text: string)
    requires PathId.Digests32(lib.sha256) && PairOk(RulesOf(lib), key, p)
    ensures PathId.PathIdShape(key) && Mailbox.Identify(lib, p, signature, text) != Mailbox.Broken
  {
    PathId.ComputedShape(lib.sha256, RawText(p.requesterPubkey), RawText(p.ownerPubkey));
  }
}
