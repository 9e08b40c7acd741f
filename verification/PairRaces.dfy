/** Approval when its database calls interleave with those of other handlers.
    Each call is one call on the tables; approvers remember how far they got. */
module PairRaces {
  import opened Lex
  import opened Foreign
  import opened SelfSig
  import opened Storage
  import opened PairFlow
  import opened PairRuns

  datatype Stage =
    /** The request was pending and the owner half is good; nothing written yet. */
    | Checked
    /** This approver's own insert of the pair went through. */
    | Inserted
    /** The insert found a pair at the same path. */
    | Collided
    /** ... and that pair stands for the same two parties. */
    | Matched
    /** The conditional update after an insert touched no row. */
    | Missed
    /** A returning caller, about to look at the pair. */
    | Looking
    | Finished(answer: Answer)

  /** `inserted` and `stored` record which of its two writes took effect. */
  datatype Approver = Approver(id: string, reading: Reading, inserted: bool, stored: bool, stage: Stage)

  datatype Net = Net(rs: Requests, ps: Pairs, approvers: map<nat, Approver>)

  datatype Call =
    | Begin(who: nat, id: string, body: Option<Approval>, now: int)
    | Insert(who: nat, activated: int)
    | Compare(who: nat)
    | Update(who: nat)
    | Lookup(who: nat)
    | Submit(submission: Option<Submission>, id: string, checked: int, now: int)
    | Deny(id: string)
    | Expire(now: int)

  // ---- The steps of an approver ----

  function Started(id: string, r: Reading): Approver {
    Approver(id, r, false, false, if r.Stop? then Finished(r.answer) else if r.Returning? then Looking else Checked)
  }

  function InsertStep(n: Net, who: nat, a: Approver, activated: int): Net
    requires a.reading.Proceed?
  {
    var p := a.reading;
    if p.pathId in n.ps then n.(approvers := n.approvers[who := a.(stage := Collided)])
    else Net(n.rs, n.ps[p.pathId := NewPair(p.requester, p.owner, p.pathId, activated)],
             n.approvers[who := a.(stage := Inserted, inserted := true)])
  }

  function Compared(ps: Pairs, a: Approver): Approver
    requires a.reading.Proceed?
  {
    if a.reading.pathId in ps && SameParties(ps[a.reading.pathId], a.reading.requester, a.reading.owner)
    then a.(stage := Matched)
    else a.(stage := Finished(Rejected(409, PairConflict)))
  }

  function Success(a: Approver): Answer
    requires a.reading.Proceed?
  {
    ApprovedWith(a.id, a.reading.pathId, a.reading.requester)
  }

  /** The conditional update. After an insert its outcome decides; after a match
      the answer is 200 whatever the outcome. */
  function UpdateStep(n: Net, who: nat, a: Approver, doc: OwnerDoc): Net
    requires a.reading.Proceed?
  {
    var hit := a.id in n.rs && n.rs[a.id].status == Pending;
    var stage := if hit || a.stage == Matched then Finished(Success(a)) else Missed;
    Net(UpdatePending(n.rs, a.id, Approved, doc, Some(a.reading.pathId)), n.ps,
        n.approvers[who := a.(stored := hit, stage := stage)])
  }

  /** After an insert the owner column gets the owner half; after a match, the
      whole body. */
  function Updated(n: Net, who: nat): Net
    requires who in n.approvers && n.approvers[who].reading.Proceed?
  {
    var a := n.approvers[who];
    UpdateStep(n, who, a, if a.stage == Inserted then OwnerHalf(a.reading.owner) else a.reading.wholeBody)
  }

  /** The second read of an update that touched no row. */
  function LookedUp(rs: Requests, a: Approver): Approver
    requires a.reading.Proceed?
  {
    a.(stage := Finished(
      if a.id !in rs || rs[a.id].status == Pending then Rejected(500, StorageError)
      else if rs[a.id].status == Approved then Success(a)
      else Rejected(409, RequestNotPendingConcurrent)))
  }

  /** Approver `who` goes ahead and has come this far. */
  predicate At(n: Net, who: nat, stage: Stage) {
    who in n.approvers && n.approvers[who].stage == stage && n.approvers[who].reading.Proceed?
  }

  predicate AtReturn(n: Net, who: nat) {
    who in n.approvers && n.approvers[who].stage == Looking && n.approvers[who].reading.Returning?
  }

  predicate Enabled(n: Net, ev: Call) {
    match ev
    case Begin(who, _, _, _) => who !in n.approvers
    case Insert(who, _) => At(n, who, Checked)
    case Compare(who) => At(n, who, Collided) || AtReturn(n, who)
    case Update(who) => At(n, who, Inserted) || At(n, who, Matched)
    case Lookup(who) => At(n, who, Missed)
    case _ => true
  }

  function Step(lib: Library, n: Net, ev: Call): Net {
    if !Enabled(n, ev) then n else
    match ev
    case Begin(who, id, body, now) => n.(approvers := n.approvers[who := Started(id, ReadRequest(lib, n.rs, id, body, now))])
    case Insert(who, activated) => InsertStep(n, who, n.approvers[who], activated)
    case Compare(who) =>
      var a := n.approvers[who];
      n.(approvers := n.approvers[who := if a.stage == Collided then Compared(n.ps, a)
                                         else a.(stage := Finished(ReturningAnswer(n.ps, a.id, a.reading)))])
    case Update(who) => Updated(n, who)
    case Lookup(who) => n.(approvers := n.approvers[who := LookedUp(n.rs, n.approvers[who])])
    case Submit(submission, id, checked, now) => n.(rs := SubmitStep(lib, n.rs, submission, id, checked, now).0)
    case Deny(id) => n.(rs := DenyStep(n.rs, id).0)
    case Expire(now) => n.(rs := ExpirePending(n.rs, now))
  }

  function Run(lib: Library, n: Net, evs: seq<Call>): Net
    decreases evs
  {
    if evs == [] then n else Run(lib, Step(lib, n, evs[0]), evs[1..])
  }

  const START: Net := Net(map[], map[], map[])

  // ---- What holds between any two steps ----

  predicate Told200(a: Approver) {
    a.stage.Finished? && a.stage.answer.ApprovedWith?
  }

  /** An approver that goes ahead holds a checked half for its request's requester. */
  ghost predicate AheadOk(rules: Rules, rs: Requests, ps: Pairs, a: Approver)
    requires a.reading.Proceed?
  {
    var p := a.reading;
    a.id in rs && GoesAhead(rules, rs[a.id], p, 0) && a.stage != Looking &&
    (a.inserted || a.stage == Matched || Told200(a) ==> p.pathId in ps && SameParties(ps[p.pathId], p.requester, p.owner)) &&
    (a.stage == Inserted || a.stage == Missed ==> a.inserted && !a.stored) &&
    (a.stage == Checked || a.stage == Collided || a.stage == Matched ==> !a.inserted && !a.stored) &&
    (a.stage == Missed ==> rs[a.id].status != Pending) &&
    (a.stored ==> rs[a.id].status == Approved && rs[a.id].pathId == Some(p.pathId)) &&
    (Told200(a) ==> a.stage.answer == Success(a) && rs[a.id].status != Pending) &&
    (a.stage.Finished? && a.inserted ==>
       rs[a.id].status != Pending && (Told200(a) <==> rs[a.id].status == Approved))
  }

  /** A returning caller is answered from the stored request. */
  ghost predicate ReturnOk(rs: Requests, a: Approver)
    requires a.reading.Returning?
  {
    a.id in rs && rs[a.id].status == Approved && rs[a.id].pathId == Some(a.reading.pathId) &&
    a.reading.requester == rs[a.id].requester && !a.inserted && !a.stored && (a.stage == Looking || a.stage.Finished?) &&
    (Told200(a) ==>
       a.stage.answer == ApprovedWith(a.id, a.reading.pathId, a.reading.requester))
  }

  ghost predicate ApproverOk(rules: Rules, rs: Requests, ps: Pairs, a: Approver) {
    match a.reading
    case Stop(answer) => a.stage == Finished(answer) && !a.inserted && !a.stored && !answer.ApprovedWith?
    case Returning(_, _, _) => ReturnOk(rs, a)
    case Proceed(_, _, _, _) => AheadOk(rules, rs, ps, a)
  }

  ghost predicate ApproversOk(rules: Rules, n: Net) {
    forall who :: who in n.approvers ==> ApproverOk(rules, n.rs, n.ps, n.approvers[who])
  }

  ghost predicate ByRequest(rs: Requests, key: string) {
    exists id :: id in rs && rs[id].status == Approved && rs[id].pathId == Some(key)
  }

  /** An approver inserted the pair but its path is not (or not yet) stored by it. */
  predicate Unstored(a: Approver) {
    a.inserted && !a.stored && a.reading.Proceed?
  }

  ghost predicate ByApprover(approvers: map<nat, Approver>, key: string) {
    exists who :: who in approvers && Unstored(approvers[who]) && approvers[who].reading.pathId == key
  }

  ghost predicate Explained(n: Net) {
    forall key :: key in n.ps ==> ByRequest(n.rs, key) || ByApprover(n.approvers, key)
  }

  ghost predicate NetOk(rules: Rules, n: Net) {
    TablesOk(rules, n.rs, n.ps) && ApproversOk(rules, n) && Explained(n)
  }

  /** Approvers stay, with their history; a finished one never changes. */
  ghost predicate HistoryKept(before: map<nat, Approver>, after: map<nat, Approver>) {
    forall who :: who in before ==>
      who in after && after[who].id == before[who].id && after[who].reading == before[who].reading &&
      (before[who].stage.Finished? ==> after[who] == before[who])
  }

  ghost predicate Kept(n: Net, after: Net) {
    DecisionsKept(n.rs, after.rs) && PairsKept(n.ps, after.ps) && HistoryKept(n.approvers, after.approvers)
  }

  // ---- One step ----

  lemma ApproverStays(rules: Rules, rs: Requests, ps: Pairs, after: Requests, pairs: Pairs, a: Approver)
    requires ApproverOk(rules, rs, ps, a) && DecisionsKept(rs, after) && PairsKept(ps, pairs)
    ensures ApproverOk(rules, after, pairs, a)
  {
  }

  /** Table changes alone disturb no approver. */
  lemma TablesChange(rules: Rules, n: Net, after: Requests)
    requires NetOk(rules, n) && TablesOk(rules, after, n.ps) && DecisionsKept(n.rs, after)
    ensures NetOk(rules, n.(rs := after)) && Kept(n, n.(rs := after))
  {
    forall who | who in n.approvers
      ensures ApproverOk(rules, after, n.ps, n.approvers[who])
    {
      ApproverStays(rules, n.rs, n.ps, after, n.ps, n.approvers[who]);
    }
    forall key | key in n.ps && ByRequest(n.rs, key)
      ensures ByRequest(after, key)
    {
      RequestStays(n.rs, after, key);
    }
  }

  lemma RequestStays(rs: Requests, after: Requests, key: string)
    requires ByRequest(rs, key) && DecisionsKept(rs, after)
    ensures ByRequest(after, key)
  {
    var id :| id in rs && rs[id].status == Approved && rs[id].pathId == Some(key);
    assert after[id] == rs[id];
  }

  /** Approver `who` is new, or moves on with its reading. */
  ghost predicate MovesTo(n: Net, who: nat, b: Approver) {
    who in n.approvers ==>
      !n.approvers[who].stage.Finished? && b.id == n.approvers[who].id && b.reading == n.approvers[who].reading
  }

  lemma OthersStay(rules: Rules, n: Net, who: nat, b: Approver, after: Requests, pairs: Pairs)
    requires ApproversOk(rules, n) && DecisionsKept(n.rs, after) && PairsKept(n.ps, pairs)
    requires ApproverOk(rules, after, pairs, b)
    ensures ApproversOk(rules, Net(after, pairs, n.approvers[who := b]))
  {
    forall w | w in n.approvers && w != who
      ensures ApproverOk(rules, after, pairs, n.approvers[w])
    {
      ApproverStays(rules, n.rs, n.ps, after, pairs, n.approvers[w]);
    }
  }

  lemma PairsStayExplained(n: Net, who: nat, b: Approver, after: Requests, pairs: Pairs)
    requires Explained(n) && DecisionsKept(n.rs, after) && MovesTo(n, who, b)
    requires who in n.approvers && Unstored(n.approvers[who]) ==> Unstored(b) || ByRequest(after, b.reading.pathId)
    requires forall key :: key in pairs && key !in n.ps ==> Unstored(b) && b.reading.pathId == key
    ensures Explained(Net(after, pairs, n.approvers[who := b]))
  {
    var approvers := n.approvers[who := b];
    forall key | key in pairs
      ensures ByRequest(after, key) || ByApprover(approvers, key)
    {
      if key !in n.ps {
        assert who in approvers && Unstored(approvers[who]);
      } else if ByRequest(n.rs, key) {
        RequestStays(n.rs, after, key);
      } else {
        var w :| w in n.approvers && Unstored(n.approvers[w]) && n.approvers[w].reading.pathId == key;
        assert w in approvers && (w != who ==> approvers[w] == n.approvers[w]);
        assert w == who && !Unstored(b) ==> ByRequest(after, key);
      }
    }
  }

  /** One approver moves on, writing to the tables or not. */
  lemma ApproverMoves(rules: Rules, n: Net, who: nat, b: Approver, after: Requests, pairs: Pairs)
    requires NetOk(rules, n) && TablesOk(rules, after, pairs) && DecisionsKept(n.rs, after) && PairsKept(n.ps, pairs)
    requires ApproverOk(rules, after, pairs, b) && MovesTo(n, who, b)
    requires who in n.approvers && Unstored(n.approvers[who]) ==> Unstored(b) || ByRequest(after, b.reading.pathId)
    requires forall key :: key in pairs && key !in n.ps ==> Unstored(b) && b.reading.pathId == key
    ensures var m := Net(after, pairs, n.approvers[who := b]); NetOk(rules, m) && Kept(n, m)
  {
    OthersStay(rules, n, who, b, after, pairs);
    PairsStayExplained(n, who, b, after, pairs);
  }

  lemma AnyActivation(rules: Rules, r: PairRequest, p: Reading, activated: int)
    requires GoesAhead(rules, r, p, 0)
    ensures GoesAhead(rules, r, p, activated)
  {
  }

  lemma InsertKeeps(rules: Rules, n: Net, who: nat, activated: int)
    requires NetOk(rules, n) && At(n, who, Checked)
    ensures var m := InsertStep(n, who, n.approvers[who], activated); NetOk(rules, m) && Kept(n, m)
  {
    var a := n.approvers[who];
    var p := a.reading;
    assert ApproverOk(rules, n.rs, n.ps, a);
    AnyActivation(rules, n.rs[a.id], p, activated);
    if p.pathId in n.ps {
      ApproverMoves(rules, n, who, a.(stage := Collided), n.rs, n.ps);
    } else {
      var pair := NewPair(p.requester, p.owner, p.pathId, activated);
      InsertPairKeeps(rules, n.rs, n.ps, p.pathId, pair);
      ApproverMoves(rules, n, who, a.(stage := Inserted, inserted := true), n.rs, n.ps[p.pathId := pair]);
    }
  }

  lemma CompareKeeps(rules: Rules, n: Net, who: nat)
    requires NetOk(rules, n) && At(n, who, Collided)
    ensures var m := n.(approvers := n.approvers[who := Compared(n.ps, n.approvers[who])]); NetOk(rules, m) && Kept(n, m)
  {
    assert ApproverOk(rules, n.rs, n.ps, n.approvers[who]);
    ApproverMoves(rules, n, who, Compared(n.ps, n.approvers[who]), n.rs, n.ps);
  }

  lemma ReturnKeeps(rules: Rules, n: Net, who: nat)
    requires NetOk(rules, n) && AtReturn(n, who)
    ensures var a := n.approvers[who];
            var m := n.(approvers := n.approvers[who := a.(stage := Finished(ReturningAnswer(n.ps, a.id, a.reading)))]);
            NetOk(rules, m) && Kept(n, m)
  {
    var a := n.approvers[who];
    assert ApproverOk(rules, n.rs, n.ps, a);
    ApproverMoves(rules, n, who, a.(stage := Finished(ReturningAnswer(n.ps, a.id, a.reading))), n.rs, n.ps);
  }

  lemma UpdateKeeps(rules: Rules, n: Net, who: nat, doc: OwnerDoc)
    requires NetOk(rules, n) && (At(n, who, Inserted) || At(n, who, Matched))
    requires doc != NoOwner && OwnerOf(doc) == n.approvers[who].reading.owner
    ensures var m := UpdateStep(n, who, n.approvers[who], doc); NetOk(rules, m) && Kept(n, m)
  {
    var a := n.approvers[who];
    var m := UpdateStep(n, who, a, doc);
    assert ApproverOk(rules, n.rs, n.ps, a);
    ApproveKeeps(rules, n.rs, n.ps, a.id, doc, a.reading.pathId);
    UpdatedOk(rules, n, who, doc);
    ApproverMoves(rules, n, who, m.approvers[who], m.rs, n.ps);
  }

  lemma UpdatedOk(rules: Rules, n: Net, who: nat, doc: OwnerDoc)
    requires (At(n, who, Inserted) || At(n, who, Matched)) && AheadOk(rules, n.rs, n.ps, n.approvers[who]) && doc != NoOwner
    ensures var m := UpdateStep(n, who, n.approvers[who], doc);
            ApproverOk(rules, m.rs, n.ps, m.approvers[who]) &&
            (Unstored(n.approvers[who]) ==> Unstored(m.approvers[who]) || ByRequest(m.rs, m.approvers[who].reading.pathId))
  {
    var m := UpdateStep(n, who, n.approvers[who], doc);
    var id := n.approvers[who].id;
    assert id in m.rs;
  }

  lemma LookupKeeps(rules: Rules, n: Net, who: nat)
    requires NetOk(rules, n) && At(n, who, Missed)
    ensures var m := n.(approvers := n.approvers[who := LookedUp(n.rs, n.approvers[who])]); NetOk(rules, m) && Kept(n, m)
  {
    assert ApproverOk(rules, n.rs, n.ps, n.approvers[who]);
    ApproverMoves(rules, n, who, LookedUp(n.rs, n.approvers[who]), n.rs, n.ps);
  }

  lemma BeginKeeps(lib: Library, n: Net, who: nat, id: string, body: Option<Approval>, now: int)
    requires NetOk(RulesOf(lib), n) && who !in n.approvers
    ensures var m := n.(approvers := n.approvers[who := Started(id, ReadRequest(lib, n.rs, id, body, now))]);
            NetOk(RulesOf(lib), m) && Kept(n, m)
  {
    var r := ReadRequest(lib, n.rs, id, body, now);
    StartedOk(lib, n.rs, n.ps, id, body, now);
    ApproverMoves(RulesOf(lib), n, who, Started(id, r), n.rs, n.ps);
  }

  lemma StartedOk(lib: Library, rs: Requests, ps: Pairs, id: string, body: Option<Approval>, now: int)
    requires TablesOk(RulesOf(lib), rs, ps)
    ensures ApproverOk(RulesOf(lib), rs, ps, Started(id, ReadRequest(lib, rs, id, body, now)))
  {
    var r := ReadRequest(lib, rs, id, body, now);
    ReadingFacts(lib, rs, id, body, now);
    if r.Proceed? {
      ProceedFacts(lib, rs, ps, id, body, now, 0);
    }
    StartedFrom(RulesOf(lib), rs, ps, id, r);
  }

  lemma StartedFrom(rules: Rules, rs: Requests, ps: Pairs, id: string, r: Reading)
    requires r.Stop? ==> !r.answer.ApprovedWith?
    requires r.Returning? ==>
               id in rs && rs[id].status == Approved && rs[id].pathId == Some(r.pathId) && r.requester == rs[id].requester
    requires r.Proceed? ==> id in rs && GoesAhead(rules, rs[id], r, 0)
    ensures ApproverOk(rules, rs, ps, Started(id, r))
  {
  }

  /** Every step, enabled or not, keeps all of it. */
  lemma StepKeeps(lib: Library, n: Net, ev: Call)
    requires NetOk(RulesOf(lib), n)
    ensures NetOk(RulesOf(lib), Step(lib, n, ev)) && Kept(n, Step(lib, n, ev))
  {
    var rules := RulesOf(lib);
    if Enabled(n, ev) {
      match ev
      case Begin(who, id, body, now) => BeginKeeps(lib, n, who, id, body, now);
      case Insert(who, activated) => InsertKeeps(rules, n, who, activated);
      case Compare(who) =>
        if At(n, who, Collided) {
          CompareKeeps(rules, n, who);
        } else {
          ReturnKeeps(rules, n, who);
        }
      case Update(who) =>
        assert ApproverOk(rules, n.rs, n.ps, n.approvers[who]);
        var a := n.approvers[who];
        UpdateKeeps(rules, n, who, if a.stage == Inserted then OwnerHalf(a.reading.owner) else a.reading.wholeBody);
      case Lookup(who) => LookupKeeps(rules, n, who);
      case Submit(submission, id, checked, now) =>
        SubmitKeeps(lib, n.rs, n.ps, submission, id, checked, now);
        TablesChange(rules, n, SubmitStep(lib, n.rs, submission, id, checked, now).0);
      case Deny(id) =>
        DenyKeeps(rules, n.rs, n.ps, id);
        TablesChange(rules, n, DenyStep(n.rs, id).0);
      case Expire(now) =>
        ExpireKeeps(rules, n.rs, n.ps, now);
        TablesChange(rules, n, ExpirePending(n.rs, now));
    }
  }

  lemma KeptCompose(a: Net, b: Net, c: Net)
    requires Kept(a, b) && Kept(b, c)
    ensures Kept(a, c)
  {
    DecisionsCompose(a.rs, b.rs, c.rs);
    forall who | who in a.approvers
      ensures who in c.approvers && c.approvers[who].id == a.approvers[who].id &&
              c.approvers[who].reading == a.approvers[who].reading &&
              (a.approvers[who].stage.Finished? ==> c.approvers[who] == a.approvers[who])
    {
      assert who in b.approvers;
    }
  }

  // ---- Whole runs ----

  /** However the steps interleave: the table invariants hold, a decided request
      never changes, pairs are never altered or removed, answers stand. */
  lemma {:induction false} RunKeeps(lib: Library, n: Net, evs: seq<Call>)
    requires NetOk(RulesOf(lib), n)
    ensures NetOk(RulesOf(lib), Run(lib, n, evs)) && Kept(n, Run(lib, n, evs))
    decreases evs
  {
    if evs != [] {
      var m := Step(lib, n, evs[0]);
      StepKeeps(lib, n, evs[0]);
      RunKeeps(lib, m, evs[1..]);
      KeptCompose(n, m, Run(lib, m, evs[1..]));
    }
  }

  lemma FromStart(lib: Library, evs: seq<Call>)
    ensures NetOk(RulesOf(lib), Run(lib, START, evs))
  {
    RunKeeps(lib, START, evs);
  }

  function UnstoredPaths(approvers: map<nat, Approver>): set<string> {
    set who | who in approvers && Unstored(approvers[who]) :: approvers[who].reading.pathId
  }

  /** After any interleaving the pairs table holds exactly the path ids of approved
      requests, plus those that an approver inserted without storing them. */
  lemma PairsExactly(lib: Library, evs: seq<Call>)
    ensures var n := Run(lib, START, evs); n.ps.Keys == ApprovedPaths(n.rs) + UnstoredPaths(n.approvers)
  {
    FromStart(lib, evs);
    PairsOf(RulesOf(lib), Run(lib, START, evs));
  }

  lemma PairsOf(rules: Rules, n: Net)
    requires NetOk(rules, n)
    ensures n.ps.Keys == ApprovedPaths(n.rs) + UnstoredPaths(n.approvers)
  {
    forall key | key in n.ps
      ensures key in ApprovedPaths(n.rs) + UnstoredPaths(n.approvers)
    {
      assert ByRequest(n.rs, key) || ByApprover(n.approvers, key);
    }
    forall key | key in ApprovedPaths(n.rs)
      ensures key in n.ps
    {
      var id :| id in n.rs && n.rs[id].status == Approved && n.rs[id].pathId == Some(key);
      assert RequestOk(rules, id, n.rs[id]) && Backed(rules, n.rs[id], n.ps);
    }
    forall key | key in UnstoredPaths(n.approvers)
      ensures key in n.ps
    {
      var who :| who in n.approvers && Unstored(n.approvers[who]) && n.approvers[who].reading.pathId == key;
      assert ApproverOk(rules, n.rs, n.ps, n.approvers[who]);
    }
  }

  /** What became of an approver that inserted a pair: while it is under way the
      request may still be open; once it is answered the request is decided, and
      it was told 200 exactly when the decision was to approve. */
  lemma InserterLearnsDecision(lib: Library, evs: seq<Call>, who: nat)
    requires who in Run(lib, START, evs).approvers && Run(lib, START, evs).approvers[who].inserted
    requires Run(lib, START, evs).approvers[who].stage.Finished?
    ensures var n := Run(lib, START, evs);
            var a := n.approvers[who];
            a.id in n.rs && n.rs[a.id].status != Pending &&
            (Told200(a) <==> n.rs[a.id].status == Approved) &&
            (a.stored ==> a.reading.Proceed? && n.rs[a.id].pathId == Some(a.reading.pathId))
  {
    FromStart(lib, evs);
    var n := Run(lib, START, evs);
    assert ApproverOk(RulesOf(lib), n.rs, n.ps, n.approvers[who]);
  }

  /** Every 200 names a request that is decided, its requester's half, and a path
      that has a pair. */
  lemma TwoHundredNamesPair(lib: Library, evs: seq<Call>, who: nat)
    requires who in Run(lib, START, evs).approvers && Told200(Run(lib, START, evs).approvers[who])
    ensures var n := Run(lib, START, evs);
            var answer := n.approvers[who].stage.answer;
            answer.id == n.approvers[who].id && answer.id in n.rs && n.rs[answer.id].status != Pending &&
            answer.requesterHalf == n.rs[answer.id].requester &&
            answer.pathId in n.ps && n.ps[answer.pathId].requesterPubkey == answer.requesterHalf.pubkey
  {
    FromStart(lib, evs);
    AnsweredOk(RulesOf(lib), Run(lib, START, evs), who);
  }

  lemma AnsweredOk(rules: Rules, n: Net, who: nat)
    requires NetOk(rules, n) && who in n.approvers && Told200(n.approvers[who])
    ensures var answer := n.approvers[who].stage.answer;
            answer.id == n.approvers[who].id && answer.id in n.rs && n.rs[answer.id].status != Pending &&
            answer.requesterHalf == n.rs[answer.id].requester &&
            answer.pathId in n.ps && n.ps[answer.pathId].requesterPubkey == answer.requesterHalf.pubkey
  {
    var a := n.approvers[who];
    assert ApproverOk(rules, n.rs, n.ps, a);
    assert RequestOk(rules, a.id, n.rs[a.id]) && Backed(rules, n.rs[a.id], n.ps);
  }

  /** When a 200 names the path that the request stores: always for a returning
      caller; for an approver that went ahead, exactly when the request stores an
      owner half with that approver's key. */
  lemma TwoHundredNamesStoredExactly(lib: Library, evs: seq<Call>, who: nat)
    requires who in Run(lib, START, evs).approvers && Told200(Run(lib, START, evs).approvers[who])
    ensures var n := Run(lib, START, evs);
            var a := n.approvers[who];
            a.id in n.rs && !a.reading.Stop? &&
            (a.reading.Returning? ==> n.rs[a.id].pathId == Some(a.stage.answer.pathId)) &&
            (a.reading.Proceed? ==>
               (n.rs[a.id].pathId == Some(a.stage.answer.pathId) <==> OwnerKeyIs(n.rs[a.id], a.reading.owner.pubkey)))
  {
    FromStart(lib, evs);
    NamesStoredExactly(RulesOf(lib), Run(lib, START, evs), who);
  }

  /** The request stores an owner half, and that half's key text is this. */
  predicate OwnerKeyIs(r: PairRequest, key: string) {
    r.owner != NoOwner && OwnerOf(r.owner).pubkey == key
  }

  lemma NamesStoredExactly(rules: Rules, n: Net, who: nat)
    requires NetOk(rules, n) && who in n.approvers && Told200(n.approvers[who])
    ensures var a := n.approvers[who];
            a.id in n.rs && !a.reading.Stop? &&
            (a.reading.Returning? ==> n.rs[a.id].pathId == Some(a.stage.answer.pathId)) &&
            (a.reading.Proceed? ==>
               (n.rs[a.id].pathId == Some(a.stage.answer.pathId) <==> OwnerKeyIs(n.rs[a.id], a.reading.owner.pubkey)))
  {
    var a := n.approvers[who];
    assert ApproverOk(rules, n.rs, n.ps, a);
    assert RequestOk(rules, a.id, n.rs[a.id]) && Backed(rules, n.rs[a.id], n.ps);
    if a.reading.Proceed? && n.rs[a.id].owner != NoOwner {
      SamePathExactly(rules, n.ps, n.rs[a.id].pathId.value, a.reading.pathId,
                      a.reading.requester, OwnerOf(n.rs[a.id].owner), a.reading.owner);
    }
  }

  /** Two pairs with one requester key share a path exactly when their owner key
      texts are the same. */
  lemma SamePathExactly(rules: Rules, ps: Pairs, x: string, y: string, requester: Half, one: Half, other: Half)
    requires x in ps && y in ps && PairOk(rules, x, ps[x]) && PairOk(rules, y, ps[y])
    requires SameParties(ps[x], requester, one) && SameParties(ps[y], requester, other)
    ensures x == y <==> one.pubkey == other.pubkey
  {
  }
}
