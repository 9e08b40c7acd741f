/** Schedules of interleaved approvals: one that nobody interrupts is the atomic
    handler, and some that are interrupted end where no atomic handler would. */
module PairSchedules {
  import opened Lex
  import opened Foreign
  import opened SelfSig
  import opened Storage
  import opened PairFlow
  import PairRuns
  import opened PairRaces
  import Uuid

  lemma Unroll(lib: Library, n: Net, ev: Call, evs: seq<Call>)
    ensures Run(lib, n, [ev] + evs) == Run(lib, Step(lib, n, ev), evs)
  {
    assert ([ev] + evs)[1..] == evs;
  }

  /** The duplicate branch ignores the outcome of its update; its 200 is right
      exactly when that outcome was no conflict. */
  lemma IgnoredOutcomeExactly(n: Net, who: nat)
    requires At(n, who, Matched) && n.approvers[who].id in n.rs
    ensures var a := n.approvers[who];
            var m := Updated(n, who);
            m.approvers[who].stage == Finished(Success(a)) && a.id in m.rs &&
            (m.rs[a.id].status == Approved <==> UpdateOutcome(n.rs, a.id, Approved) == Done)
  {
  }

  lemma Three(lib: Library, n: Net, a: Call, b: Call, c: Call)
    ensures Run(lib, n, [a, b, c]) == Step(lib, Step(lib, Step(lib, n, a), b), c)
  {
    var n1 := Step(lib, n, a);
    var n2 := Step(lib, n1, b);
    Unroll(lib, n, a, [b, c]);
    Unroll(lib, n1, b, [c]);
    Unroll(lib, n2, c, []);
    assert [a, b, c] == [a] + [b, c] && [b, c] == [b] + [c] && [c] == [c] + [];
  }

  lemma Four(lib: Library, n: Net, a: Call, b: Call, c: Call, d: Call)
    ensures Run(lib, n, [a, b, c, d]) == Step(lib, Step(lib, Step(lib, Step(lib, n, a), b), c), d)
  {
    Unroll(lib, n, a, [b, c, d]);
    assert [a, b, c, d] == [a] + [b, c, d];
    Three(lib, Step(lib, n, a), b, c, d);
  }

  /** What is left to do for an approver that has read its request. */
  function Rest(who: nat, activated: int): seq<Call> {
    [Insert(who, activated), Compare(who), Update(who), Lookup(who)]
  }

  lemma RestIsFinish(lib: Library, n: Net, who: nat, id: string, r: Reading, activated: int)
    requires who in n.approvers && n.approvers[who] == Started(id, r)
    requires r.Proceed? ==> id in n.rs && n.rs[id].status == Pending
    ensures var (rs, ps, answer) := FinishApprove(n.rs, n.ps, id, r, activated);
            var m := Run(lib, n, Rest(who, activated));
            m.rs == rs && m.ps == ps && who in m.approvers && m.approvers[who].stage == Finished(answer)
  {
    var n1 := Step(lib, n, Insert(who, activated));
    var n2 := Step(lib, n1, Compare(who));
    var n3 := Step(lib, n2, Update(who));
    Four(lib, n, Insert(who, activated), Compare(who), Update(who), Lookup(who));
    if r.Proceed? {
      if r.pathId !in n.ps {
        assert At(n1, who, Inserted) && n2 == n1;
      } else {
        assert At(n1, who, Collided);
      }
    } else {
      assert n1 == n;
    }
    assert Step(lib, n3, Lookup(who)) == n3;
  }

  /** An approver whose calls nobody interrupts does exactly what the handler in
      one piece does. */
  lemma UninterruptedIsAtomic(lib: Library, n: Net, who: nat, id: string, body: Option<Approval>, now: int, activated: int)
    requires who !in n.approvers
    ensures var (rs, ps, answer) := ApproveStep(lib, n.rs, n.ps, id, body, now, activated);
            var m := Run(lib, n, [Begin(who, id, body, now)] + Rest(who, activated));
            m.rs == rs && m.ps == ps && who in m.approvers && m.approvers[who].stage == Finished(answer)
  {
    Unroll(lib, n, Begin(who, id, body, now), Rest(who, activated));
    var r := ReadRequest(lib, n.rs, id, body, now);
    PairRuns.ReadingFacts(lib, n.rs, id, body, now);
    RestIsFinish(lib, Step(lib, n, Begin(who, id, body, now)), who, id, r, activated);
  }

  /** An update makes its own path an approved one, and no other. */
  lemma NoOtherPath(rs: Requests, id: string, to: Status, doc: OwnerDoc, pathId: Option<string>, key: string)
    requires !ByRequest(rs, key) && (to == Approved ==> pathId.Some? && pathId != Some(key))
    ensures !ByRequest(UpdatePending(rs, id, to, doc, pathId), key)
  {
    var after := UpdatePending(rs, id, to, doc, pathId);
    forall other | other in after
      ensures !(after[other].status == Approved && after[other].pathId == Some(key))
    {
      assert other != id ==> after[other] == rs[other];
    }
  }

  /** A deny that runs between the two writes of an approver leaves its pair
      behind: the approver is told 409 and no approved request has that path. */
  lemma DenyBetweenWrites(lib: Library, n: Net, who: nat)
    requires At(n, who, Inserted)
    requires var a := n.approvers[who];
             Uuid.UuidShape(a.id) && a.id in n.rs && n.rs[a.id].status == Pending &&
             a.reading.pathId in n.ps && !ByRequest(n.rs, a.reading.pathId)
    ensures var a := n.approvers[who];
            var m := Run(lib, n, [Deny(a.id), Update(who), Lookup(who)]);
            who in m.approvers && m.approvers[who].stage == Finished(Rejected(409, RequestNotPendingConcurrent)) &&
            a.id in m.rs && m.rs[a.id].status == Denied && a.reading.pathId in m.ps && !ByRequest(m.rs, a.reading.pathId)
  {
    var a := n.approvers[who];
    var n1 := n.(rs := UpdatePending(n.rs, a.id, Denied, NoOwner, None));
    var n2 := Updated(n1, who);
    Three(lib, n, Deny(a.id), Update(who), Lookup(who));
    assert Step(lib, n, Deny(a.id)) == n1;
    UpdateIsStep(lib, n1, who);
    NoOtherPath(n.rs, a.id, Denied, NoOwner, None, a.reading.pathId);
    assert n2.rs == n1.rs && At(n2, who, Missed);
    LookupIsStep(lib, n2, who);
  }

  lemma UpdateIsStep(lib: Library, n: Net, who: nat)
    requires At(n, who, Inserted) || At(n, who, Matched)
    ensures Step(lib, n, Update(who)) == Updated(n, who)
  {
  }

  lemma LookupIsStep(lib: Library, n: Net, who: nat)
    requires At(n, who, Missed)
    ensures Step(lib, n, Lookup(who)) == n.(approvers := n.approvers[who := LookedUp(n.rs, n.approvers[who])])
  {
  }

  /** Two owners who approve one request at once are both told 200, each with the
      path of its own pair; only the first path is stored on the request. */
  lemma TwoOwnersBothTold(lib: Library, n: Net, one: nat, two: nat)
    requires At(n, one, Inserted) && At(n, two, Inserted) && one != two
    requires var a, b := n.approvers[one], n.approvers[two];
             a.id == b.id && a.id in n.rs && n.rs[a.id].status == Pending && a.reading.pathId != b.reading.pathId &&
             b.reading.pathId in n.ps && !ByRequest(n.rs, b.reading.pathId)
    ensures var a, b := n.approvers[one], n.approvers[two];
            var m := Run(lib, n, [Update(one), Update(two), Lookup(two)]);
            one in m.approvers && m.approvers[one].stage == Finished(Success(a)) &&
            two in m.approvers && m.approvers[two].stage == Finished(Success(b)) &&
            a.id in m.rs && m.rs[a.id].pathId == Some(a.reading.pathId) &&
            b.reading.pathId in m.ps && !ByRequest(m.rs, b.reading.pathId)
  {
    var a, b := n.approvers[one], n.approvers[two];
    var n1 := Updated(n, one);
    var n2 := Updated(n1, two);
    Three(lib, n, Update(one), Update(two), Lookup(two));
    UpdateIsStep(lib, n, one);
    assert n1.approvers[two] == b;
    NoOtherPath(n.rs, a.id, Approved, OwnerHalf(a.reading.owner), Some(a.reading.pathId), b.reading.pathId);
    UpdateIsStep(lib, n1, two);
    assert n2.rs == n1.rs && At(n2, two, Missed);
    LookupIsStep(lib, n2, two);
  }

  // ---- Reached states ----

  ghost predicate Reached(lib: Library, n: Net) {
    exists evs :: Run(lib, START, evs) == n
  }

  lemma {:induction false} RunConcat(lib: Library, n: Net, a: seq<Call>, b: seq<Call>)
    ensures Run(lib, n, a + b) == Run(lib, Run(lib, n, a), b)
    decreases a
  {
    if a == [] {
      assert a + b == b;
    } else {
      assert a + b == [a[0]] + (a[1..] + b);
      Unroll(lib, n, a[0], a[1..] + b);
      RunConcat(lib, Step(lib, n, a[0]), a[1..], b);
    }
  }

  lemma More(lib: Library, n: Net, rest: seq<Call>)
    requires Reached(lib, n)
    ensures Reached(lib, Run(lib, n, rest))
  {
    var evs :| Run(lib, START, evs) == n;
    RunConcat(lib, START, evs, rest);
    assert Run(lib, START, evs + rest) == Run(lib, n, rest);
  }

  lemma OneMore(lib: Library, n: Net, ev: Call)
    requires Reached(lib, n)
    ensures Reached(lib, Step(lib, n, ev))
  {
    Unroll(lib, n, ev, []);
    assert [ev] + [] == [ev];
    More(lib, n, [ev]);
  }

  /** An approver reads the request and inserts its pair at a free path. */
  lemma ReachInserted(lib: Library, n: Net, who: nat, id: string, body: Option<Approval>, r: Reading) returns (m: Net)
    requires Reached(lib, n) && who !in n.approvers && ReadRequest(lib, n.rs, id, body, 0) == r
    requires r.Proceed? && r.pathId !in n.ps
    ensures Reached(lib, m) && m.rs == n.rs
    ensures m.ps == n.ps[r.pathId := NewPair(r.requester, r.owner, r.pathId, 0)]
    ensures m.approvers == n.approvers[who := Approver(id, r, true, false, Inserted)]
  {
    OneMore(lib, n, Begin(who, id, body, 0));
    m := Step(lib, n, Begin(who, id, body, 0));
    OneMore(lib, m, Insert(who, 0));
    m := Step(lib, m, Insert(who, 0));
  }

  lemma ReachTwo(lib: Library, rs: Requests, id: string, one: Option<Approval>, two: Option<Approval>, r: Reading, q: Reading)
    returns (n: Net)
    requires Reached(lib, Net(rs, map[], map[])) && r.Proceed? && q.Proceed? && r.pathId != q.pathId
    requires ReadRequest(lib, rs, id, one, 0) == r && ReadRequest(lib, rs, id, two, 0) == q
    ensures Reached(lib, n) && n.rs == rs && r.pathId in n.ps && q.pathId in n.ps
    ensures n.approvers == map[1 := Approver(id, r, true, false, Inserted), 2 := Approver(id, q, true, false, Inserted)]
  {
    var m := ReachInserted(lib, Net(rs, map[], map[]), 1, id, one, r);
    n := ReachInserted(lib, m, 2, id, two, q);
  }

  /** A pair without an approved request, left by an approver that was refused. */
  ghost predicate Stranded(n: Net, who: nat) {
    who in n.approvers && n.approvers[who].reading.Proceed? && n.approvers[who].stage.Finished? &&
    !Told200(n.approvers[who]) &&
    n.approvers[who].reading.pathId in n.ps && !ByRequest(n.rs, n.approvers[who].reading.pathId)
  }

  /** Two approvers of one request told 200 with different paths, one of which no
      request holds. */
  ghost predicate BothTold(n: Net, one: nat, two: nat) {
    one in n.approvers && two in n.approvers && Told200(n.approvers[one]) && Told200(n.approvers[two]) &&
    n.approvers[one].stage.answer.id == n.approvers[two].stage.answer.id &&
    n.approvers[one].stage.answer.pathId != n.approvers[two].stage.answer.pathId &&
    !ByRequest(n.rs, n.approvers[two].stage.answer.pathId)
  }

  lemma ToldFrom(lib: Library, n: Net, one: nat, two: nat) returns (m: Net)
    requires Reached(lib, n) && At(n, one, Inserted) && At(n, two, Inserted) && one != two
    requires var a, b := n.approvers[one], n.approvers[two];
             a.id == b.id && a.id in n.rs && n.rs[a.id].status == Pending && a.reading.pathId != b.reading.pathId &&
             b.reading.pathId in n.ps && !ByRequest(n.rs, b.reading.pathId)
    ensures Reached(lib, m) && BothTold(m, one, two)
  {
    TwoOwnersBothTold(lib, n, one, two);
    More(lib, n, [Update(one), Update(two), Lookup(two)]);
    m := Run(lib, n, [Update(one), Update(two), Lookup(two)]);
  }

  lemma AheadStays(lib: Library, n: Net, rest: seq<Call>, who: nat)
    requires Reached(lib, n) && who in n.approvers
    ensures var m := Run(lib, n, rest);
            who in m.approvers && m.approvers[who].reading == n.approvers[who].reading
  {
    var evs :| Run(lib, START, evs) == n;
    FromStart(lib, evs);
    RunKeeps(lib, n, rest);
  }

  /** An approver finds the pair of the same two parties. */
  lemma ReachMatched(lib: Library, n: Net, who: nat, id: string, body: Option<Approval>, r: Reading) returns (m: Net)
    requires Reached(lib, n) && who !in n.approvers && ReadRequest(lib, n.rs, id, body, 0) == r
    requires r.Proceed? && r.pathId in n.ps && SameParties(n.ps[r.pathId], r.requester, r.owner)
    ensures Reached(lib, m) && m.rs == n.rs && m.ps == n.ps
    ensures m.approvers == n.approvers[who := Approver(id, r, false, false, Matched)]
  {
    OneMore(lib, n, Begin(who, id, body, 0));
    m := Step(lib, n, Begin(who, id, body, 0));
    OneMore(lib, m, Insert(who, 0));
    m := Step(lib, m, Insert(who, 0));
    OneMore(lib, m, Compare(who));
    m := Step(lib, m, Compare(who));
  }

  lemma ReachUpdated(lib: Library, n: Net, who: nat) returns (m: Net)
    requires Reached(lib, n) && (At(n, who, Inserted) || At(n, who, Matched))
    ensures Reached(lib, m) && m == Updated(n, who)
  {
    OneMore(lib, n, Update(who));
    UpdateIsStep(lib, n, who);
    m := Updated(n, who);
  }

  lemma ReachSubmitted(lib: Library, n: Net, body: Submission, id: string, rs: Requests) returns (m: Net)
    requires Reached(lib, n) && SubmitStep(lib, n.rs, Some(body), id, 0, 0).0 == rs
    ensures Reached(lib, m) && m == n.(rs := rs)
  {
    OneMore(lib, n, Submit(Some(body), id, 0, 0));
    m := Step(lib, n, Submit(Some(body), id, 0, 0));
  }

  lemma ReachDenied(lib: Library, n: Net, id: string) returns (m: Net)
    requires Reached(lib, n) && Uuid.UuidShape(id)
    ensures Reached(lib, m) && m == n.(rs := UpdatePending(n.rs, id, Denied, NoOwner, None))
  {
    OneMore(lib, n, Deny(id));
    m := Step(lib, n, Deny(id));
  }

  /** An approver told 200 while its request is denied. */
  ghost predicate WronglyTold(n: Net, who: nat) {
    who in n.approvers && Told200(n.approvers[who]) && n.approvers[who].stage.answer.id in n.rs &&
    n.rs[n.approvers[who].stage.answer.id].status == Denied
  }

  /** A deny between the comparison and the update of the duplicate branch. */
  lemma DenyAfterMatch(lib: Library, n: Net, who: nat) returns (m: Net)
    requires Reached(lib, n) && At(n, who, Matched)
    requires var id := n.approvers[who].id; Uuid.UuidShape(id) && id in n.rs && n.rs[id].status == Pending
    ensures Reached(lib, m) && WronglyTold(m, who)
  {
    var denied := ReachDenied(lib, n, n.approvers[who].id);
    m := ReachUpdated(lib, denied, who);
    IgnoredOutcomeExactly(denied, who);
  }

  /** A request whose poll shows another half than the owner's that was approved. */
  ghost predicate PollsAnother(n: Net, id: string, owner: Half, shown: Half) {
    id in n.rs && n.rs[id].status == Approved && n.rs[id].owner != NoOwner && PairRuns.OwnerOf(n.rs[id].owner) == owner &&
    PollAnswer(n.rs, id) == StatusReport(id, Approved, n.rs[id].pathId, Some(shown)) && shown != owner
  }

  /** An uninterrupted approver that matched stores the whole body. */
  lemma MatchThenPoll(lib: Library, n: Net, who: nat, shown: Half) returns (m: Net)
    requires Reached(lib, n) && At(n, who, Matched)
    requires var a := n.approvers[who];
             Uuid.UuidShape(a.id) && a.id in n.rs && n.rs[a.id].status == Pending &&
             a.reading.wholeBody == OwnerBody(a.reading.owner, Some(shown)) && shown != a.reading.owner
    ensures Reached(lib, m) && PollsAnother(m, n.approvers[who].id, n.approvers[who].reading.owner, shown)
  {
    m := ReachUpdated(lib, n, who);
  }
}
