/** Staged-approval pairing: submit, approve, deny, poll. Each handler is given
    twice: as a method on the store, and as a function on the two tables. */
module PairFlow {
  import opened Lex
  import opened Foreign
  import opened SelfSig
  import opened Storage
  import Base64Url
  import Mailbox
  import PathId
  import Times
  import Uuid

  const REQUEST_TTL: int := 24 * 3600 * Times.NANOS

  datatype Code =
    | InvalidRequestId | InvalidJson | MissingTarget | TargetTooLong | BadHalf(flaw: Flaw) | TsOutOfWindow | BadSelfSig
    | RequestIdCollision | RequestNotFound | RequestNotPending | SigAlgMismatch | PairConflict
    | RequestNotPendingConcurrent | StorageError

  datatype Answer =
    | Rejected(httpStatus: nat, code: Code)
    | Created(id: string, expiresAt: int)
    | ApprovedWith(id: string, pathId: string, requesterHalf: Half)
    | DeniedOk(id: string)
    | StatusReport(id: string, status: Status, path: Option<string>, ownerHalf: Option<Half>)

  /** The body of POST /pair/request. */
  datatype Submission = Submission(target: string, requester: Half)

  /** The body of POST .../approve: its owner member, and the half that the same
      text decodes to when it is read as one, if it does. */
  datatype Approval = Approval(owner: Half, topLevel: Option<Half>)

  function RawKey(h: Half): seq<Octet> {
    var raw := Base64Url.Decode(h.pubkey);
    if raw.Some? then raw.value else []
  }

  /** Schema and self-signature both hold. */
  predicate SelfChecked(lib: Library, h: Half) {
    ParseHalf(h).Parsed? && VerifySelfSig(lib, h, ParseHalf(h).raw)
  }

  // ---- Submit ----

  function SubmitProblem(lib: Library, body: Option<Submission>, now: int): Option<Answer> {
    if body.None? then Some(Rejected(400, InvalidJson))
    else if body.value.target == "" then Some(Rejected(400, MissingTarget))
    else if Utf8Size(body.value.target) > 256 then Some(Rejected(400, TargetTooLong))
    else
      match ParseHalf(body.value.requester)
      case Flawed(flaw) => Some(Rejected(400, BadHalf(flaw)))
      case Parsed(raw) =>
        if !Mailbox.TsInWindow(lib, body.value.requester.ts, now) then Some(Rejected(400, TsOutOfWindow))
        else if !VerifySelfSig(lib, body.value.requester, raw) then Some(Rejected(400, BadSelfSig))
        else None
  }

  function NewRequest(id: string, body: Submission, now: int): PairRequest {
    PairRequest(id, Pending, Second(now), Second(now + REQUEST_TTL), None, body.requester, NoOwner, body.target)
  }

  function SubmitStep(lib: Library, rs: Requests, body: Option<Submission>, id: string, checked: int, now: int): (Requests, Answer) {
    var problem := SubmitProblem(lib, body, checked);
    if problem.Some? then (rs, problem.value) else StageRequest(rs, body.value, id, now)
  }

  function StageRequest(rs: Requests, body: Submission, id: string, now: int): (Requests, Answer) {
    if id in rs then (rs, Rejected(500, RequestIdCollision))
    else (rs[id := NewRequest(id, body, now)], Created(id, Second(now + REQUEST_TTL)))
  }

  // ---- Approve ----

  /** What approve knows after its first read of the request. */
  datatype Reading =
    | Stop(answer: Answer)
    /** Already approved, and the caller signed an owner half: compare keys. */
    | Returning(owner: Half, pathId: string, requester: Half)
    /** Pending, and everything about the owner half checks out. */
    | Proceed(requester: Half, owner: Half, wholeBody: OwnerDoc, pathId: string)

  function ReadRequest(lib: Library, rs: Requests, id: string, body: Option<Approval>, now: int): Reading {
    if !Uuid.UuidShape(id) then Stop(Rejected(400, InvalidRequestId))
    else if body.None? then Stop(Rejected(400, InvalidJson))
    else if id !in rs then Stop(Rejected(404, RequestNotFound))
    else if rs[id].status != Pending then
      if rs[id].status == Approved && rs[id].pathId.Some? && SelfChecked(lib, body.value.owner)
      then Returning(body.value.owner, rs[id].pathId.value, rs[id].requester)
      else Stop(Rejected(409, RequestNotPending))
    else CheckOwner(lib, rs[id].requester, body.value, now)
  }

  function CheckOwner(lib: Library, requester: Half, body: Approval, now: int): Reading {
    var owner := body.owner;
    match ParseHalf(owner)
    case Flawed(flaw) => Stop(Rejected(400, BadHalf(flaw)))
    case Parsed(raw) =>
      if owner.sigAlg != requester.sigAlg then Stop(Rejected(400, SigAlgMismatch))
      else if !Mailbox.TsInWindow(lib, owner.ts, now) then Stop(Rejected(400, TsOutOfWindow))
      else if !VerifySelfSig(lib, owner, raw) then Stop(Rejected(400, BadSelfSig))
      else Proceed(requester, owner, OwnerBody(owner, body.topLevel), PathId.ComputePathId(lib.sha256, RawKey(requester), raw))
  }

  function ReturningAnswer(ps: Pairs, id: string, r: Reading): Answer
    requires r.Returning?
  {
    if r.pathId in ps && ps[r.pathId].ownerPubkey == r.owner.pubkey then ApprovedWith(id, r.pathId, r.requester)
    else Rejected(409, RequestNotPending)
  }

  function NewPair(requester: Half, owner: Half, pathId: string, now: int): Pair {
    Pair(pathId, requester.nexusId, requester.pubkey, owner.nexusId, owner.pubkey, requester.sigAlg, "P-256", Second(now))
  }

  /** An existing pair stands for the same two parties when both stored key texts
      are the submitted ones. */
  predicate SameParties(p: Pair, requester: Half, owner: Half) {
    p.requesterPubkey == requester.pubkey && p.ownerPubkey == owner.pubkey
  }

  function UpdateAnswer(outcome: Outcome, id: string, pathId: string, requester: Half): Answer {
    match outcome
    case Done => ApprovedWith(id, pathId, requester)
    case Conflict => Rejected(409, RequestNotPendingConcurrent)
    case _ => Rejected(500, StorageError)
  }

  /** Approve as one uninterrupted handler. */
  function ApproveStep(lib: Library, rs: Requests, ps: Pairs, id: string, body: Option<Approval>, now: int, activated: int): (Requests, Pairs, Answer) {
    FinishApprove(rs, ps, id, ReadRequest(lib, rs, id, body, now), activated)
  }

  function FinishApprove(rs: Requests, ps: Pairs, id: string, reading: Reading, activated: int): (Requests, Pairs, Answer) {
    match reading
    case Stop(answer) => (rs, ps, answer)
    case Returning(_, _, _) => (rs, ps, ReturningAnswer(ps, id, reading))
    case Proceed(requester, owner, wholeBody, pathId) =>
      if pathId !in ps then
        (UpdatePending(rs, id, Approved, OwnerHalf(owner), Some(pathId)),
         ps[pathId := NewPair(requester, owner, pathId, activated)],
         UpdateAnswer(UpdateOutcome(rs, id, Approved), id, pathId, requester))
      else if SameParties(ps[pathId], requester, owner) then
        (UpdatePending(rs, id, Approved, wholeBody, Some(pathId)), ps, ApprovedWith(id, pathId, requester))
      else (rs, ps, Rejected(409, PairConflict))
  }

  // ---- Deny and poll ----

  function DenyStep(rs: Requests, id: string): (Requests, Answer) {
    if !Uuid.UuidShape(id) then (rs, Rejected(400, InvalidRequestId))
    else
      (UpdatePending(rs, id, Denied, NoOwner, None),
       match UpdateOutcome(rs, id, Denied)
       case NotFound => Rejected(404, RequestNotFound)
       case Conflict => Rejected(409, RequestNotPending)
       case _ => DeniedOk(id))
  }

  /** The half that reading the owner column back yields. */
  function PolledHalf(doc: OwnerDoc): Option<Half> {
    match doc
    case NoOwner => None
    case OwnerHalf(half) => Some(half)
    case OwnerBody(_, topLevel) => topLevel
  }

  function PollAnswer(rs: Requests, id: string): Answer {
    if !Uuid.UuidShape(id) then Rejected(400, InvalidRequestId)
    else if id !in rs then Rejected(404, RequestNotFound)
    else StatusReport(id, rs[id].status, rs[id].pathId,
                      if rs[id].status == Approved then PolledHalf(rs[id].owner) else None)
  }

  class Handler {
    const store: Store
    const lib: Library

    constructor (store: Store, lib: Library)
      ensures this.store == store && this.lib == lib
    {
      this.store, this.lib := store, lib;
    }

    method CreateRequest(body: Option<Submission>, id: string, checked: int, now: int) returns (answer: Answer)
      modifies store`requests
      ensures (store.requests, answer) == SubmitStep(lib, old(store.requests), body, id, checked, now)
    {
      var problem := CheckSubmission(body, checked);
      if problem.Some? {
        return problem.value;
      }
      var result := store.InsertPairRequest(NewRequest(id, body.value, now));
      if result == Duplicate {
        return Rejected(500, RequestIdCollision);
      }
      return Created(id, Second(now + REQUEST_TTL));
    }

    method CheckSubmission(body: Option<Submission>, checked: int) returns (problem: Option<Answer>)
      ensures problem == SubmitProblem(lib, body, checked)
    {
      if body.None? {
        return Some(Rejected(400, InvalidJson));
      }
      var Submission(target, requester) := body.value;
      if target == "" {
        return Some(Rejected(400, MissingTarget));
      }
      if Utf8Size(target) > 256 {
        return Some(Rejected(400, TargetTooLong));
      }
      var parsed := ParseHalf(requester);
      if parsed.Flawed? {
        return Some(Rejected(400, BadHalf(parsed.flaw)));
      }
      if !Mailbox.TsInWindow(lib, requester.ts, checked) {
        return Some(Rejected(400, TsOutOfWindow));
      }
      if !VerifySelfSig(lib, requester, parsed.raw) {
        return Some(Rejected(400, BadSelfSig));
      }
      return None;
    }

    /** Approve up to its first write: what it reads and every check it makes. */
    method ReadForApproval(id: string, body: Option<Approval>, now: int) returns (reading: Reading)
      ensures reading == ReadRequest(lib, store.requests, id, body, now)
    {
      if !Uuid.UuidShape(id) {
        return Stop(Rejected(400, InvalidRequestId));
      }
      if body.None? {
        return Stop(Rejected(400, InvalidJson));
      }
      var found := store.GetPairRequest(id);
      if found.None? {
        return Stop(Rejected(404, RequestNotFound));
      }
      var request := found.value;
      if request.status != Pending {
        if request.status == Approved && request.pathId.Some? {
          var own := ParseHalf(body.value.owner);
          if own.Parsed? && VerifySelfSig(lib, body.value.owner, own.raw) {
            return Returning(body.value.owner, request.pathId.value, request.requester);
          }
        }
        return Stop(Rejected(409, RequestNotPending));
      }
      reading := ReadOwner(request.requester, body.value, now);
    }

    method ReadOwner(requester: Half, body: Approval, now: int) returns (reading: Reading)
      ensures reading == CheckOwner(lib, requester, body, now)
    {
      var parsed := ParseHalf(body.owner);
      if parsed.Flawed? {
        return Stop(Rejected(400, BadHalf(parsed.flaw)));
      }
      if body.owner.sigAlg != requester.sigAlg {
        return Stop(Rejected(400, SigAlgMismatch));
      }
      if !Mailbox.TsInWindow(lib, body.owner.ts, now) {
        return Stop(Rejected(400, TsOutOfWindow));
      }
      if !VerifySelfSig(lib, body.owner, parsed.raw) {
        return Stop(Rejected(400, BadSelfSig));
      }
      var pathId := PathId.ComputePathId(lib.sha256, RawKey(requester), parsed.raw);
      return Proceed(requester, body.owner, OwnerBody(body.owner, body.topLevel), pathId);
    }

    method Approve(id: string, body: Option<Approval>, now: int, activated: int) returns (answer: Answer)
      modifies store`requests, store`pairs
      ensures (store.requests, store.pairs, answer) ==
              ApproveStep(lib, old(store.requests), old(store.pairs), id, body, now, activated)
    {
      var reading := ReadForApproval(id, body, now);
      match reading
      case Stop(stop) =>
        return stop;
      case Returning(owner, pathId, requester) =>
        var existing := store.GetPair(pathId);
        if existing.Some? && existing.value.ownerPubkey == owner.pubkey {
          return ApprovedWith(id, pathId, requester);
        }
        return Rejected(409, RequestNotPending);
      case Proceed(requester, owner, wholeBody, pathId) =>
        var inserted := store.InsertPair(NewPair(requester, owner, pathId, activated));
        if inserted == Duplicate {
          var existing := store.GetPair(pathId);
          if existing.Some? && SameParties(existing.value, requester, owner) {
            var ignored := store.UpdatePairRequestStatus(id, Approved, wholeBody, Some(pathId));
            return ApprovedWith(id, pathId, requester);
          }
          return Rejected(409, PairConflict);
        }
        var outcome := store.UpdatePairRequestStatus(id, Approved, OwnerHalf(owner), Some(pathId));
        return UpdateAnswer(outcome, id, pathId, requester);
    }

    method Deny(id: string) returns (answer: Answer)
      modifies store`requests
      ensures (store.requests, answer) == DenyStep(old(store.requests), id)
    {
      if !Uuid.UuidShape(id) {
        return Rejected(400, InvalidRequestId);
      }
      var outcome := store.UpdatePairRequestStatus(id, Denied, NoOwner, None);
      if outcome == NotFound {
        return Rejected(404, RequestNotFound);
      }
      if outcome == Conflict {
        return Rejected(409, RequestNotPending);
      }
      return DeniedOk(id);
    }

    method GetRequestStatus(id: string) returns (answer: Answer)
      ensures answer == PollAnswer(store.requests, id)
    {
      if !Uuid.UuidShape(id) {
        return Rejected(400, InvalidRequestId);
      }
      var r := store.GetPairRequest(id);
      if r.None? {
        return Rejected(404, RequestNotFound);
      }
      return StatusReport(id, r.value.status, r.value.pathId,
                          if r.value.status == Approved then PolledHalf(r.value.owner) else None);
    }

    /** Both dispatchers expire overdue requests before anything else. */
    method DispatchApprove(id: string, body: Option<Approval>, arrival: int, now: int, activated: int) returns (answer: Answer)
      modifies store`requests, store`pairs
      ensures (store.requests, store.pairs, answer) ==
              ApproveStep(lib, ExpirePending(old(store.requests), arrival), old(store.pairs), id, body, now, activated)
    {
      var expired := store.ExpirePendingRequests(arrival);
      answer := Approve(id, body, now, activated);
    }

    method DispatchDeny(id: string, arrival: int) returns (answer: Answer)
      modifies store`requests
      ensures (store.requests, answer) == DenyStep(ExpirePending(old(store.requests), arrival), id)
    {
      var expired := store.ExpirePendingRequests(arrival);
      answer := Deny(id);
    }

    method DispatchCreate(body: Option<Submission>, id: string, arrival: int, checked: int, now: int) returns (answer: Answer)
      modifies store`requests
      ensures (store.requests, answer) == SubmitStep(lib, ExpirePending(old(store.requests), arrival), body, id, checked, now)
    {
      var expired := store.ExpirePendingRequests(arrival);
      answer := CreateRequest(body, id, checked, now);
    }

    method DispatchPoll(id: string, arrival: int) returns (answer: Answer)
      modifies store`requests
      ensures store.requests == ExpirePending(old(store.requests), arrival)
      ensures answer == PollAnswer(store.requests, id)
    {
      var expired := store.ExpirePendingRequests(arrival);
      answer := GetRequestStatus(id);
    }
  }
}
