/** The three tables and the queries the handlers run on them. A time column
    holds whole seconds; module Times shows that comparing the stored text is
    comparing these. */
module Storage {
  import opened Lex
  import opened CanonicalJson
  import opened SelfSig
  import opened Paging
  import Times

  const LIST_LIMIT: nat := 50

  datatype Direction = AToB | BToA

  /** A request body: the text, and the envelope it decodes to, if it is JSON. */
  datatype Body = Body(text: string, decoded: Option<Envelope>)

  datatype Row = Row(
    msgId: string, pathId: string, direction: Direction, receivedAt: int,
    ciphertext: string, signature: string, outerJson: Body)

  datatype Pair = Pair(
    pathId: string, requesterId: string, requesterPubkey: string,
    ownerId: string, ownerPubkey: string, sigAlg: string, dhAlg: string, activatedAt: int)

  datatype Status = Pending | Approved | Denied | Expired

  /** What approval wrote into the owner column: the serialised owner half, or a
      whole request body. `topLevel` is the half that the body itself decodes to, if
      it does. */
  datatype OwnerDoc = NoOwner | OwnerHalf(half: Half) | OwnerBody(owner: Half, topLevel: Option<Half>)

  datatype PairRequest = PairRequest(
    requestId: string, status: Status, createdAt: int, expiresAt: int,
    pathId: Option<string>, requester: Half, owner: OwnerDoc, target: string)

  datatype Outcome = Done | Duplicate | NotFound | Conflict

  type Envelopes = map<string, Row>
  type Requests = map<string, PairRequest>
  type Pairs = map<string, Pair>

  function Second(nanos: int): int {
    nanos / Times.NANOS
  }

  ghost predicate Keyed(envs: Envelopes) {
    forall m :: m in envs ==> envs[m].msgId == m
  }

  // ---- The listing query ----

  /** Text order is a strict total order, so everything about paging applies. */
  lemma TextOrder()
    ensures StrictTotal(StrLess)
  {
    forall a: string, b: string
      ensures !StrLess(a, a) && (StrLess(a, b) || a == b || StrLess(b, a))
    {
      StrTrichotomy(a, b);
    }
    forall a: string, b: string, c: string | StrLess(a, b) && StrLess(b, c)
      ensures StrLess(a, c)
    {
      StrTransitive(a, b, c);
    }
  }

  predicate Matches(r: Row, pathId: string, dir: Direction) {
    r.pathId == pathId && r.direction == dir
  }

  /** The ids stored for one direction of one path. */
  function InboxIds(envs: Envelopes, pathId: string, dir: Direction): set<string> {
    set m | m in envs && Matches(envs[m], pathId, dir)
  }

  function RowsOf(envs: Envelopes, ids: seq<string>): (rows: seq<Row>)
    requires forall m :: m in ids ==> m in envs
    ensures |rows| == |ids| && forall i :: 0 <= i < |ids| ==> rows[i] == envs[ids[i]]
  {
    seq(|ids|, i requires 0 <= i < |ids| => envs[ids[i]])
  }

  lemma PageIdsStored(envs: Envelopes, pathId: string, dir: Direction, since: string)
    ensures forall m :: m in PageAt(InboxIds(envs, pathId, dir), StrLess, since, LIST_LIMIT) ==>
              m in envs && Matches(envs[m], pathId, dir)
  {
    TextOrder();
    PageFacts(InboxIds(envs, pathId, dir), StrLess, since, LIST_LIMIT);
  }

  /** WHERE path and direction match and msg_id > since, ORDER BY msg_id ASC,
      LIMIT 50: the ids. PageMeaning says what they are. */
  ghost function PageIds(envs: Envelopes, pathId: string, dir: Direction, since: string): (ids: seq<string>)
    ensures forall m :: m in ids ==> m in envs && Matches(envs[m], pathId, dir)
  {
    PageIdsStored(envs, pathId, dir, since);
    PageAt(InboxIds(envs, pathId, dir), StrLess, since, LIST_LIMIT)
  }

  ghost function Page(envs: Envelopes, pathId: string, dir: Direction, since: string): seq<Row> {
    RowsOf(envs, PageIds(envs, pathId, dir, since))
  }

  /** A listing is the one sequence of at most 50 ascending ids of this inbox
      above the cursor that leaves out nothing smaller. */
  lemma PageMeaning(envs: Envelopes, pathId: string, dir: Direction, since: string, ids: seq<string>)
    ensures ids == PageIds(envs, pathId, dir, since) <==>
            AreSmallest(ids, Above(InboxIds(envs, pathId, dir), StrLess, since), StrLess, LIST_LIMIT)
  {
    TextOrder();
    var above := Above(InboxIds(envs, pathId, dir), StrLess, since);
    SmallestMeaning(above, StrLess, LIST_LIMIT);
    if AreSmallest(ids, above, StrLess, LIST_LIMIT) {
      SmallestUnique(ids, above, StrLess, LIST_LIMIT);
    }
  }

  // ---- Deleting queries ----

  /** DELETE WHERE path_id = ? AND msg_id IN (...): direction plays no part. */
  function DeleteIds(envs: Envelopes, pathId: string, ids: seq<string>): Envelopes {
    map m | m in envs && !(envs[m].pathId == pathId && m in ids) :: envs[m]
  }

  /** DELETE WHERE received_at < cutoff, both cut to the second. */
  function DeleteOlder(envs: Envelopes, cutoff: int): Envelopes {
    map m | m in envs && !(envs[m].receivedAt < Second(cutoff)) :: envs[m]
  }

  // ---- Request queries ----

  /** UPDATE ... WHERE request_id = ? AND status = 'pending', with COALESCE on
      the two optional columns. */
  function UpdatePending(rs: Requests, id: string, to: Status, owner: OwnerDoc, pathId: Option<string>): Requests {
    if id in rs && rs[id].status == Pending then
      rs[id := rs[id].(status := to,
                       owner := if owner == NoOwner then rs[id].owner else owner,
                       pathId := if pathId == None then rs[id].pathId else pathId)]
    else rs
  }

  /** What the caller of the update is told. */
  function UpdateOutcome(rs: Requests, id: string, to: Status): Outcome {
    if id !in rs then NotFound
    else if rs[id].status == Pending || rs[id].status == to then Done
    else Conflict
  }

  /** UPDATE ... SET status = 'expired' WHERE pending and expires_at < cutoff. */
  function ExpirePending(rs: Requests, cutoff: int): Requests {
    map id | id in rs ::
      if rs[id].status == Pending && rs[id].expiresAt < Second(cutoff) then rs[id].(status := Expired) else rs[id]
  }

  class Store {
    var envelopes: Envelopes
    var requests: Requests
    var pairs: Pairs

    ghost predicate Valid()
      reads this
    {
      Keyed(envelopes)
    }

    constructor ()
      ensures Valid() && envelopes == map[] && requests == map[] && pairs == map[]
    {
      envelopes, requests, pairs := map[], map[], map[];
    }

    method InsertEnvelope(e: Row) returns (result: Outcome)
      requires Valid()
      modifies this`envelopes
      ensures Valid()
      ensures result == if e.msgId in old(envelopes) then Duplicate else Done
      ensures envelopes == if e.msgId in old(envelopes) then old(envelopes) else old(envelopes)[e.msgId := e]
    {
      if e.msgId in envelopes {
        return Duplicate;
      }
      envelopes := envelopes[e.msgId := e];
      return Done;
    }

    /** The ids that the listing query yields, off the index. */
    method QueryIds(pathId: string, dir: Direction, since: string) returns (ids: seq<string>)
      ensures ids == PageIds(envelopes, pathId, dir, since)
    {
      TextOrder();
      ids := ScanIndex(Above(InboxIds(envelopes, pathId, dir), StrLess, since), StrLess, LIST_LIMIT);
    }

    /** Appends the rows of the query one by one. */
    method ListEnvelopes(pathId: string, dir: Direction, since: string) returns (out: seq<Row>)
      requires Valid()
      ensures out == Page(envelopes, pathId, dir, since)
    {
      var ids := QueryIds(pathId, dir, since);
      out := ScanRows(ids);
    }

    method ScanRows(ids: seq<string>) returns (out: seq<Row>)
      requires forall m :: m in ids ==> m in envelopes
      ensures out == RowsOf(envelopes, ids)
    {
      out := [];
      for k := 0 to |ids|
        invariant |out| == k && forall i :: 0 <= i < k ==> out[i] == envelopes[ids[i]]
      {
        out := out + [envelopes[ids[k]]];
      }
    }

    method DeleteEnvelopesByMsgID(pathId: string, ids: seq<string>) returns (n: nat)
      requires Valid()
      modifies this`envelopes
      ensures Valid()
      ensures envelopes == DeleteIds(old(envelopes), pathId, ids)
      ensures n == |old(envelopes)| - |envelopes|
    {
      if |ids| == 0 {
        assert DeleteIds(envelopes, pathId, ids) == envelopes;
        return 0;
      }
      var kept := DeleteIds(envelopes, pathId, ids);
      SubmapSize(kept, envelopes);
      n := |envelopes| - |kept|;
      envelopes := kept;
    }

    method DeleteEnvelopesOlderThan(cutoff: int) returns (n: nat)
      requires Valid()
      modifies this`envelopes
      ensures Valid()
      ensures envelopes == DeleteOlder(old(envelopes), cutoff)
      ensures n == |old(envelopes)| - |envelopes|
    {
      var kept := DeleteOlder(envelopes, cutoff);
      SubmapSize(kept, envelopes);
      n := |envelopes| - |kept|;
      envelopes := kept;
    }

    method InsertPairRequest(r: PairRequest) returns (result: Outcome)
      modifies this`requests
      ensures result == if r.requestId in old(requests) then Duplicate else Done
      ensures requests == if r.requestId in old(requests) then old(requests) else old(requests)[r.requestId := r]
    {
      if r.requestId in requests {
        return Duplicate;
      }
      requests := requests[r.requestId := r];
      return Done;
    }

    method UpdatePairRequestStatus(id: string, to: Status, owner: OwnerDoc, pathId: Option<string>) returns (result: Outcome)
      requires to != Pending
      modifies this`requests
      ensures requests == UpdatePending(old(requests), id, to, owner, pathId)
      ensures result == UpdateOutcome(old(requests), id, to)
    {
      var affected := id in requests && requests[id].status == Pending;
      requests := UpdatePending(requests, id, to, owner, pathId);
      if !affected {
        if id !in requests {
          return NotFound;
        }
        if requests[id].status == to {
          return Done;
        }
        return Conflict;
      }
      return Done;
    }

    method ExpirePendingRequests(cutoff: int) returns (n: nat)
      modifies this`requests
      ensures requests == ExpirePending(old(requests), cutoff)
      ensures n == |set id | id in old(requests) && old(requests)[id].status != requests[id].status|
    {
      var due := set id | id in requests && requests[id].status == Pending && requests[id].expiresAt < Second(cutoff);
      var was := requests;
      requests := ExpirePending(requests, cutoff);
      assert due == set id | id in was && was[id].status != requests[id].status;
      n := |due|;
    }

    method InsertPair(p: Pair) returns (result: Outcome)
      modifies this`pairs
      ensures result == if p.pathId in old(pairs) then Duplicate else Done
      ensures pairs == if p.pathId in old(pairs) then old(pairs) else old(pairs)[p.pathId := p]
    {
      if p.pathId in pairs {
        return Duplicate;
      }
      pairs := pairs[p.pathId := p];
      return Done;
    }

    method GetPair(pathId: string) returns (p: Option<Pair>)
      ensures p == if pathId in pairs then Some(pairs[pathId]) else None
    {
      p := if pathId in pairs then Some(pairs[pathId]) else None;
    }

    method GetPairRequest(id: string) returns (r: Option<PairRequest>)
      ensures r == if id in requests then Some(requests[id]) else None
    {
      r := if id in requests then Some(requests[id]) else None;
    }
  }

  lemma SubmapSize(a: Envelopes, b: Envelopes)
    requires a.Keys <= b.Keys
    ensures |a| <= |b|
  {
    SubsetSize(a.Keys, b.Keys);
  }

  lemma {:induction false} SubsetSize(a: set<string>, b: set<string>)
    requires a <= b
    ensures |a| <= |b|
    ensures a != b ==> |a| < |b|
  {
    assert b == a + (b - a);
    assert |b| == |a| + |b - a|;
  }

  // ---- What the updating queries do to each row ----

  /** A column's second is the whole seconds that have passed. */
  lemma SecondExactly(nanos: int, n: int)
    ensures n == Second(nanos) <==> n * 1_000_000_000 <= nanos < (n + 1) * 1_000_000_000
  {
  }

  /** Expiry changes the status of a request exactly when it is pending and the
      cutoff's second lies past its deadline, and changes nothing else. */
  lemma ExpiresExactly(rs: Requests, cutoff: int, id: string)
    requires id in rs
    ensures var after := ExpirePending(rs, cutoff);
            after.Keys == rs.Keys &&
            (after[id] != rs[id] <==> rs[id].status == Pending && rs[id].expiresAt < cutoff / 1_000_000_000) &&
            (after[id] != rs[id] ==> after[id] == rs[id].(status := Expired))
  {
  }

  /** Retention takes exactly the rows received in a second before the cutoff's. */
  lemma RetainsExactly(envs: Envelopes, cutoff: int, m: string)
    ensures m in DeleteOlder(envs, cutoff) <==> m in envs && envs[m].receivedAt >= cutoff / 1_000_000_000
    ensures m in DeleteOlder(envs, cutoff) ==> DeleteOlder(envs, cutoff)[m] == envs[m]
  {
  }

  /** A delete by path and ids takes exactly the rows that have that path and one of
      those ids. */
  lemma DeletesExactly(envs: Envelopes, pathId: string, ids: seq<string>, m: string)
    ensures m in DeleteIds(envs, pathId, ids) <==> m in envs && (m in ids ==> envs[m].pathId != pathId)
    ensures m in DeleteIds(envs, pathId, ids) ==> DeleteIds(envs, pathId, ids)[m] == envs[m]
  {
  }

  /** The conditional update: one pending row gets the status and the columns that
      are given, and every other row stays. */
  lemma UpdatesExactly(rs: Requests, id: string, to: Status, owner: OwnerDoc, pathId: Option<string>, other: string)
    requires other in rs && to != Pending
    ensures var after := UpdatePending(rs, id, to, owner, pathId);
            after.Keys == rs.Keys &&
            (after[other] != rs[other] <==> other == id && rs[id].status == Pending) &&
            (after[other] != rs[other] ==>
               after[id].status == to &&
               (owner.NoOwner? ==> after[id].owner == rs[id].owner) && (!owner.NoOwner? ==> after[id].owner == owner) &&
               (pathId.None? ==> after[id].pathId == rs[id].pathId) && (pathId.Some? ==> after[id].pathId == pathId) &&
               after[id] == rs[id].(status := to, owner := after[id].owner, pathId := after[id].pathId))
  {
    if other == id && rs[id].status == Pending {
      assert UpdatePending(rs, id, to, owner, pathId)[id].status == to;
    }
  }
}
