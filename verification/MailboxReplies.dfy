/** Which reply each mailbox endpoint gives: its checks as a list, in the order
    of their error codes, and the first that fails decides. */
module MailboxReplies {
  import opened Lex
  import opened Foreign
  import opened CanonicalJson
  import opened Checks
  import opened Hex
  import opened Storage
  import opened Mailbox
  import Base64Url
  import Uuid

  // ---- PUT ----

  const PUT_REFUSALS: seq<Reply> := [
    Refusal(404, PairNotFound), Refusal(400, InvalidJson), Refusal(400, InvalidEnvelope), Refusal(400, PathIdMismatch),
    Refusal(400, InvalidMsgId), Refusal(400, TsOutOfWindow), Refusal(400, CiphertextNotBase64url),
    Refusal(400, CiphertextHashMismatch), Refusal(500, VerifierError), Refusal(401, SignatureInvalid)]

  /** The checks on the envelope itself. */
  function EnvelopeChecks(lib: Library, pathId: string, e: Envelope, now: int): seq<bool> {
    var bytes := Base64Url.Decode(e.ciphertext);
    [e.version == "1" && e.msgId != "" && e.ts != "" && e.pathId != "" && e.ciphertextSha256 != "" && e.ciphertext != "",
     e.pathId == pathId,
     Uuid.Uuidv7(e.msgId),
     Fresh(lib, e.ts, now),
     bytes.Some?,
     bytes.Some? && SpellsOctets(e.ciphertextSha256, lib.sha256(bytes.value))]
  }

  /** The checks on the sender. */
  function SenderChecks(lib: Library, pair: Pair, signature: string, message: string): seq<bool> {
    [!PairUnusable(lib, pair, signature, message), HalfSigned(lib, pair, signature, message)]
  }

  function PutChecks(lib: Library, pairs: Pairs, pathId: string, body: Body, signature: string, now: int): seq<bool> {
    if pathId !in pairs then [false]
    else if body.decoded.None? then [true, false]
    else [true, true] + EnvelopeChecks(lib, pathId, body.decoded.value, now) +
         SenderChecks(lib, pairs[pathId], signature, Canonical(body.decoded.value))
  }

  lemma EnvelopeRefusesExactly(lib: Library, pathId: string, e: Envelope, now: int, k: nat)
    requires k < 6
    ensures EnvelopeProblem(lib, pathId, e, now) == Some(PUT_REFUSALS[2 + k]) <==>
            FirstFailing(EnvelopeChecks(lib, pathId, e, now), k)
    ensures EnvelopeProblem(lib, pathId, e, now).None? <==> AllPass(EnvelopeChecks(lib, pathId, e, now))
    ensures EnvelopeProblem(lib, pathId, e, now) !in {Some(PUT_REFUSALS[0]), Some(PUT_REFUSALS[1]), Some(PUT_REFUSALS[8]), Some(PUT_REFUSALS[9])}
  {
    FreshExactly(lib, e.ts, now);
    if Base64Url.Decode(e.ciphertext).Some? {
      HexTextExactly(e.ciphertextSha256, lib.sha256(Base64Url.Decode(e.ciphertext).value));
    }
    SixChecks(EnvelopeChecks(lib, pathId, e, now), k);
  }

  lemma SixChecks(c: seq<bool>, k: nat)
    requires |c| == 6 && k < 6
    ensures AllPass(c) <==> c[0] && c[1] && c[2] && c[3] && c[4] && c[5]
    ensures FirstFailing(c, k) <==>
            !c[k] && (k > 0 ==> c[0]) && (k > 1 ==> c[1]) && (k > 2 ==> c[2]) && (k > 3 ==> c[3]) && (k > 4 ==> c[4])
  {
  }

  lemma SenderRefusesExactly(lib: Library, pair: Pair, signature: string, message: string)
    ensures var problem := SenderProblem(pair, Identify(lib, pair, signature, message));
            var checks := SenderChecks(lib, pair, signature, message);
            (problem == Some(PUT_REFUSALS[8]) <==> FirstFailing(checks, 0)) &&
            (problem == Some(PUT_REFUSALS[9]) <==> FirstFailing(checks, 1)) &&
            (problem.None? <==> AllPass(checks)) &&
            (problem.None? || problem == Some(PUT_REFUSALS[8]) || problem == Some(PUT_REFUSALS[9]))
  {
    IdentifyExactly(lib, pair, signature, message);
    SenderChecksExactly(lib, pair, signature, message);
  }

  lemma PutProblemExactly(lib: Library, pairs: Pairs, pathId: string, body: Body, signature: string, now: int, k: nat)
    requires k < 10
    ensures PutProblem(lib, pairs, pathId, body, signature, now) == Some(PUT_REFUSALS[k]) <==>
            FirstFailing(PutChecks(lib, pairs, pathId, body, signature, now), k)
    ensures PutProblem(lib, pairs, pathId, body, signature, now).None? <==>
            AllPass(PutChecks(lib, pairs, pathId, body, signature, now))
  {
    var checks := PutChecks(lib, pairs, pathId, body, signature, now);
    if pathId in pairs && body.decoded.Some? {
      ReadableBody(lib, pairs, pathId, body, signature, now, k);
    } else {
      assert checks == if pathId in pairs then [true, false] else [false];
      assert !checks[|checks| - 1];
    }
  }

  lemma ReadableBody(lib: Library, pairs: Pairs, pathId: string, body: Body, signature: string, now: int, k: nat)
    requires k < 10 && pathId in pairs && body.decoded.Some?
    ensures PutProblem(lib, pairs, pathId, body, signature, now) == Some(PUT_REFUSALS[k]) <==>
            FirstFailing(PutChecks(lib, pairs, pathId, body, signature, now), k)
    ensures PutProblem(lib, pairs, pathId, body, signature, now).None? <==>
            AllPass(PutChecks(lib, pairs, pathId, body, signature, now))
  {
    var e := body.decoded.value;
    EnvelopeRefusesExactly(lib, pathId, e, now, if 2 <= k < 8 then k - 2 else 0);
    SenderRefusesExactly(lib, pairs[pathId], signature, Canonical(e));
    TwoStages(EnvelopeProblem(lib, pathId, e, now),
              SenderProblem(pairs[pathId], Identify(lib, pairs[pathId], signature, Canonical(e))),
              EnvelopeChecks(lib, pathId, e, now), SenderChecks(lib, pairs[pathId], signature, Canonical(e)), k);
  }

  lemma TwoStages(envelope: Option<Reply>, sender: Option<Reply>, middle: seq<bool>, back: seq<bool>, k: nat)
    requires k < 10 && |middle| == 6 && |back| == 2
    requires 2 <= k < 8 ==> (envelope == Some(PUT_REFUSALS[k]) <==> FirstFailing(middle, k - 2))
    requires envelope.None? <==> AllPass(middle)
    requires envelope !in {Some(PUT_REFUSALS[0]), Some(PUT_REFUSALS[1]), Some(PUT_REFUSALS[8]), Some(PUT_REFUSALS[9])}
    requires sender == Some(PUT_REFUSALS[8]) <==> FirstFailing(back, 0)
    requires sender == Some(PUT_REFUSALS[9]) <==> FirstFailing(back, 1)
    requires sender.None? <==> AllPass(back)
    requires sender.None? || sender == Some(PUT_REFUSALS[8]) || sender == Some(PUT_REFUSALS[9])
    ensures var problem := if envelope.Some? then envelope else sender;
            (problem == Some(PUT_REFUSALS[k]) <==> FirstFailing([true, true] + middle + back, k)) &&
            (problem.None? <==> AllPass([true, true] + middle + back))
  {
    FailingIn([true, true] + middle, back, k);
    FailingIn([true, true], middle, k);
    assert AllPass([true, true]) && !FirstFailing([true, true], k);
    assert k < 8 ==> PUT_REFUSALS[k] != PUT_REFUSALS[8] && PUT_REFUSALS[k] != PUT_REFUSALS[9];
  }

  /** Which way a half sends: the requester from A to B, the owner back. */
  function SenderDirection(lib: Library, pair: Pair, signature: string, message: string): Direction
    requires HalfSigned(lib, pair, signature, message)
  {
    if SignedBy(lib, pair.requesterPubkey, signature, message) then AToB else BToA
  }

  function Opposite(dir: Direction): Direction {
    if dir == AToB then BToA else AToB
  }

  lemma SenderDirectionExactly(lib: Library, pair: Pair, signature: string, message: string)
    requires HalfSigned(lib, pair, signature, message)
    ensures var k := Identify(lib, pair, signature, message);
            k.Known? && DirectionFrom(pair, k.pubkey) == Some(SenderDirection(lib, pair, signature, message)) &&
            ReadDirectionFor(pair, k.pubkey) == Some(Opposite(SenderDirection(lib, pair, signature, message)))
  {
    IdentifyExactly(lib, pair, signature, message);
  }

  /** The row that PUT stores, column by column. */
  lemma StoredRow(lib: Library, pairs: Pairs, pathId: string, body: Body, signature: string, now: int, received: int)
    requires PutProblem(lib, pairs, pathId, body, signature, now).None?
    ensures pathId in pairs && body.decoded.Some? && HalfSigned(lib, pairs[pathId], signature, Canonical(body.decoded.value))
    ensures var e := body.decoded.value;
            PutRow(lib, pairs, pathId, body, signature, now, received) ==
            Row(e.msgId, pathId, SenderDirection(lib, pairs[pathId], signature, Canonical(e)), received / 1_000_000_000,
                e.ciphertext, signature, body)
  {
    ChecksExactly(lib, pairs, pathId, body, signature, now);
    SenderDirectionExactly(lib, pairs[pathId], signature, Canonical(body.decoded.value));
  }

  /** PUT refuses by the first check that fails, and then changes nothing. */
  lemma PutRefusesExactly(lib: Library, envs: Envelopes, pairs: Pairs, pathId: string, body: Body, signature: string,
                          now: int, received: int, k: nat)
    requires k < 10
    ensures var checks := PutChecks(lib, pairs, pathId, body, signature, now);
            var (after, reply) := PutStep(lib, envs, pairs, pathId, body, signature, now, received);
            (reply == PUT_REFUSALS[k] <==> FirstFailing(checks, k)) && (!AllPass(checks) ==> after == envs)
  {
    PutProblemExactly(lib, pairs, pathId, body, signature, now, k);
    if PutProblem(lib, pairs, pathId, body, signature, now).None? {
      InsertIsNoCheck(envs, PutRow(lib, pairs, pathId, body, signature, now, received), k);
      PassingDoesNotFail(PutChecks(lib, pairs, pathId, body, signature, now), k);
    }
  }

  lemma InsertIsNoCheck(envs: Envelopes, row: Row, k: nat)
    requires k < 10
    ensures InsertStep(envs, row).1 != PUT_REFUSALS[k]
  {
  }

  /** A PUT that passes every check answers 409 for an id in use, and else 202 with
      one row more, column by column. */
  lemma PutStoresExactly(lib: Library, envs: Envelopes, pairs: Pairs, pathId: string, body: Body, signature: string,
                         now: int, received: int)
    requires AllPass(PutChecks(lib, pairs, pathId, body, signature, now))
    ensures pathId in pairs && body.decoded.Some? && HalfSigned(lib, pairs[pathId], signature, Canonical(body.decoded.value))
    ensures var e := body.decoded.value;
            PutStep(lib, envs, pairs, pathId, body, signature, now, received) ==
            if e.msgId in envs then (envs, Refusal(409, DuplicateMsgId))
            else (envs[e.msgId := Row(e.msgId, pathId, SenderDirection(lib, pairs[pathId], signature, Canonical(e)),
                                      received / 1_000_000_000, e.ciphertext, signature, body)],
                  Accepted(e.msgId))
  {
    PutProblemExactly(lib, pairs, pathId, body, signature, now, 0);
    StoredRow(lib, pairs, pathId, body, signature, now, received);
  }

  // ---- GET and ack ----

  const GET_REFUSALS: seq<Reply> := [
    Refusal(404, PairNotFound), Refusal(500, VerifierError), Refusal(401, SignatureInvalid), Refusal(400, InvalidSince)]

  const ACK_REFUSALS: seq<Reply> := [
    Refusal(404, PairNotFound), Refusal(500, VerifierError), Refusal(401, SignatureInvalid), Refusal(400, InvalidJson),
    Refusal(400, TooManyIds)]

  function CallerChecks(lib: Library, pairs: Pairs, pathId: string, signature: string, message: string): seq<bool> {
    if pathId !in pairs then [false, false, false]
    else [true, !PairUnusable(lib, pairs[pathId], signature, message), HalfSigned(lib, pairs[pathId], signature, message)]
  }

  lemma CallerRefusesExactly(lib: Library, pairs: Pairs, pathId: string, signature: string, message: string, k: nat)
    requires k < 3
    ensures var problem := CallerProblem(lib, pairs, pathId, signature, message);
            var checks := CallerChecks(lib, pairs, pathId, signature, message);
            (problem == Some(GET_REFUSALS[k]) <==> FirstFailing(checks, k)) && (problem.None? <==> AllPass(checks)) &&
            problem != Some(GET_REFUSALS[3]) && problem != Some(ACK_REFUSALS[3]) && problem != Some(ACK_REFUSALS[4])
    ensures CallerProblem(lib, pairs, pathId, signature, message).None? ==>
              HalfSigned(lib, pairs[pathId], signature, message) &&
              CallerInbox(lib, pairs, pathId, signature, message) ==
              Some(Opposite(SenderDirection(lib, pairs[pathId], signature, message)))
  {
    var c := CallerChecks(lib, pairs, pathId, signature, message);
    assert AllPass(c) <==> c[0] && c[1] && c[2];
    assert FirstFailing(c, k) <==> !c[k] && (k > 0 ==> c[0]) && (k > 1 ==> c[1]);
    if pathId in pairs {
      IdentifyExactly(lib, pairs[pathId], signature, message);
      if HalfSigned(lib, pairs[pathId], signature, message) {
        SenderDirectionExactly(lib, pairs[pathId], signature, message);
      }
    }
  }

  /** Every answer of GET. The caller signs the path, with the query when there is
      one, and is shown a page of what the other half sent. */
  lemma GetAnswersExactly(lib: Library, envs: Envelopes, pairs: Pairs, pathId: string, query: string, since: string,
                          signature: string, k: nat)
    requires k < 4
    ensures var text := if query == "" then "/mailbox/" + pathId else "/mailbox/" + pathId + "?" + query;
            var checks := CallerChecks(lib, pairs, pathId, signature, text) + [since == "" || Uuid.Uuidv7(since)];
            var reply := GetReply(lib, envs, pairs, pathId, query, since, signature);
            (reply == GET_REFUSALS[k] <==> FirstFailing(checks, k)) &&
            (AllPass(checks) ==>
               pathId in pairs && HalfSigned(lib, pairs[pathId], signature, text) &&
               reply == ListingOf(Page(envs, pathId, Opposite(SenderDirection(lib, pairs[pathId], signature, text)), since)))
  {
    var text := GetText(pathId, query);
    assert text == if query == "" then "/mailbox/" + pathId else "/mailbox/" + pathId + "?" + query;
    var front, back := CallerChecks(lib, pairs, pathId, signature, text), [since == "" || Uuid.Uuidv7(since)];
    FailingIn(front, back, k);
    assert AllPass(back) <==> back[0];
    CallerRefusesExactly(lib, pairs, pathId, signature, text, if k < 3 then k else 0);
    assert k < 3 ==> GET_REFUSALS[k] != GET_REFUSALS[3];
  }

  /** Every answer of ack. The caller signs the path; no ids means nothing to do,
      and a batch holds at most 100. */
  lemma AckAnswersExactly(lib: Library, envs: Envelopes, pairs: Pairs, pathId: string, ids: Option<seq<string>>,
                          signature: string, k: nat)
    requires k < 5
    ensures var text := "/mailbox/" + pathId + "/ack";
            var checks := CallerChecks(lib, pairs, pathId, signature, text) +
                          [ids.Some?, ids.Some? && |ids.value| <= 100];
            var (after, reply) := AckStep(lib, envs, pairs, pathId, ids, signature);
            (reply == ACK_REFUSALS[k] <==> FirstFailing(checks, k)) &&
            (!AllPass(checks) ==> after == envs) &&
            (AllPass(checks) ==>
               pathId in pairs && HalfSigned(lib, pairs[pathId], signature, text) && ids.Some? &&
               (after, reply) ==
               if ids.value == [] then (envs, Evicted(0))
               else EvictStep(envs, pathId, Opposite(SenderDirection(lib, pairs[pathId], signature, text)), ids.value))
  {
    var text := AckText(pathId);
    assert text == "/mailbox/" + pathId + "/ack";
    var front, back := CallerChecks(lib, pairs, pathId, signature, text), [ids.Some?, ids.Some? && |ids.value| <= 100];
    FailingIn(front, back, k);
    CallerRefusesExactly(lib, pairs, pathId, signature, text, if k < 3 then k else 0);
    assert AllPass(back) <==> back[0] && back[1];
    assert k >= 3 ==> (FirstFailing(back, k - 3) <==> !back[k - 3] && (k > 3 ==> back[0]));
    assert k < 3 ==> ACK_REFUSALS[k] == GET_REFUSALS[k] != ACK_REFUSALS[3] && ACK_REFUSALS[k] != ACK_REFUSALS[4];
  }
}
