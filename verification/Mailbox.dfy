/** The mailbox endpoints over the envelope table: PUT, GET and ack. */
module Mailbox {
  import opened Lex
  import opened Foreign
  import opened CanonicalJson
  import opened Hex
  import opened Storage
  import Base64Url
  import SelfSig
  import Uuid
  import Times

  const REPLAY_WINDOW: int := 300 * Times.NANOS
  const MAX_ACK_BATCH: nat := 100
  const MAX_INT64: int := 0x7FFF_FFFF_FFFF_FFFF
  const MIN_INT64: int := -0x8000_0000_0000_0000

  // ---- The replay window, in 64-bit nanoseconds ----

  /** Time subtraction saturates at the ends of a 64-bit duration. */
  function Sub(now: int, t: int): int {
    if now - t > MAX_INT64 then MAX_INT64 else if now - t < MIN_INT64 then MIN_INT64 else now - t
  }

  /** Negation wraps: the least 64-bit value is its own negative. */
  function Negate(d: int): int {
    if d == MIN_INT64 then MIN_INT64 else -d
  }

  predicate InWindow(now: int, t: int) {
    var d := Sub(now, t);
    (if d < 0 then Negate(d) else d) <= REPLAY_WINDOW
  }

  /** The window check is the five-minute test, except that it also passes every
      timestamp that lies 2^63 nanoseconds or more ahead. */
  lemma WindowExactly(now: int, t: int)
    ensures InWindow(now, t) <==>
            (-REPLAY_WINDOW <= now - t <= REPLAY_WINDOW) || t - now >= -MIN_INT64
  {
  }

  predicate TsInWindow(lib: Library, ts: string, now: int) {
    lib.parseTime(ts).Some? && InWindow(now, lib.parseTime(ts).value)
  }

  // ---- Callers ----

  datatype Caller = Nobody | Known(pubkey: string) | Broken

  /** The requester's key is tried first, then the owner's. A stored key that is
      no 32-byte key is an error of the relay, not of the caller. */
  function Identify(lib: Library, pair: Pair, signature: string, message: string): Caller {
    var sig := Base64Url.Decode(signature);
    var requester, owner := Base64Url.Decode(pair.requesterPubkey), Base64Url.Decode(pair.ownerPubkey);
    if pair.sigAlg != "ed25519" then Broken
    else if signature == "" || sig.None? || |sig.value| != 64 then Nobody
    else if requester.None? || |requester.value| != 32 then Broken
    else if lib.ed25519(requester.value, message, sig.value) then Known(pair.requesterPubkey)
    else if owner.None? || |owner.value| != 32 then Broken
    else if lib.ed25519(owner.value, message, sig.value) then Known(pair.ownerPubkey)
    else Nobody
  }

  function DirectionFrom(pair: Pair, sender: string): Option<Direction> {
    if sender == pair.requesterPubkey then Some(AToB)
    else if sender == pair.ownerPubkey then Some(BToA)
    else None
  }

  function ReadDirectionFor(pair: Pair, caller: string): Option<Direction> {
    if caller == pair.requesterPubkey then Some(BToA)
    else if caller == pair.ownerPubkey then Some(AToB)
    else None
  }

  /** A caller that the verifier names always has both directions. */
  lemma KnownCallerHasDirections(lib: Library, pair: Pair, signature: string, message: string)
    requires Identify(lib, pair, signature, message).Known?
    ensures var k := Identify(lib, pair, signature, message).pubkey;
            DirectionFrom(pair, k).Some? && ReadDirectionFor(pair, k).Some? &&
            DirectionFrom(pair, k) != ReadDirectionFor(pair, k)
  {
  }

  // ---- Replies ----

  /** The error codes of the three endpoints. */
  datatype Code =
    | CiphertextHashMismatch | CiphertextNotBase64url | InvalidEnvelope | InvalidJson
    | InvalidMsgId | InvalidSince | PathIdMismatch | TooManyIds
    | TsOutOfWindow | CallerNotInPair | SenderNotInPair | SignatureInvalid
    | PairNotFound | DuplicateMsgId | VerifierError

  datatype Reply =
    | Refusal(status: nat, code: Code)
    | Accepted(msgId: string)
    | Listing(envelopes: seq<Body>, cursor: Option<string>)
    | Evicted(count: nat)

  predicate ValidSchema(e: Envelope) {
    e.version == "1" && e.msgId != "" && e.ts != "" && e.pathId != "" &&
    e.ciphertextSha256 != "" && e.ciphertext != ""
  }

  /** The first check on the envelope itself that fails, if one does. */
  function EnvelopeProblem(lib: Library, pathId: string, e: Envelope, now: int): Option<Reply> {
    var bytes := Base64Url.Decode(e.ciphertext);
    if !ValidSchema(e) then Some(Refusal(400, InvalidEnvelope))
    else if e.pathId != pathId then Some(Refusal(400, PathIdMismatch))
    else if !Uuid.Uuidv7(e.msgId) then Some(Refusal(400, InvalidMsgId))
    else if !TsInWindow(lib, e.ts, now) then Some(Refusal(400, TsOutOfWindow))
    else if bytes.None? then Some(Refusal(400, CiphertextNotBase64url))
    else if HexText(lib.sha256(bytes.value)) != e.ciphertextSha256 then Some(Refusal(400, CiphertextHashMismatch))
    else None
  }

  function SenderProblem(pair: Pair, sender: Caller): Option<Reply> {
    match sender
    case Broken => Some(Refusal(500, VerifierError))
    case Nobody => Some(Refusal(401, SignatureInvalid))
    case Known(k) => if DirectionFrom(pair, k).None? then Some(Refusal(401, SenderNotInPair)) else None
  }

  /** The first check that a PUT fails, if it fails one. */
  function PutProblem(lib: Library, pairs: Pairs, pathId: string, body: Body, signature: string, now: int): Option<Reply> {
    if pathId !in pairs then Some(Refusal(404, PairNotFound))
    else if body.decoded.None? then Some(Refusal(400, InvalidJson))
    else
      var problem := EnvelopeProblem(lib, pathId, body.decoded.value, now);
      if problem.Some? then problem
      else SenderProblem(pairs[pathId], Identify(lib, pairs[pathId], signature, Canonical(body.decoded.value)))
  }

  /** The row that an accepted PUT stores. */
  function PutRow(lib: Library, pairs: Pairs, pathId: string, body: Body, signature: string, now: int, received: int): Row
    requires PutProblem(lib, pairs, pathId, body, signature, now).None?
  {
    var e := body.decoded.value;
    var sender := Identify(lib, pairs[pathId], signature, Canonical(e)).pubkey;
    Row(e.msgId, pathId, DirectionFrom(pairs[pathId], sender).value, Second(received), e.ciphertext, signature, body)
  }

  function PutStep(lib: Library, envs: Envelopes, pairs: Pairs, pathId: string, body: Body, signature: string,
                   now: int, received: int): (Envelopes, Reply)
  {
    var problem := PutProblem(lib, pairs, pathId, body, signature, now);
    if problem.Some? then (envs, problem.value)
    else InsertStep(envs, PutRow(lib, pairs, pathId, body, signature, now, received))
  }

  function InsertStep(envs: Envelopes, row: Row): (Envelopes, Reply) {
    if row.msgId in envs then (envs, Refusal(409, DuplicateMsgId))
    else (envs[row.msgId := row], Accepted(row.msgId))
  }

  /** Who is calling, or why the call ends here. */
  function CallerProblem(lib: Library, pairs: Pairs, pathId: string, signature: string, message: string): Option<Reply> {
    if pathId !in pairs then Some(Refusal(404, PairNotFound))
    else
      match Identify(lib, pairs[pathId], signature, message)
      case Broken => Some(Refusal(500, VerifierError))
      case Nobody => Some(Refusal(401, SignatureInvalid))
      case Known(_) => None
  }

  function CallerInbox(lib: Library, pairs: Pairs, pathId: string, signature: string, message: string): Option<Direction>
    requires CallerProblem(lib, pairs, pathId, signature, message).None?
  {
    ReadDirectionFor(pairs[pathId], Identify(lib, pairs[pathId], signature, message).pubkey)
  }

  /** GET signs the path, and the query when there is one. */
  function GetText(pathId: string, query: string): string {
    "/mailbox/" + pathId + (if query != "" then "?" + query else "")
  }

  function AckText(pathId: string): string {
    "/mailbox/" + pathId + "/ack"
  }

  function Bodies(rows: seq<Row>): (bodies: seq<Body>)
    ensures |bodies| == |rows| && forall i :: 0 <= i < |rows| ==> bodies[i] == rows[i].outerJson
  {
    seq(|rows|, i requires 0 <= i < |rows| => rows[i].outerJson)
  }

  ghost function GetReply(lib: Library, envs: Envelopes, pairs: Pairs, pathId: string, query: string, since: string,
                          signature: string): Reply
  {
    var problem := CallerProblem(lib, pairs, pathId, signature, GetText(pathId, query));
    if problem.Some? then problem.value
    else if since != "" && !Uuid.Uuidv7(since) then Refusal(400, InvalidSince)
    else
      var dir := CallerInbox(lib, pairs, pathId, signature, GetText(pathId, query));
      if dir.None? then Refusal(401, CallerNotInPair)
      else
        ListingOf(Page(envs, pathId, dir.value, since))
  }

  /** The stored bodies of a page and, unless it is empty, its last id. */
  function ListingOf(rows: seq<Row>): Reply {
    Listing(Bodies(rows),
            if rows == [] || rows[|rows| - 1].msgId == "" then None else Some(rows[|rows| - 1].msgId))
  }

  /** The requested ids among a listing, in listing order. */
  function Requested(listed: seq<string>, ids: seq<string>): seq<string> {
    if listed == [] then []
    else Requested(listed[..|listed| - 1], ids) +
         (if listed[|listed| - 1] in ids then [listed[|listed| - 1]] else [])
  }

  lemma {:induction false} RequestedMeaning(listed: seq<string>, ids: seq<string>)
    ensures forall m :: m in Requested(listed, ids) <==> m in listed && m in ids
  {
    if listed != [] {
      RequestedMeaning(listed[..|listed| - 1], ids);
      assert listed == listed[..|listed| - 1] + [listed[|listed| - 1]];
    }
  }

  /** `ids` is None when the body is not JSON. */
  ghost function AckStep(lib: Library, envs: Envelopes, pairs: Pairs, pathId: string, ids: Option<seq<string>>,
                         signature: string): (Envelopes, Reply)
  {
    var problem := CallerProblem(lib, pairs, pathId, signature, AckText(pathId));
    if problem.Some? then (envs, problem.value)
    else if ids.None? then (envs, Refusal(400, InvalidJson))
    else if ids.value == [] then (envs, Evicted(0))
    else if |ids.value| > MAX_ACK_BATCH then (envs, Refusal(400, TooManyIds))
    else
      var dir := CallerInbox(lib, pairs, pathId, signature, AckText(pathId));
      if dir.None? then (envs, Refusal(401, CallerNotInPair))
      else EvictStep(envs, pathId, dir.value, ids.value)
  }

  /** Of the requested ids, those that the caller's listing shows are deleted. */
  ghost function EvictStep(envs: Envelopes, pathId: string, dir: Direction, ids: seq<string>): (Envelopes, Reply) {
    var kept := DeleteIds(envs, pathId, Requested(PageIds(envs, pathId, dir, ""), ids));
    SubmapSize(kept, envs);
    (kept, Evicted(|envs| - |kept|))
  }

  /** The verifier: a loop over the two halves, which stops at the first key that
      verifies the signature. */
  method IdentifySender(lib: Library, pair: Pair, signature: string, message: string) returns (caller: Caller)
    ensures caller == Identify(lib, pair, signature, message)
  {
    if pair.sigAlg != "ed25519" {
      return Broken;
    }
    if signature == "" {
      return Nobody;
    }
    var sig := Base64Url.Decode(signature);
    if sig.None? || |sig.value| != 64 {
      return Nobody;
    }
    var halves := [pair.requesterPubkey, pair.ownerPubkey];
    for i := 0 to |halves|
      invariant forall j :: 0 <= j < i ==> SelfSig.KeyText(halves[j]) && !SignedBy(lib, halves[j], signature, message)
    {
      var key := Base64Url.Decode(halves[i]);
      assert i == 1 ==> SelfSig.KeyText(halves[0]) && !SignedBy(lib, halves[0], signature, message);
      if key.None? || |key.value| != 32 {
        return Broken;
      }
      if lib.ed25519(key.value, message, sig.value) {
        return Known(halves[i]);
      }
    }
    assert !SignedBy(lib, halves[0], signature, message) && !SignedBy(lib, halves[1], signature, message);
    return Nobody;
  }

  class Handler {
    const store: Store
    const lib: Library

    constructor (store: Store, lib: Library)
      ensures this.store == store && this.lib == lib
    {
      this.store, this.lib := store, lib;
    }

    method Put(pathId: string, body: Body, signature: string, now: int, received: int) returns (reply: Reply)
      requires store.Valid()
      modifies store`envelopes
      ensures store.Valid()
      ensures (store.envelopes, reply) ==
              PutStep(lib, old(store.envelopes), store.pairs, pathId, body, signature, now, received)
    {
      var pair := store.GetPair(pathId);
      if pair.None? {
        return Refusal(404, PairNotFound);
      }
      if body.decoded.None? {
        return Refusal(400, InvalidJson);
      }
      var e := body.decoded.value;
      var problem := CheckEnvelope(pathId, e, now);
      if problem.Some? {
        return problem.value;
      }
      var sender := IdentifySender(lib, pair.value, signature, Canonical(e));
      problem := CheckSender(pair.value, sender);
      if problem.Some? {
        return problem.value;
      }
      var direction := DirectionFrom(pair.value, sender.pubkey).value;
      var row := Row(e.msgId, pathId, direction, Second(received), e.ciphertext, signature, body);
      reply := Deliver(row);
    }

    method CheckSender(pair: Pair, sender: Caller) returns (problem: Option<Reply>)
      ensures problem == SenderProblem(pair, sender)
    {
      if sender == Broken {
        return Some(Refusal(500, VerifierError));
      }
      if sender == Nobody {
        return Some(Refusal(401, SignatureInvalid));
      }
      if DirectionFrom(pair, sender.pubkey).None? {
        return Some(Refusal(401, SenderNotInPair));
      }
      return None;
    }

    method Deliver(row: Row) returns (reply: Reply)
      requires store.Valid()
      modifies store`envelopes
      ensures store.Valid()
      ensures (store.envelopes, reply) == InsertStep(old(store.envelopes), row)
    {
      var outcome := store.InsertEnvelope(row);
      if outcome == Duplicate {
        return Refusal(409, DuplicateMsgId);
      }
      return Accepted(row.msgId);
    }

    method CheckEnvelope(pathId: string, e: Envelope, now: int) returns (problem: Option<Reply>)
      ensures problem == EnvelopeProblem(lib, pathId, e, now)
    {
      if !ValidSchema(e) {
        return Some(Refusal(400, InvalidEnvelope));
      }
      if e.pathId != pathId {
        return Some(Refusal(400, PathIdMismatch));
      }
      if !Uuid.Uuidv7(e.msgId) {
        return Some(Refusal(400, InvalidMsgId));
      }
      if !TsInWindow(lib, e.ts, now) {
        return Some(Refusal(400, TsOutOfWindow));
      }
      var bytes := Base64Url.Decode(e.ciphertext);
      if bytes.None? {
        return Some(Refusal(400, CiphertextNotBase64url));
      }
      if HexText(lib.sha256(bytes.value)) != e.ciphertextSha256 {
        return Some(Refusal(400, CiphertextHashMismatch));
      }
      return None;
    }

    /** The pair lookup and signature check that GET and ack start with. */
    method Authenticate(pathId: string, signature: string, text: string) returns (problem: Option<Reply>, key: string)
      ensures problem == CallerProblem(lib, store.pairs, pathId, signature, text)
      ensures problem.None? ==> key == Identify(lib, store.pairs[pathId], signature, text).pubkey
    {
      var pair := store.GetPair(pathId);
      if pair.None? {
        return Some(Refusal(404, PairNotFound)), "";
      }
      var caller := IdentifySender(lib, pair.value, signature, text);
      match caller
      case Broken => return Some(Refusal(500, VerifierError)), "";
      case Nobody => return Some(Refusal(401, SignatureInvalid)), "";
      case Known(k) => return None, k;
    }

    method Get(pathId: string, query: string, since: string, signature: string) returns (reply: Reply)
      requires store.Valid()
      ensures reply == GetReply(lib, store.envelopes, store.pairs, pathId, query, since, signature)
    {
      var problem, caller := Authenticate(pathId, signature, GetText(pathId, query));
      if problem.Some? {
        return problem.value;
      }
      if since != "" && !Uuid.Uuidv7(since) {
        return Refusal(400, InvalidSince);
      }
      var direction := ReadDirectionFor(store.pairs[pathId], caller);
      if direction.None? {
        return Refusal(401, CallerNotInPair);
      }
      var rows := store.ListEnvelopes(pathId, direction.value, since);
      reply := RenderListing(rows);
    }

    method RenderListing(rows: seq<Row>) returns (reply: Reply)
      ensures reply == ListingOf(rows)
    {
      var outer: seq<Body>, cursor := [], "";
      for k := 0 to |rows|
        invariant |outer| == k && forall i :: 0 <= i < k ==> outer[i] == rows[i].outerJson
        invariant cursor == if k == 0 then "" else rows[k - 1].msgId
      {
        outer := outer + [rows[k].outerJson];
        cursor := rows[k].msgId;
      }
      assert outer == Bodies(rows);
      return Listing(outer, if cursor != "" then Some(cursor) else None);
    }

    method Ack(pathId: string, ids: Option<seq<string>>, signature: string) returns (reply: Reply)
      requires store.Valid()
      modifies store`envelopes
      ensures store.Valid()
      ensures (store.envelopes, reply) ==
              AckStep(lib, old(store.envelopes), store.pairs, pathId, ids, signature)
    {
      var problem, caller := Authenticate(pathId, signature, AckText(pathId));
      if problem.Some? {
        return problem.value;
      }
      if ids.None? {
        return Refusal(400, InvalidJson);
      }
      if |ids.value| == 0 {
        return Evicted(0);
      }
      if |ids.value| > MAX_ACK_BATCH {
        return Refusal(400, TooManyIds);
      }
      var direction := ReadDirectionFor(store.pairs[pathId], caller);
      if direction.None? {
        return Refusal(401, CallerNotInPair);
      }
      reply := EvictFrom(pathId, direction.value, ids.value);
    }

    /** Lists the caller's inbox from the start, picks the requested ids and
        deletes those. */
    method EvictFrom(pathId: string, direction: Direction, ids: seq<string>) returns (reply: Reply)
      requires store.Valid()
      modifies store`envelopes
      ensures store.Valid()
      ensures (store.envelopes, reply) == EvictStep(old(store.envelopes), pathId, direction, ids)
    {
      var toDelete := RequestedOfInbox(pathId, direction, ids);
      var count := store.DeleteEnvelopesByMsgID(pathId, toDelete);
      return Evicted(count);
    }

    /** The requested ids among the caller's listing from the start. */
    method RequestedOfInbox(pathId: string, direction: Direction, ids: seq<string>) returns (toDelete: seq<string>)
      requires store.Valid()
      ensures toDelete == Requested(PageIds(store.envelopes, pathId, direction, ""), ids)
    {
      var idSet := SetOf(ids);
      var mine := store.ListEnvelopes(pathId, direction, "");
      toDelete := ChooseRequested(mine, idSet, ids);
      PageRowsAreKeyed(store.envelopes, pathId, direction, "");
    }

    method SetOf(ids: seq<string>) returns (idSet: set<string>)
      ensures forall m :: m in idSet <==> m in ids
    {
      idSet := {};
      for k := 0 to |ids|
        invariant forall m :: m in idSet <==> m in ids[..k]
      {
        idSet := idSet + {ids[k]};
      }
      assert ids[..|ids|] == ids;
    }

    /** Walks the caller's listing and keeps the requested ids. */
    method ChooseRequested(mine: seq<Row>, idSet: set<string>, ids: seq<string>) returns (toDelete: seq<string>)
      requires forall m :: m in idSet <==> m in ids
      ensures toDelete == Requested(Ids(mine), ids)
    {
      toDelete := [];
      for k := 0 to |mine|
        invariant toDelete == Requested(Ids(mine)[..k], ids)
      {
        assert Ids(mine)[..k + 1][..k] == Ids(mine)[..k];
        if mine[k].msgId in idSet {
          toDelete := toDelete + [mine[k].msgId];
        }
      }
      assert Ids(mine)[..|mine|] == Ids(mine);
    }
  }

  function Ids(rows: seq<Row>): (s: seq<string>)
    ensures |s| == |rows| && forall i :: 0 <= i < |rows| ==> s[i] == rows[i].msgId
  {
    seq(|rows|, i requires 0 <= i < |rows| => rows[i].msgId)
  }

  lemma PageRowsAreKeyed(envs: Envelopes, pathId: string, dir: Direction, since: string)
    requires Keyed(envs)
    ensures Ids(Page(envs, pathId, dir, since)) == PageIds(envs, pathId, dir, since)
  {
  }

  // ---- What the checks of PUT amount to ----

  /** Text that stands for a 64-byte signature. */
  predicate SignatureText(text: string) {
    text != "" && Base64Url.Decode(text).Some? && |Base64Url.Decode(text).value| == 64
  }

  predicate SignedBy(lib: Library, key: string, signature: string, message: string)
    requires SelfSig.KeyText(key) && SignatureText(signature)
  {
    lib.ed25519(Base64Url.Decode(key).value, message, Base64Url.Decode(signature).value)
  }

  /** The signature verifies under the requester's key, or under the owner's. */
  predicate HalfSigned(lib: Library, pair: Pair, signature: string, message: string) {
    pair.sigAlg == "ed25519" && SignatureText(signature) && SelfSig.KeyText(pair.requesterPubkey) &&
    (SignedBy(lib, pair.requesterPubkey, signature, message) ||
     (SelfSig.KeyText(pair.ownerPubkey) && SignedBy(lib, pair.ownerPubkey, signature, message)))
  }

  /** The pair's own data stand in the way: another algorithm, or a stored key that
      has to be tried and is none. */
  predicate PairUnusable(lib: Library, pair: Pair, signature: string, message: string) {
    pair.sigAlg != "ed25519" ||
    (SignatureText(signature) &&
     (!SelfSig.KeyText(pair.requesterPubkey) ||
      (!SignedBy(lib, pair.requesterPubkey, signature, message) && !SelfSig.KeyText(pair.ownerPubkey))))
  }

  /** The verifier names a half exactly when that half's key verifies the signature
      over the text, the requester's first. */
  lemma IdentifyExactly(lib: Library, pair: Pair, signature: string, message: string)
    ensures Identify(lib, pair, signature, message).Known? <==> HalfSigned(lib, pair, signature, message)
    ensures Identify(lib, pair, signature, message) == Broken <==> PairUnusable(lib, pair, signature, message)
    ensures HalfSigned(lib, pair, signature, message) ==>
              Identify(lib, pair, signature, message) ==
              Known(if SignedBy(lib, pair.requesterPubkey, signature, message) then pair.requesterPubkey else pair.ownerPubkey)
  {
  }

  /** The replay window in plain arithmetic: five minutes either way, or 2^63
      nanoseconds and more ahead. */
  predicate Fresh(lib: Library, ts: string, now: int) {
    lib.parseTime(ts).Some? &&
    var t := lib.parseTime(ts).value;
    -300_000_000_000 <= now - t <= 300_000_000_000 || t - now >= 0x8000_0000_0000_0000
  }

  /** All that PUT asks of an envelope on its own, in no order; the hash is read,
      two hexadecimal digits at a time. */
  predicate EnvelopeFits(lib: Library, pathId: string, e: Envelope, now: int) {
    ValidSchema(e) && e.pathId == pathId && Uuid.Uuidv7(e.msgId) && Fresh(lib, e.ts, now) &&
    Base64Url.Decode(e.ciphertext).Some? &&
    SpellsOctets(e.ciphertextSha256, lib.sha256(Base64Url.Decode(e.ciphertext).value))
  }

  /** All that PUT asks of a request, in no order. */
  predicate Acceptable(lib: Library, pairs: Pairs, pathId: string, body: Body, signature: string, now: int) {
    pathId in pairs && body.decoded.Some? &&
    EnvelopeFits(lib, pathId, body.decoded.value, now) &&
    HalfSigned(lib, pairs[pathId], signature, Canonical(body.decoded.value))
  }

  lemma FreshExactly(lib: Library, ts: string, now: int)
    ensures TsInWindow(lib, ts, now) <==> Fresh(lib, ts, now)
  {
    if lib.parseTime(ts).Some? {
      WindowExactly(now, lib.parseTime(ts).value);
    }
  }

  lemma EnvelopeChecksExactly(lib: Library, pathId: string, e: Envelope, now: int)
    ensures EnvelopeProblem(lib, pathId, e, now).None? <==> EnvelopeFits(lib, pathId, e, now)
  {
    FreshExactly(lib, e.ts, now);
    if Base64Url.Decode(e.ciphertext).Some? {
      HexTextExactly(e.ciphertextSha256, lib.sha256(Base64Url.Decode(e.ciphertext).value));
    }
  }

  lemma SenderChecksExactly(lib: Library, pair: Pair, signature: string, message: string)
    ensures SenderProblem(pair, Identify(lib, pair, signature, message)).None? <==> HalfSigned(lib, pair, signature, message)
  {
    IdentifyExactly(lib, pair, signature, message);
    if Identify(lib, pair, signature, message).Known? {
      KnownCallerHasDirections(lib, pair, signature, message);
    }
  }

  lemma ChecksExactly(lib: Library, pairs: Pairs, pathId: string, body: Body, signature: string, now: int)
    ensures PutProblem(lib, pairs, pathId, body, signature, now).None? <==>
            Acceptable(lib, pairs, pathId, body, signature, now)
  {
    if pathId in pairs && body.decoded.Some? {
      EnvelopeChecksExactly(lib, pathId, body.decoded.value, now);
      SenderChecksExactly(lib, pairs[pathId], signature, Canonical(body.decoded.value));
    }
  }

  /** A PUT is accepted exactly when it is acceptable and its id is not in use. */
  lemma PutAcceptsExactly(lib: Library, envs: Envelopes, pairs: Pairs, pathId: string, body: Body, signature: string,
                          now: int, received: int)
    ensures PutStep(lib, envs, pairs, pathId, body, signature, now, received).1.Accepted? <==>
            Acceptable(lib, pairs, pathId, body, signature, now) && body.decoded.value.msgId !in envs
  {
    ChecksExactly(lib, pairs, pathId, body, signature, now);
    ProblemRefuses(lib, pairs, pathId, body, signature, now);
    if PutProblem(lib, pairs, pathId, body, signature, now).None? {
      FreshIdAccepted(envs, PutRow(lib, pairs, pathId, body, signature, now, received));
    }
  }

  lemma ProblemRefuses(lib: Library, pairs: Pairs, pathId: string, body: Body, signature: string, now: int)
    ensures var problem := PutProblem(lib, pairs, pathId, body, signature, now);
            problem.Some? ==> problem.value.Refusal?
  {
  }

  lemma FreshIdAccepted(envs: Envelopes, row: Row)
    ensures InsertStep(envs, row).1.Accepted? <==> row.msgId !in envs
  {
  }
}
