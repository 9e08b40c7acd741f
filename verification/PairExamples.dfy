/** Concrete runs of the pair flow from empty tables that end where no atomic
    handler, or no reader of the documentation, would expect. */
module PairExamples {
  import opened Lex
  import opened Foreign
  import opened SelfSig
  import opened Storage
  import opened PairFlow
  import PairRuns
  import opened PairRaces
  import opened PairSchedules
  import Base64Url
  import Inboxes
  import Mailbox
  import PathId
  import Replays
  import Uuid

  /** A library that accepts every signature, reads one timestamp, and whose digest
      of two joined keys is the larger of them. */
  function Open(): Library {
    Library(m => if |m| >= 32 then m[|m| - 32..] else Replays.Zeros(32), (key, message, signature) => true,
            text => if text == Replays.STAMP_TEXT then Some(0) else None)
  }

  lemma OpenIsPlausible()
    ensures Replays.Plausible(Open())
  {
    Replays.StampTextIsTimestamp();
  }

  function KeyOf(b: Octet): (key: seq<Octet>)
    ensures |key| == 32 && key[0] == b
  {
    [b] + Replays.Zeros(31)
  }

  function HalfOf(b: Octet): Half {
    Half("n", "ed25519", Base64Url.EncodeRaw(KeyOf(b)), "", "", "", "n", Replays.STAMP_TEXT, Replays.TheSignature())
  }

  lemma HalfChecks(b: Octet)
    ensures ParseHalf(HalfOf(b)) == Parsed(KeyOf(b)) && VerifySelfSig(Open(), HalfOf(b), KeyOf(b))
    ensures RawKey(HalfOf(b)) == KeyOf(b)
  {
    Base64Url.RoundTrip(KeyOf(b));
    Base64Url.EncodeRawShape(KeyOf(b));
    Replays.KeysDecode();
  }

  /** What a body with nothing but an owner member reads as. */
  const BLANK: Half := Half("", "", "", "", "", "", "", "", "")

  function PathOf(b: Octet): string {
    PathId.ComputePathId(Open().sha256, KeyOf(0), KeyOf(b))
  }

  lemma PathsDiffer()
    ensures PathOf(1) != PathOf(2)
  {
    PathId.AddressesKeys(Open().sha256, KeyOf(0), KeyOf(1), KeyOf(0), KeyOf(2));
    assert KeyOf(1) !in {KeyOf(0), KeyOf(2)};
    assert forall b: Octet :: b > 0 ==> PathId.Preimage(KeyOf(0), KeyOf(b)) == KeyOf(0) + KeyOf(b);
    assert forall b: Octet :: (KeyOf(0) + KeyOf(b))[32..] == KeyOf(b);
  }

  const SUBMISSION: Submission := Submission("t", HalfOf(0))

  function OtherId(): string {
    Replays.MessageId()[35 := '1']
  }

  lemma IdsAreUuids()
    ensures Uuid.UuidShape(Replays.MessageId()) && Uuid.UuidShape(OtherId()) && Replays.MessageId() != OtherId()
  {
    Replays.MessageIdIsUuid();
    assert Replays.MessageId()[35] == '0' && OtherId()[35] == '1';
  }

  function TheRequest(id: string): PairRequest {
    NewRequest(id, SUBMISSION, 0)
  }

  /** The reading of an approval with this owner half and nothing else in its body. */
  function Ahead(owner: Half): Reading {
    Proceed(HalfOf(0), owner, OwnerBody(owner, Some(BLANK)), PathId.ComputePathId(Open().sha256, KeyOf(0), RawKey(owner)))
  }

  function TheApproval(owner: Half): Option<Approval> {
    Some(Approval(owner, Some(BLANK)))
  }

  lemma StampIsFresh()
    ensures Mailbox.TsInWindow(Open(), Replays.STAMP_TEXT, 0)
  {
    Mailbox.WindowExactly(0, 0);
  }

  /** An owner half that the schema and the library accept goes ahead. */
  lemma OwnerProceeds(lib: Library, requester: Half, owner: Half)
    requires requester.sigAlg == "ed25519" && SelfChecked(lib, owner) && Mailbox.TsInWindow(lib, owner.ts, 0)
    ensures CheckOwner(lib, requester, Approval(owner, Some(BLANK)), 0) ==
            Proceed(requester, owner, OwnerBody(owner, Some(BLANK)),
                    PathId.ComputePathId(lib.sha256, RawKey(requester), RawKey(owner)))
  {
    PairRuns.OwnerProceedsExactly(lib, requester, Approval(owner, Some(BLANK)), 0);
    PairRuns.OwnerFacts(lib, requester, Approval(owner, Some(BLANK)), 0);
  }

  lemma OwnerChecks(rs: Requests, id: string, owner: Half)
    requires Uuid.UuidShape(id) && id in rs && rs[id] == TheRequest(id)
    requires SelfChecked(Open(), owner) && owner.ts == Replays.STAMP_TEXT
    ensures ReadRequest(Open(), rs, id, TheApproval(owner), 0) == Ahead(owner)
  {
    HalfChecks(0);
    StampIsFresh();
    OwnerProceeds(Open(), HalfOf(0), owner);
  }

  lemma RequestStaged(rs: Requests, id: string)
    requires id !in rs
    ensures SubmitStep(Open(), rs, Some(SUBMISSION), id, 0, 0).0 == rs[id := TheRequest(id)]
  {
    HalfChecks(0);
    StampIsFresh();
    assert Utf8Size("t") == 1;
  }

  lemma ReachRequest(n: Net, id: string) returns (m: Net)
    requires Reached(Open(), n) && id !in n.rs
    ensures Reached(Open(), m) && m == n.(rs := n.rs[id := TheRequest(id)])
  {
    RequestStaged(n.rs, id);
    m := ReachSubmitted(Open(), n, SUBMISSION, id, n.rs[id := TheRequest(id)]);
  }

  lemma ReachFirst() returns (n: Net)
    ensures Reached(Open(), n) && n == Net(map[Replays.MessageId() := TheRequest(Replays.MessageId())], map[], map[])
  {
    assert Run(Open(), START, []) == START;
    n := ReachRequest(START, Replays.MessageId());
  }

  /** One request, and two owners that have each inserted their pair. */
  lemma ReachBoth() returns (n: Net)
    ensures Reached(Open(), n) && At(n, 1, Inserted) && At(n, 2, Inserted)
    ensures n.rs == map[Replays.MessageId() := TheRequest(Replays.MessageId())]
    ensures n.approvers[1].id == n.approvers[2].id == Replays.MessageId()
    ensures n.approvers[1].reading.pathId == PathOf(1) && n.approvers[2].reading.pathId == PathOf(2) && PathOf(2) in n.ps
  {
    IdsAreUuids();
    var first := ReachFirst();
    HalfChecks(1);
    HalfChecks(2);
    OwnerChecks(first.rs, Replays.MessageId(), HalfOf(1));
    OwnerChecks(first.rs, Replays.MessageId(), HalfOf(2));
    PathsDiffer();
    n := ReachTwo(Open(), first.rs, Replays.MessageId(), TheApproval(HalfOf(1)), TheApproval(HalfOf(2)),
                  Ahead(HalfOf(1)), Ahead(HalfOf(2)));
  }

  lemma NoneApproved(id: string, key: string)
    ensures !ByRequest(map[id := TheRequest(id)], key)
  {
  }

  lemma PairCanBeStranded()
    ensures Replays.Plausible(Open())
    ensures exists n :: Reached(Open(), n) && Stranded(n, 2)
  {
    OpenIsPlausible();
    var n := ReachBoth();
    IdsAreUuids();
    NoneApproved(Replays.MessageId(), PathOf(2));
    var rest := [Deny(Replays.MessageId()), Update(2), Lookup(2)];
    DenyBetweenWrites(Open(), n, 2);
    More(Open(), n, rest);
    AheadStays(Open(), n, rest, 2);
    assert Stranded(Run(Open(), n, rest), 2);
  }

  lemma TwoOwnersCanBothBeTold()
    ensures Replays.Plausible(Open())
    ensures exists n :: Reached(Open(), n) && BothTold(n, 1, 2)
  {
    OpenIsPlausible();
    var n := ReachBoth();
    PathsDiffer();
    NoneApproved(Replays.MessageId(), PathOf(2));
    var m := ToldFrom(Open(), n, 1, 2);
  }

  /** A request approved by its owner. */
  lemma ReachApproved() returns (n: Net)
    ensures Reached(Open(), n) && n.rs.Keys == {Replays.MessageId()} && n.approvers.Keys == {1}
    ensures var r := Ahead(HalfOf(1)); r.pathId in n.ps && SameParties(n.ps[r.pathId], r.requester, r.owner)
  {
    IdsAreUuids();
    HalfChecks(1);
    n := ReachFirst();
    OwnerChecks(n.rs, Replays.MessageId(), HalfOf(1));
    n := ReachInserted(Open(), n, 1, Replays.MessageId(), TheApproval(HalfOf(1)), Ahead(HalfOf(1)));
    n := ReachUpdated(Open(), n, 1);
  }

  /** A first request approved, a second one of the same two parties pending, and
      an approver that has found their pair. */
  lemma ReachSecond() returns (n: Net)
    ensures Reached(Open(), n) && At(n, 2, Matched)
    ensures n.approvers[2].id == OtherId() && n.approvers[2].reading == Ahead(HalfOf(1))
    ensures OtherId() in n.rs && n.rs[OtherId()] == TheRequest(OtherId())
  {
    IdsAreUuids();
    HalfChecks(1);
    n := ReachApproved();
    n := ReachRequest(n, OtherId());
    OwnerChecks(n.rs, OtherId(), HalfOf(1));
    n := ReachMatched(Open(), n, 2, OtherId(), TheApproval(HalfOf(1)), Ahead(HalfOf(1)));
  }

  /** The ignored outcome can be a conflict: told 200 on a denied request. */
  lemma DeniedCanBeTold()
    ensures Replays.Plausible(Open())
    ensures exists n :: Reached(Open(), n) && WronglyTold(n, 2)
  {
    OpenIsPlausible();
    IdsAreUuids();
    var n := ReachSecond();
    var m := DenyAfterMatch(Open(), n, 2);
  }

  /** A second approval of the same two parties polls as an empty half. */
  lemma PollCanShowAnother()
    ensures Replays.Plausible(Open())
    ensures exists n :: Reached(Open(), n) && PollsAnother(n, OtherId(), HalfOf(1), BLANK)
  {
    OpenIsPlausible();
    IdsAreUuids();
    var n := ReachSecond();
    HalfIsNotBlank(1);
    var m := MatchThenPoll(Open(), n, 2, BLANK);
  }

  lemma HalfIsNotBlank(b: Octet)
    ensures HalfOf(b) != BLANK
  {
    assert HalfOf(b).nexusId == "n" && BLANK.nexusId == "";
  }

  // ---- One key under two spellings ----

  function TwinHalf(): Half {
    HalfOf(0).(pubkey := Base64Url.EncodePadded(KeyOf(0)))
  }

  lemma RespelledChecks(h: Half, text: string)
    requires SelfChecked(Open(), h) && KeyText(text) && text != ""
    ensures SelfChecked(Open(), h.(pubkey := text))
  {
  }

  lemma PaddedIsKeyText(key: seq<Octet>)
    requires |key| == 32
    ensures KeyText(Base64Url.EncodePadded(key)) && Base64Url.EncodePadded(key) != ""
  {
    var text := PathId.PaddedText(key);
  }

  lemma TwinChecks()
    ensures SelfChecked(Open(), TwinHalf())
  {
    HalfChecks(0);
    PaddedIsKeyText(KeyOf(0));
    RespelledChecks(HalfOf(0), Base64Url.EncodePadded(KeyOf(0)));
  }

  /** A stored pair with two key texts, and nobody who can read what its requester
      sends. */
  ghost predicate Unread(n: Net, key: string) {
    key in n.ps && n.ps[key].requesterPubkey != n.ps[key].ownerPubkey &&
    !Inboxes.HasReader(n.ps[key], n.ps[key].requesterPubkey)
  }

  /** An approver may write the requester's own key with padding. */
  lemma TwinPairCanBeActivated()
    ensures Replays.Plausible(Open())
    ensures exists n, key :: Reached(Open(), n) && Unread(n, key)
  {
    OpenIsPlausible();
    IdsAreUuids();
    TwinChecks();
    var n := ReachFirst();
    OwnerChecks(n.rs, Replays.MessageId(), TwinHalf());
    n := ReachInserted(Open(), n, 1, Replays.MessageId(), TheApproval(TwinHalf()), Ahead(TwinHalf()));
    var key := Ahead(TwinHalf()).pathId;
    Inboxes.PaddedTwinIsUnread(n.ps[key], KeyOf(0));
    assert Unread(n, key);
  }
}
