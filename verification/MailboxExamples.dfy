/** Concrete runs of the relay: an envelope that a reader's cursor passes by, and an
    ack that its own reader sends in vain. */
module MailboxExamples {
  import opened Lex
  import opened Foreign
  import opened Storage
  import opened Paging
  import opened Mailbox
  import opened Inboxes
  import opened Arrivals
  import opened MailboxRuns
  import opened Replays
  import Base64Url
  import CanonicalJson
  import Hex
  import Uuid
  import Times

  // ---- Message ids in order ----

  /** The message id with number n in its last two digits. */
  function IdNumber(n: nat): string
    requires n < 256
  {
    MessageId()[34 := Hex.HexChar(n / 16)][35 := Hex.HexChar(n % 16)]
  }

  lemma HexCharIsHex(d: nat)
    requires d < 16
    ensures Uuid.IsHex(Hex.HexChar(d)) && Uuid.Digit(Hex.HexChar(d)) == d
  {
  }

  lemma IdNumberIsUuid(n: nat)
    requires n < 256
    ensures Uuid.Uuidv7(IdNumber(n))
  {
    MessageIdIsUuid();
    HexCharIsHex(n / 16);
    HexCharIsHex(n % 16);
  }

  lemma IdNumbersDiffer(n: nat, m: nat)
    requires n < 256 && m < 256 && IdNumber(n) == IdNumber(m)
    ensures n == m
  {
    HexCharIsHex(n / 16);
    HexCharIsHex(n % 16);
    HexCharIsHex(m / 16);
    HexCharIsHex(m % 16);
    assert IdNumber(n)[34] == IdNumber(m)[34] && IdNumber(n)[35] == IdNumber(m)[35];
  }

  lemma LowBeforeHigh()
    ensures StrLess(IdNumber(0), IdNumber(1)) && IdNumber(0) != IdNumber(1)
  {
    var low, high := IdNumber(0), IdNumber(1);
    assert low[35] == '0' && high[35] == '1';
    assert low[..35] == high[..35];
    StrLessAt(low, high, 35);
  }

  // ---- One sender, one inbox ----

  function OwnerSignature(): string {
    Base64Url.EncodeRaw([1] + Zeros(63))
  }

  /** What this sender puts goes to the owner. */
  lemma RowGoesToOwner(t: int, path: string, id: string, pairs: Pairs, now: int)
    requires path in pairs && pairs[path] == PairAt(path) && InWindow(now, t) && path != "" && Uuid.Uuidv7(id)
    ensures PutProblem(Lenient(t), pairs, path, BodyFor(path, id), TheSignature(), now).None?
    ensures StoredRow(Lenient(t), pairs, path, BodyFor(path, id), TheSignature(), now).direction == AToB
  {
    BodyPasses(t, now, path, id, pairs);
    Signed(t, path, CanonicalJson.Canonical(BodyFor(path, id).decoded.value));
    DirectionIsSender(Lenient(t), pairs, path, BodyFor(path, id), TheSignature(), now);
  }

  lemma DirectionIsSender(lib: Library, pairs: Pairs, path: string, body: Body, signature: string, now: int)
    requires PutProblem(lib, pairs, path, body, signature, now).None?
    requires Identify(lib, pairs[path], signature, CanonicalJson.Canonical(body.decoded.value)) == Known(pairs[path].requesterPubkey)
    ensures StoredRow(lib, pairs, path, body, signature, now).direction == AToB
  {
  }

  /** A relay with one pair, whose owner's inbox holds these ids. */
  ghost predicate Holds(s: Relay, path: string, ids: set<string>) {
    s.flight == map[] && s.pairs == map[path := PairAt(path)] && s.envs.Keys == ids &&
    forall m :: m in s.envs ==> s.envs[m].msgId == m && Matches(s.envs[m], path, AToB)
  }

  lemma HeldIsInbox(s: Relay, path: string, ids: set<string>)
    requires Holds(s, path, ids)
    ensures InboxIds(s.envs, path, AToB) == ids
  {
  }

  lemma ReachHeld(maxAge: int, gap: nat, clock: int, t: int) returns (s: Relay)
    ensures Reaches(Lenient(t), maxAge, gap, clock, s) && Holds(s, ThePath(), {}) && s.clock == clock
  {
    ReachEmpty(Lenient(t), maxAge, gap, clock);
    s := ReachPair(Lenient(t), maxAge, gap, clock, Empty(clock), PairAt(ThePath()));
  }

  lemma HoldsOneMore(s: Relay, u: Relay, path: string, ids: set<string>, row: Row)
    requires Holds(s, path, ids) && Matches(row, path, AToB)
    requires u.flight == map[] && u.pairs == s.pairs && u.envs == s.envs[row.msgId := row]
    ensures Holds(u, path, ids + {row.msgId})
  {
  }

  /** One envelope more. */
  lemma ReachOneMore(maxAge: int, gap: nat, clock: int, t: int, s: Relay, ids: set<string>, id: string, now: int) returns (u: Relay)
    requires Reaches(Lenient(t), maxAge, gap, clock, s) && Holds(s, ThePath(), ids) && s.clock <= now
    requires InWindow(now, t) && Uuid.Uuidv7(id) && id !in ids
    ensures Reaches(Lenient(t), maxAge, gap, clock, u) && Holds(u, ThePath(), ids + {id}) && u.clock == now
    ensures id in u.envs && u.envs[id].receivedAt == Second(now) && forall m :: m in ids ==> m in u.envs && u.envs[m] == s.envs[m]
  {
    PathsApart();
    RowGoesToOwner(t, ThePath(), id, s.pairs, now);
    u := ReachRow(Lenient(t), maxAge, gap, clock, s, ThePath(), ids, BodyFor(ThePath(), id), TheSignature(), now);
  }

  lemma ReachRow(lib: Library, maxAge: int, gap: nat, clock: int, s: Relay, path: string, ids: set<string>, body: Body,
                 signature: string, now: int) returns (u: Relay)
    requires Reaches(lib, maxAge, gap, clock, s) && Holds(s, path, ids) && s.clock <= now
    requires PutProblem(lib, s.pairs, path, body, signature, now).None?
    requires StoredRow(lib, s.pairs, path, body, signature, now).direction == AToB
    requires body.decoded.Some? && body.decoded.value.msgId !in ids
    ensures var id := body.decoded.value.msgId;
            Reaches(lib, maxAge, gap, clock, u) && Holds(u, path, ids + {id}) && u.clock == now &&
            id in u.envs && u.envs[id].receivedAt == Second(now) && forall m :: m in ids ==> m in u.envs && u.envs[m] == s.envs[m]
  {
    u := ReachPut(lib, maxAge, gap, clock, s, path, body, signature, now);
    HoldsOneMore(s, u, path, ids, StoredRow(lib, s.pairs, path, body, signature, now));
  }

  // ---- An id below the cursor ----

  /** The owner has read the higher id; the lower one arrived later, is stored, and is
      in no page from that cursor on; a listing from the start is out of arrival
      order. */
  ghost predicate PassedBy(read: Relay, late: Relay, path: string, low: string, high: string) {
    PageIds(read.envs, path, AToB, "") == [high] &&
    low in InboxIds(late.envs, path, AToB) && high in InboxIds(late.envs, path, AToB) &&
    PageIds(late.envs, path, AToB, high) == [] && !IdsFollowArrival(late.envs, path, AToB)
  }

  lemma OnePage(envs: Envelopes, path: string, high: string)
    requires InboxIds(envs, path, AToB) == {high} && high != ""
    ensures PageIds(envs, path, AToB, "") == [high]
  {
    var ids := [high];
    assert StrLess("", high);
    assert Above({high}, StrLess, "") == {high};
    assert AreSmallest(ids, {high}, StrLess, LIST_LIMIT);
    PageMeaning(envs, path, AToB, "", ids);
  }

  lemma NoPage(envs: Envelopes, path: string, low: string, high: string)
    requires InboxIds(envs, path, AToB) == {low, high} && StrLess(low, high)
    ensures PageIds(envs, path, AToB, high) == []
  {
    StrTrichotomy(low, high);
    StrTrichotomy(high, high);
    assert Above({low, high}, StrLess, high) == {};
    assert AreSmallest([], {}, StrLess, LIST_LIMIT);
    PageMeaning(envs, path, AToB, high, []);
  }

  lemma LateIsPassedBy(read: Relay, late: Relay, path: string, low: string, high: string)
    requires Holds(read, path, {high}) && Holds(late, path, {high, low}) && StrLess(low, high) && high != ""
    requires late.envs[low].receivedAt > late.envs[high].receivedAt
    ensures PassedBy(read, late, path, low, high)
  {
    HeldIsInbox(read, path, {high});
    HeldIsInbox(late, path, {high, low});
    OnePage(read.envs, path, high);
    NoPage(late.envs, path, low, high);
  }

  /** Two accepted PUTs, the second under the lower id and one second later. */
  lemma LateArrivalIsMissed(maxAge: int, gap: nat, clock: int)
    ensures Plausible(Lenient(clock))
    ensures exists read, late :: Reaches(Lenient(clock), maxAge, gap, clock, read) && Reaches(Lenient(clock), maxAge, gap, clock, late) &&
                                 PassedBy(read, late, ThePath(), IdNumber(0), IdNumber(1))
  {
    var later := clock + Times.NANOS;
    LenientIsPlausible(clock);
    LowBeforeHigh();
    IdNumberIsUuid(0);
    IdNumberIsUuid(1);
    WindowExactly(clock, clock);
    WindowExactly(later, clock);
    var s := ReachHeld(maxAge, gap, clock, clock);
    var read := ReachOneMore(maxAge, gap, clock, clock, s, {}, IdNumber(1), clock);
    assert {} + {IdNumber(1)} == {IdNumber(1)};
    var late := ReachOneMore(maxAge, gap, clock, clock, read, {IdNumber(1)}, IdNumber(0), later);
    assert {IdNumber(1)} + {IdNumber(0)} == {IdNumber(1), IdNumber(0)};
    LateIsPassedBy(read, late, ThePath(), IdNumber(0), IdNumber(1));
  }

  // ---- An ack beyond the view ----

  function FirstIds(n: nat): set<string>
    requires n <= 256
  {
    set i | 0 <= i < n :: IdNumber(i)
  }

  lemma NextId(n: nat)
    requires n < 256
    ensures IdNumber(n) !in FirstIds(n) && FirstIds(n + 1) == FirstIds(n) + {IdNumber(n)}
  {
    forall i | 0 <= i < n
      ensures IdNumber(i) != IdNumber(n)
    {
      if IdNumber(i) == IdNumber(n) {
        IdNumbersDiffer(i, n);
      }
    }
  }

  lemma {:induction false} ReachMany(maxAge: int, gap: nat, clock: int, n: nat) returns (s: Relay)
    requires n <= 256
    ensures Reaches(Lenient(clock), maxAge, gap, clock, s) && Holds(s, ThePath(), FirstIds(n)) && s.clock == clock
    ensures |FirstIds(n)| == n
  {
    if n == 0 {
      s := ReachHeld(maxAge, gap, clock, clock);
    } else {
      s := ReachMany(maxAge, gap, clock, n - 1);
      NextId(n - 1);
      IdNumberIsUuid(n - 1);
      WindowExactly(clock, clock);
      s := ReachOneMore(maxAge, gap, clock, clock, s, FirstIds(n - 1), IdNumber(n - 1), clock);
    }
  }

  /** The owner, verified, acknowledges a stored id of its own inbox; it is told that
      nothing was evicted, and the row stays. */
  ghost predicate AckedInVain(lib: Library, s: Relay, path: string, m: string, signature: string) {
    CallerProblem(lib, s.pairs, path, signature, AckText(path)).None? &&
    CallerInbox(lib, s.pairs, path, signature, AckText(path)) == Some(AToB) && m in InboxIds(s.envs, path, AToB) &&
    AckStep(lib, s.envs, s.pairs, path, Some([m]), signature) == (s.envs, Evicted(0))
  }

  /** A signature that only the owner's key verifies. */
  lemma SecondKeyNamed(lib: Library, pair: Pair, signature: string, text: string, a: seq<Octet>, b: seq<Octet>, sig: seq<Octet>)
    requires pair.sigAlg == "ed25519" && |a| == |b| == 32 && |sig| == 64 && signature != ""
    requires Base64Url.Decode(pair.requesterPubkey) == Some(a) && Base64Url.Decode(pair.ownerPubkey) == Some(b)
    requires Base64Url.Decode(signature) == Some(sig) && !lib.ed25519(a, text, sig) && lib.ed25519(b, text, sig)
    ensures Identify(lib, pair, signature, text) == Known(pair.ownerPubkey) && pair.ownerPubkey != pair.requesterPubkey
  {
  }

  lemma OwnerTextsDecode()
    ensures Base64Url.Decode(OwnerSignature()) == Some([1] + Zeros(63)) && OwnerSignature() != ""
    ensures Base64Url.Decode(Base64Url.EncodeRaw([1] + Zeros(31))) == Some([1] + Zeros(31))
  {
    Base64Url.RoundTrip([1] + Zeros(31));
    Base64Url.RoundTrip([1] + Zeros(63));
    Base64Url.EncodeRawShape([1] + Zeros(63));
  }

  lemma OnlyOwnerSigns(t: int, text: string)
    ensures !Lenient(t).ed25519(Zeros(32), text, [1] + Zeros(63)) && Lenient(t).ed25519([1] + Zeros(31), text, [1] + Zeros(63))
  {
    var key: seq<Octet>, signature: seq<Octet> := [1] + Zeros(31), [1] + Zeros(63);
    assert signature[0] != Zeros(64)[0] && key[0] != Zeros(32)[0];
  }

  lemma OwnerIsVerified(t: int, path: string, text: string)
    ensures Identify(Lenient(t), PairAt(path), OwnerSignature(), text) == Known(PairAt(path).ownerPubkey)
    ensures PairAt(path).ownerPubkey != PairAt(path).requesterPubkey
  {
    KeysDecode();
    OwnerTextsDecode();
    OnlyOwnerSigns(t, text);
    SecondKeyNamed(Lenient(t), PairAt(path), OwnerSignature(), text, Zeros(32), [1] + Zeros(31), [1] + Zeros(63));
  }

  lemma OwnerReads(t: int, s: Relay, path: string, ids: set<string>)
    requires Holds(s, path, ids)
    ensures CallerProblem(Lenient(t), s.pairs, path, OwnerSignature(), AckText(path)).None?
    ensures CallerInbox(Lenient(t), s.pairs, path, OwnerSignature(), AckText(path)) == Some(AToB)
  {
    OwnerIsVerified(t, path, AckText(path));
  }

  lemma HeldIsWellStored(s: Relay, path: string, n: nat)
    requires n <= 256 && Holds(s, path, FirstIds(n))
    ensures WellStored(s.envs)
  {
    forall m | m in s.envs
      ensures Uuid.Uuidv7(m)
    {
      var i :| 0 <= i < n && m == IdNumber(i);
      IdNumberIsUuid(i);
    }
  }

  /** Of more than fifty ids one has fifty smaller ones. */
  lemma BeyondView(ids: set<string>) returns (m: string)
    requires |ids| > LIST_LIMIT
    ensures m in ids && |Below(ids, StrLess, m)| >= LIST_LIMIT
  {
    TextOrder();
    var small := Smallest(ids, StrLess, LIST_LIMIT);
    SmallestMeaning(ids, StrLess, LIST_LIMIT);
    AscendingSize(small, StrLess);
    var listed := set x | x in small;
    assert listed != ids;
    assert listed <= ids;
    m :| m in ids && m !in small;
    AmongSmallestExactly(ids, StrLess, LIST_LIMIT, m);
  }

  lemma InVain(lib: Library, s: Relay, path: string, ids: set<string>, m: string, signature: string)
    requires Holds(s, path, ids) && WellStored(s.envs) && m in ids && |Below(ids, StrLess, m)| >= LIST_LIMIT
    requires CallerProblem(lib, s.pairs, path, signature, AckText(path)).None?
    requires CallerInbox(lib, s.pairs, path, signature, AckText(path)) == Some(AToB)
    ensures AckedInVain(lib, s, path, m, signature)
  {
    HeldIsInbox(s, path, ids);
    AckOneExactly(lib, s.envs, s.pairs, path, m, signature);
  }

  /** Fifty-one accepted PUTs, and an ack of one of them. */
  lemma AckCanBeInVain(maxAge: int, gap: nat, clock: int)
    ensures Plausible(Lenient(clock))
    ensures exists s, m :: Reaches(Lenient(clock), maxAge, gap, clock, s) &&
                           AckedInVain(Lenient(clock), s, ThePath(), m, OwnerSignature())
  {
    LenientIsPlausible(clock);
    var s := ReachMany(maxAge, gap, clock, 51);
    var m := BeyondView(FirstIds(51));
    HeldIsWellStored(s, ThePath(), 51);
    OwnerReads(clock, s, ThePath(), FirstIds(51));
    InVain(Lenient(clock), s, ThePath(), FirstIds(51), m, OwnerSignature());
  }
}
