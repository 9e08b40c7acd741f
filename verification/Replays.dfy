/** Runs that accept one envelope twice without an ack, and with them the exact
    conditions under which the relay keeps its at-most-once promise. */
module Replays {
  import opened Lex
  import opened Foreign
  import opened CanonicalJson
  import opened Hex
  import opened Storage
  import opened Mailbox
  import opened MailboxRuns
  import Base64Url
  import PathId
  import Uuid
  import Times

  function Zeros(n: nat): (z: seq<Octet>)
    ensures |z| == n
  {
    seq(n, _ => 0)
  }

  /** A timestamp of the layout that senders use. */
  const STAMP_TEXT: string := "2026-01-01T00:00:00Z"

  /** A library under which two keys sign everything, each with a signature of its
      own, and whose time parser reads that one text, as time t. */
  function Lenient(t: int): Library {
    Library(m => Zeros(32),
            (key, message, signature) => (key == Zeros(32) && signature == Zeros(64)) ||
                                         (key == [1] + Zeros(31) && signature == [1] + Zeros(63)),
            text => if text == STAMP_TEXT then Some(t) else None)
  }

  /** What a lemma may expect of a library: digests of 32 bytes, and times read off
      timestamps only. */
  ghost predicate Plausible(lib: Library) {
    PathId.Digests32(lib.sha256) && ReadsTimestamps(lib)
  }

  lemma StampTextIsTimestamp()
    ensures TimestampText(STAMP_TEXT)
  {
  }

  lemma LenientIsPlausible(t: int)
    ensures Plausible(Lenient(t))
  {
    StampTextIsTimestamp();
  }

  /** 00000000-0000-7000-8000-000000000000. */
  function MessageId(): string {
    seq(36, i => if i == 8 || i == 13 || i == 18 || i == 23 then '-'
                 else if i == 14 then '7' else if i == 19 then '8' else '0')
  }

  function ThePath(): string {
    "nxc_" + Base64Url.EncodeRaw(Zeros(32))
  }

  function PairAt(path: string): Pair {
    Pair(path, "r", Base64Url.EncodeRaw(Zeros(32)), "o", Base64Url.EncodeRaw([1] + Zeros(31)), "ed25519", "P-256", 0)
  }

  function BodyAt(path: string): Body {
    BodyFor(path, MessageId())
  }

  function BodyFor(path: string, id: string): Body {
    Body("", Some(Envelope("1", id, STAMP_TEXT, path, HexText(Zeros(32)), Base64Url.EncodeRaw([0]))))
  }

  function TheSignature(): string {
    Base64Url.EncodeRaw(Zeros(64))
  }

  function TheStamp(): Stamp {
    Stamp(MessageId(), STAMP_TEXT)
  }

  lemma MessageIdIsUuid()
    ensures Uuid.Uuidv7(MessageId())
  {
  }

  lemma {:induction false} HexTextSize(bytes: seq<Octet>)
    ensures |HexText(bytes)| == 2 * |bytes|
  {
    if bytes != [] {
      HexTextSize(bytes[1..]);
    }
  }

  lemma KeysDecode()
    ensures Base64Url.Decode(Base64Url.EncodeRaw(Zeros(32))) == Some(Zeros(32))
    ensures Base64Url.Decode(TheSignature()) == Some(Zeros(64)) && TheSignature() != ""
    ensures Base64Url.Decode(Base64Url.EncodeRaw([0])).Some? && Base64Url.EncodeRaw([0]) != ""
    ensures HexText(Zeros(32)) != ""
  {
    Base64Url.RoundTrip(Zeros(32));
    Base64Url.RoundTrip(Zeros(64));
    Base64Url.RoundTrip([0]);
    Base64Url.EncodeRawShape(Zeros(64));
    Base64Url.EncodeRawShape([0]);
    HexTextSize(Zeros(32));
  }

  lemma EnvelopePasses(t: int, now: int, path: string, id: string)
    requires InWindow(now, t) && path != "" && Uuid.Uuidv7(id)
    ensures EnvelopeProblem(Lenient(t), path, BodyFor(path, id).decoded.value, now).None?
  {
    KeysDecode();
  }

  lemma BodyPasses(t: int, now: int, path: string, id: string, pairs: Pairs)
    requires path in pairs && pairs[path] == PairAt(path) && InWindow(now, t) && path != "" && Uuid.Uuidv7(id)
    ensures PutProblem(Lenient(t), pairs, path, BodyFor(path, id), TheSignature(), now).None?
  {
    EnvelopePasses(t, now, path, id);
    Signed(t, path, Canonical(BodyFor(path, id).decoded.value));
  }

  lemma Signed(t: int, path: string, text: string)
    ensures Identify(Lenient(t), PairAt(path), TheSignature(), text) == Known(PairAt(path).requesterPubkey)
  {
    KeysDecode();
  }

  ghost predicate Reaches(lib: Library, maxAge: int, gap: nat, clock: int, s: Relay) {
    exists evs: seq<Event> :: LegalRun(lib, maxAge, gap, Empty(clock), evs) && Run(lib, maxAge, Empty(clock), evs) == s
  }

  lemma OneMore(lib: Library, maxAge: int, gap: nat, clock: int, s: Relay, ev: Event)
    requires Reaches(lib, maxAge, gap, clock, s) && Legal(gap, s, ev)
    ensures Reaches(lib, maxAge, gap, clock, Step(lib, maxAge, s, ev))
  {
    var evs :| LegalRun(lib, maxAge, gap, Empty(clock), evs) && Run(lib, maxAge, Empty(clock), evs) == s;
    Unroll(lib, maxAge, gap, Empty(clock), evs, ev);
  }

  lemma Unroll(lib: Library, maxAge: int, gap: nat, s: Relay, evs: seq<Event>, ev: Event)
    ensures Run(lib, maxAge, s, evs + [ev]) == Step(lib, maxAge, Run(lib, maxAge, s, evs), ev)
    ensures LegalRun(lib, maxAge, gap, s, evs + [ev]) <==>
            LegalRun(lib, maxAge, gap, s, evs) && Legal(gap, Run(lib, maxAge, s, evs), ev)
  {
    assert (evs + [ev])[..|evs|] == evs;
  }

  /** A new pair. */
  lemma ReachPair(lib: Library, maxAge: int, gap: nat, clock: int, s: Relay, pair: Pair) returns (t: Relay)
    requires Reaches(lib, maxAge, gap, clock, s) && pair.pathId !in s.pairs
    ensures Reaches(lib, maxAge, gap, clock, t) && t == s.(pairs := s.pairs[pair.pathId := pair])
  {
    OneMore(lib, maxAge, gap, clock, s, PairEvent(pair));
    t := Step(lib, maxAge, s, PairEvent(pair));
  }

  lemma ReachEmpty(lib: Library, maxAge: int, gap: nat, clock: int)
    ensures Reaches(lib, maxAge, gap, clock, Empty(clock))
  {
    assert Run(lib, maxAge, Empty(clock), []) == Empty(clock) && LegalRun(lib, maxAge, gap, Empty(clock), []);
  }

  /** The row that this PUT stores when it inserts at once. */
  function StoredRow(lib: Library, pairs: Pairs, pathId: string, body: Body, signature: string, now: int): Row
    requires PutProblem(lib, pairs, pathId, body, signature, now).None?
  {
    PutRow(lib, pairs, pathId, body, signature, now, now)
  }

  /** A PUT that passes its checks takes off. */
  lemma ReachFlight(lib: Library, maxAge: int, gap: nat, clock: int, s: Relay, pathId: string, body: Body, signature: string,
                    now: int) returns (t: Relay)
    requires Reaches(lib, maxAge, gap, clock, s) && s.clock <= now && s.flight == map[]
    requires PutProblem(lib, s.pairs, pathId, body, signature, now).None?
    ensures Reaches(lib, maxAge, gap, clock, t)
    ensures t == s.(clock := now, flight := map[0 := Flight(StoredRow(lib, s.pairs, pathId, body, signature, now), body, now)])
  {
    OneMore(lib, maxAge, gap, clock, s, CheckEvent(0, pathId, body, signature, now));
    t := Step(lib, maxAge, s, CheckEvent(0, pathId, body, signature, now));
  }

  /** ... and lands. */
  lemma ReachLanded(lib: Library, maxAge: int, gap: nat, clock: int, s: Relay, f: Flight, at: int) returns (t: Relay)
    requires Reaches(lib, maxAge, gap, clock, s) && s.flight == map[0 := f] && s.clock <= at && f.now <= at <= f.now + gap
    requires f.row.msgId !in s.envs && f.body.decoded.Some? && f.row.msgId == f.body.decoded.value.msgId
    ensures Reaches(lib, maxAge, gap, clock, t)
    ensures t == s.(envs := s.envs[f.row.msgId := RowAt(f, at)], clock := at, flight := map[],
                    accepted := s.accepted + multiset{Stamp(f.row.msgId, f.body.decoded.value.ts)})
  {
    OneMore(lib, maxAge, gap, clock, s, InsertEvent(0, at, at));
    t := Step(lib, maxAge, s, InsertEvent(0, at, at));
    assert s.flight - {0} == map[];
  }

  /** A PUT that nobody interrupts. */
  lemma ReachPut(lib: Library, maxAge: int, gap: nat, clock: int, s: Relay, pathId: string, body: Body, signature: string,
                 now: int) returns (t: Relay)
    requires Reaches(lib, maxAge, gap, clock, s) && s.clock <= now && s.flight == map[]
    requires PutProblem(lib, s.pairs, pathId, body, signature, now).None?
    requires body.decoded.Some? && body.decoded.value.msgId !in s.envs
    ensures Reaches(lib, maxAge, gap, clock, t)
    ensures var row := StoredRow(lib, s.pairs, pathId, body, signature, now);
            row.msgId == body.decoded.value.msgId && row.pathId == pathId && row.receivedAt == Second(now) &&
            t == s.(envs := s.envs[row.msgId := row], clock := now,
                    accepted := s.accepted + multiset{Stamp(row.msgId, body.decoded.value.ts)})
  {
    RowIsBody(lib, s.pairs, pathId, body, signature, now, now);
    var f := Flight(StoredRow(lib, s.pairs, pathId, body, signature, now), body, now);
    t := ReachFlight(lib, maxAge, gap, clock, s, pathId, body, signature, now);
    t := ReachLanded(lib, maxAge, gap, clock, t, f, now);
    SameRow(lib, s.pairs, pathId, body, signature, now, now);
  }

  lemma ReachSweep(lib: Library, maxAge: int, gap: nat, clock: int, s: Relay, now: int, m: string) returns (t: Relay)
    requires Reaches(lib, maxAge, gap, clock, s) && s.clock <= now
    requires m in s.envs && s.envs[m].receivedAt < Second(now - maxAge)
    ensures Reaches(lib, maxAge, gap, clock, t) && t.pairs == s.pairs && t.clock == now && t.flight == s.flight &&
            t.acked == s.acked && t.accepted == s.accepted && m !in t.envs
  {
    OneMore(lib, maxAge, gap, clock, s, SweepEvent(now, now));
    t := Step(lib, maxAge, s, SweepEvent(now, now));
  }

  /** Accepted, checked again, swept while the second PUT is in flight, and accepted
      again. */
  lemma Replay(lib: Library, maxAge: int, gap: nat, clock: int, pair: Pair, body: Body, signature: string,
               first: int, check: int, sweep: int)
    requires clock <= first <= check <= sweep <= check + gap && Second(first) < Second(sweep - maxAge)
    requires var pairs := map[pair.pathId := pair];
             PutProblem(lib, pairs, pair.pathId, body, signature, first).None? &&
             PutProblem(lib, pairs, pair.pathId, body, signature, check).None?
    requires body.decoded.Some?
    ensures !AtMostOnce(lib, maxAge, gap, clock, Stamp(body.decoded.value.msgId, body.decoded.value.ts))
  {
    var k := Stamp(body.decoded.value.msgId, body.decoded.value.ts);
    ReachEmpty(lib, maxAge, gap, clock);
    var s1 := ReachPair(lib, maxAge, gap, clock, Empty(clock), pair);
    assert s1.pairs == map[pair.pathId := pair];
    var s2 := ReachPut(lib, maxAge, gap, clock, s1, pair.pathId, body, signature, first);
    var s3 := ReachFlight(lib, maxAge, gap, clock, s2, pair.pathId, body, signature, check);
    RowIsBody(lib, s2.pairs, pair.pathId, body, signature, check, check);
    var f := Flight(StoredRow(lib, s2.pairs, pair.pathId, body, signature, check), body, check);
    var s4 := ReachSweep(lib, maxAge, gap, clock, s3, sweep, k.msgId);
    var s5 := ReachLanded(lib, maxAge, gap, clock, s4, f, sweep);
    Twice(lib, maxAge, gap, clock, s5, k);
  }

  lemma Twice(lib: Library, maxAge: int, gap: nat, clock: int, s: Relay, k: Stamp)
    requires Reaches(lib, maxAge, gap, clock, s) && s.acked == multiset{} && s.accepted[k] >= 2
    ensures !AtMostOnce(lib, maxAge, gap, clock, k)
  {
  }

  lemma LenientReplay(maxAge: int, gap: nat, clock: int, t: int, first: int, check: int, sweep: int)
    requires clock <= first <= check <= sweep <= check + gap && Second(first) < Second(sweep - maxAge)
    requires InWindow(first, t) && InWindow(check, t)
    ensures !AtMostOnce(Lenient(t), maxAge, gap, clock, TheStamp())
  {
    var pairs := map[ThePath() := PairAt(ThePath())];
    PathsApart();
    MessageIdIsUuid();
    BodyPasses(t, first, ThePath(), MessageId(), pairs);
    BodyPasses(t, check, ThePath(), MessageId(), pairs);
    Replay(Lenient(t), maxAge, gap, clock, PairAt(ThePath()), BodyAt(ThePath()), TheSignature(), first, check, sweep);
  }

  /** The promise holds, under every plausible library and for every envelope dated
      less than 2^63 nanoseconds after the relay's start, exactly when retention
      lasts two replay windows and the longest time from check to insert. */
  lemma RetentionExactly(maxAge: int, gap: nat, clock: int)
    ensures (forall lib: Library, k: Stamp, t: int ::
               Plausible(lib) && lib.parseTime(k.ts) == Some(t) && t - clock < -MIN_INT64 ==>
                 AtMostOnce(lib, maxAge, gap, clock, k)) <==>
            maxAge >= 2 * REPLAY_WINDOW + gap
  {
    if maxAge >= 2 * REPLAY_WINDOW + gap {
      forall lib: Library, k: Stamp, t: int |
        Plausible(lib) && lib.parseTime(k.ts) == Some(t) && t - clock < -MIN_INT64
        ensures AtMostOnce(lib, maxAge, gap, clock, k)
      {
        AcceptedAtMostOnce(lib, maxAge, gap, clock, k, t);
      }
    } else {
      var t := ShortRetentionReplays(maxAge, gap, clock);
      LenientIsPlausible(t);
      assert Lenient(t).parseTime(TheStamp().ts) == Some(t);
    }
  }

  /** Accepted in the last nanosecond of a second, dated five minutes ahead, checked
      again as late as the window allows, and swept before that PUT inserts. */
  lemma ShortRetentionReplays(maxAge: int, gap: nat, clock: int) returns (t: int)
    requires maxAge < 2 * REPLAY_WINDOW + gap
    ensures t - clock < -MIN_INT64 && !AtMostOnce(Lenient(t), maxAge, gap, clock, TheStamp())
  {
    var age := if maxAge < 0 then 0 else maxAge;
    var first := Second(clock) * Times.NANOS + Times.NANOS - 1;
    t := first + REPLAY_WINDOW;
    var sweep := first + age + 1;
    var check := if sweep <= t + REPLAY_WINDOW then sweep else t + REPLAY_WINDOW;
    WindowExactly(first, t);
    WindowExactly(check, t);
    NextSecond(first, sweep - maxAge);
    LenientReplay(maxAge, gap, clock, t, first, check, sweep);
  }

  lemma NextSecond(last: int, later: int)
    requires last % Times.NANOS == Times.NANOS - 1 && last < later
    ensures Second(last) < Second(later)
  {
  }

  /** With retention long enough, the promise holds for envelopes dated t exactly
      when t is less than 2^63 nanoseconds after the relay's start: beyond that
      the saturated difference passes the window check too early. */
  lemma FarTimestampsExactly(maxAge: int, gap: nat, clock: int, t: int)
    requires 2 * REPLAY_WINDOW + gap <= maxAge <= MAX_INT64
    ensures (forall lib: Library, k: Stamp ::
               Plausible(lib) && lib.parseTime(k.ts) == Some(t) ==> AtMostOnce(lib, maxAge, gap, clock, k)) <==>
            t - clock < -MIN_INT64
  {
    if t - clock < -MIN_INT64 {
      forall lib: Library, k: Stamp | Plausible(lib) && lib.parseTime(k.ts) == Some(t)
        ensures AtMostOnce(lib, maxAge, gap, clock, k)
      {
        AcceptedAtMostOnce(lib, maxAge, gap, clock, k, t);
      }
    } else {
      var late := t + REPLAY_WINDOW;
      WindowExactly(clock, t);
      WindowExactly(late, t);
      assert Second(clock) < Second(late - maxAge);
      LenientReplay(maxAge, gap, clock, t, clock, late, late);
      LenientIsPlausible(t);
      assert Lenient(t).parseTime(TheStamp().ts) == Some(t);
    }
  }

  /** A timestamp that stays 2^63 nanoseconds ahead needs one sweep only: accepted,
      swept a second past its retention, and accepted again at that instant. */
  lemma FarTimestampReplaysAtOnce(maxAge: int, gap: nat, clock: int, t: int)
    requires maxAge >= 0 && t - clock >= -MIN_INT64 + maxAge + Times.NANOS
    ensures Plausible(Lenient(t)) && !AtMostOnce(Lenient(t), maxAge, gap, clock, TheStamp())
    ensures InWindow(clock + maxAge + Times.NANOS, t)
  {
    var again := clock + maxAge + Times.NANOS;
    WindowExactly(clock, t);
    WindowExactly(again, t);
    LenientReplay(maxAge, gap, clock, t, clock, again, again);
    LenientIsPlausible(t);
  }

  // ---- One id under two paths ----

  function OtherPath(): string {
    "nxc_" + Base64Url.EncodeRaw([1] + Zeros(31))
  }

  lemma PathsApart()
    ensures ThePath() != OtherPath() && ThePath() != "" && OtherPath() != ""
  {
    Base64Url.RoundTrip(Zeros(32));
    Base64Url.RoundTrip([1] + Zeros(31));
    assert ThePath()[4..] == Base64Url.EncodeRaw(Zeros(32)) && OtherPath()[4..] == Base64Url.EncodeRaw([1] + Zeros(31));
    assert Zeros(32)[0] != ([1] + Zeros(31))[0];
  }

  /** A PUT that passes every check and is answered 409 although its pair stores
      nothing: the id is in use under another path. */
  ghost predicate RefusedForOtherPath(lib: Library, s: Relay, path: string, body: Body, signature: string, now: int) {
    PutProblem(lib, s.pairs, path, body, signature, now).None? &&
    PutStep(lib, s.envs, s.pairs, path, body, signature, now, now).1 == Refusal(409, DuplicateMsgId) &&
    forall m :: m in s.envs ==> s.envs[m].pathId != path
  }

  /** Two pairs, and one message id sent to both. */
  lemma OtherPathCanRefuse(maxAge: int, gap: nat, clock: int)
    ensures Plausible(Lenient(clock))
    ensures exists s :: Reaches(Lenient(clock), maxAge, gap, clock, s) &&
                        RefusedForOtherPath(Lenient(clock), s, OtherPath(), BodyAt(OtherPath()), TheSignature(), clock)
  {
    var lib := Lenient(clock);
    LenientIsPlausible(clock);
    PathsApart();
    MessageIdIsUuid();
    WindowExactly(clock, clock);
    ReachEmpty(lib, maxAge, gap, clock);
    var s1 := ReachPair(lib, maxAge, gap, clock, Empty(clock), PairAt(ThePath()));
    var s2 := ReachPair(lib, maxAge, gap, clock, s1, PairAt(OtherPath()));
    BodyPasses(clock, clock, ThePath(), MessageId(), s2.pairs);
    BodyPasses(clock, clock, OtherPath(), MessageId(), s2.pairs);
    var t := RefuseFrom(lib, maxAge, gap, clock, s2, ThePath(), OtherPath(), BodyAt(ThePath()), BodyAt(OtherPath()), TheSignature());
  }

  /** The same id sent under one path and then under another. */
  lemma RefuseFrom(lib: Library, maxAge: int, gap: nat, clock: int, s: Relay, path: string, other: string, body: Body,
                   second: Body, signature: string) returns (t: Relay)
    requires Reaches(lib, maxAge, gap, clock, s) && s.envs == map[] && s.flight == map[] && s.clock == clock && path != other
    requires PutProblem(lib, s.pairs, path, body, signature, clock).None? && body.decoded.Some?
    requires PutProblem(lib, s.pairs, other, second, signature, clock).None? && second.decoded.Some?
    requires body.decoded.value.msgId == second.decoded.value.msgId
    ensures Reaches(lib, maxAge, gap, clock, t) && RefusedForOtherPath(lib, t, other, second, signature, clock)
  {
    t := ReachPut(lib, maxAge, gap, clock, s, path, body, signature, clock);
    KnownIdRefused(lib, t, other, second, signature, clock);
  }

  lemma KnownIdRefused(lib: Library, s: Relay, path: string, body: Body, signature: string, now: int)
    requires PutProblem(lib, s.pairs, path, body, signature, now).None? && body.decoded.Some?
    requires body.decoded.value.msgId in s.envs && forall m :: m in s.envs ==> s.envs[m].pathId != path
    ensures RefusedForOtherPath(lib, s, path, body, signature, now)
  {
  }
}
