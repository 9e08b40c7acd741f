/** The one envelope table, seen as two inboxes per pair: who can put into,
    read from and take out of each of them, and what a client that pages
    through or drains its inbox is promised. */
module Inboxes {
  import opened Lex
  import opened Foreign
  import opened Storage
  import opened Paging
  import opened Mailbox
  import Base64Url
  import PathId
  import SelfSig
  import Uuid

  /** One inbox: the rows of one path that travel in one direction. */
  function InboxOf(envs: Envelopes, pathId: string, dir: Direction): Envelopes {
    map m | m in envs && Matches(envs[m], pathId, dir) :: envs[m]
  }

  /** Rows as PUT stores them: under their own id, which is a UUIDv7. */
  ghost predicate WellStored(envs: Envelopes) {
    Keyed(envs) && forall m :: m in envs ==> Uuid.Uuidv7(m)
  }

  /** All inboxes but one are the same in both tables. */
  ghost predicate OthersUnchanged(was: Envelopes, envs: Envelopes, pathId: string, dir: Direction) {
    forall p, d :: (p, d) != (pathId, dir) ==> InboxOf(envs, p, d) == InboxOf(was, p, d)
  }

  // ---- PUT ----

  function OtherHalf(pair: Pair, key: string): string {
    if key == pair.requesterPubkey then pair.ownerPubkey else pair.requesterPubkey
  }

  lemma InsertTouchesOneInbox(envs: Envelopes, row: Row)
    requires row.msgId !in envs
    ensures var after := envs[row.msgId := row];
            InboxOf(after, row.pathId, row.direction) == InboxOf(envs, row.pathId, row.direction)[row.msgId := row] &&
            OthersUnchanged(envs, after, row.pathId, row.direction)
  {
    var after := envs[row.msgId := row];
    forall p, d | (p, d) != (row.pathId, row.direction)
      ensures InboxOf(after, p, d) == InboxOf(envs, p, d)
    {
      assert !Matches(row, p, d);
    }
  }

  /** An accepted PUT adds its one row to one inbox and leaves every other inbox
      as it was. */
  lemma PutAddsOneRow(lib: Library, envs: Envelopes, pairs: Pairs, pathId: string, body: Body,
                      signature: string, now: int, received: int)
    requires PutProblem(lib, pairs, pathId, body, signature, now).None?
    requires PutStep(lib, envs, pairs, pathId, body, signature, now, received).1.Accepted?
    ensures var (after, reply) := PutStep(lib, envs, pairs, pathId, body, signature, now, received);
            var row := PutRow(lib, pairs, pathId, body, signature, now, received);
            reply.msgId == row.msgId && row.msgId !in envs &&
            InboxOf(after, pathId, row.direction) == InboxOf(envs, pathId, row.direction)[row.msgId := row] &&
            OthersUnchanged(envs, after, pathId, row.direction)
  {
    InsertTouchesOneInbox(envs, PutRow(lib, pairs, pathId, body, signature, now, received));
  }

  // ---- Who reads what ----

  /** A pair as approval stores it: two key texts that decode to 32 bytes each. */
  predicate KeysUsable(pair: Pair) {
    pair.sigAlg == "ed25519" && SelfSig.KeyText(pair.requesterPubkey) && SelfSig.KeyText(pair.ownerPubkey)
  }

  /** The two texts stand for different keys. */
  predicate KeysDiffer(pair: Pair) {
    Base64Url.Decode(pair.requesterPubkey) != Base64Url.Decode(pair.ownerPubkey)
  }

  /** The verifier can name this caller, under some library, signature and text. */
  ghost predicate CanBeNamed(pair: Pair, key: string) {
    exists lib: Library, signature: string, text: string :: Identify(lib, pair, signature, text) == Known(key)
  }

  /** A library whose signatures all verify under one raw key, and under no other. */
  function OnlyKey(raw: seq<Octet>): Library {
    Library(m => [], (key, text, signature) => key == raw, text => None)
  }

  function SomeSignature(): string {
    Base64Url.EncodeRaw(seq(64, i => 0))
  }

  lemma SomeSignatureDecodes()
    ensures SomeSignature() != "" && Base64Url.Decode(SomeSignature()).Some? && |Base64Url.Decode(SomeSignature()).value| == 64
  {
    var bytes: seq<Octet> := seq(64, i => 0);
    Base64Url.RoundTrip(bytes);
    Base64Url.EncodeRawShape(bytes);
  }

  /** The verifier can name the requester's text, and the owner's when it stands
      for another key, and nothing else. */
  lemma NamedExactly(pair: Pair, key: string)
    requires KeysUsable(pair)
    ensures CanBeNamed(pair, key) <==> key == pair.requesterPubkey || (key == pair.ownerPubkey && KeysDiffer(pair))
  {
    if CanBeNamed(pair, key) {
      var lib: Library, signature: string, text: string :| Identify(lib, pair, signature, text) == Known(key);
      NamedIsHalf(lib, pair, signature, text);
    }
    if key == pair.requesterPubkey || (key == pair.ownerPubkey && KeysDiffer(pair)) {
      NameHalf(pair, key);
    }
  }

  lemma NamedIsHalf(lib: Library, pair: Pair, signature: string, text: string)
    requires KeysUsable(pair) && Identify(lib, pair, signature, text).Known?
    ensures var key := Identify(lib, pair, signature, text).pubkey;
            key == pair.requesterPubkey || (key == pair.ownerPubkey && KeysDiffer(pair))
  {
  }

  lemma NameHalf(pair: Pair, key: string)
    requires KeysUsable(pair) && (key == pair.requesterPubkey || (key == pair.ownerPubkey && KeysDiffer(pair)))
    ensures CanBeNamed(pair, key)
  {
    SomeSignatureDecodes();
    var lib := OnlyKey(Base64Url.Decode(key).value);
    assert Identify(lib, pair, SomeSignature(), "") == Known(key);
  }

  /** When a pair's keys differ, what one half sends is read by the other half, and
      by no other caller that the verifier may name. */
  lemma OnlyOtherHalfReads(pair: Pair, sender: string, reader: string)
    requires KeysUsable(pair) && KeysDiffer(pair) && CanBeNamed(pair, sender)
    ensures CanBeNamed(pair, reader) && ReadDirectionFor(pair, reader) == DirectionFrom(pair, sender) <==>
            reader == OtherHalf(pair, sender)
  {
    NamedExactly(pair, sender);
    NamedExactly(pair, reader);
  }

  /** Some caller that the verifier may name reads what this half sends. */
  ghost predicate HasReader(pair: Pair, sender: string) {
    exists j :: CanBeNamed(pair, j) && ReadDirectionFor(pair, j) == DirectionFrom(pair, sender)
  }

  /** Both halves have a reader exactly when their texts stand for different keys. */
  lemma ExchangeWorksExactly(pair: Pair)
    requires KeysUsable(pair)
    ensures HasReader(pair, pair.requesterPubkey) && HasReader(pair, pair.ownerPubkey) <==> KeysDiffer(pair)
  {
    if KeysDiffer(pair) {
      NamedExactly(pair, pair.requesterPubkey);
      NamedExactly(pair, pair.ownerPubkey);
      OnlyOtherHalfReads(pair, pair.requesterPubkey, pair.ownerPubkey);
      OnlyOtherHalfReads(pair, pair.ownerPubkey, pair.requesterPubkey);
    } else {
      NobodyReadsRequester(pair);
    }
  }

  lemma NobodyReadsRequester(pair: Pair)
    requires KeysUsable(pair) && !KeysDiffer(pair)
    ensures !HasReader(pair, pair.requesterPubkey)
  {
    forall j | CanBeNamed(pair, j)
      ensures ReadDirectionFor(pair, j) != DirectionFrom(pair, pair.requesterPubkey)
    {
      NamedExactly(pair, j);
    }
  }

  /** One key, written without padding by the requester and with padding by the
      owner: the texts differ, and nobody ever reads what the requester sends. */
  lemma PaddedTwinIsUnread(pair: Pair, key: seq<Octet>)
    requires |key| == 32 && pair.sigAlg == "ed25519"
    requires pair.requesterPubkey == Base64Url.EncodeRaw(key) && pair.ownerPubkey == Base64Url.EncodePadded(key)
    ensures KeysUsable(pair) && pair.requesterPubkey != pair.ownerPubkey && !HasReader(pair, pair.requesterPubkey)
    ensures HasReader(pair, pair.ownerPubkey)
  {
    RawDecodes(key);
    var text := PathId.PaddedText(key);
    TwinIsUnread(pair);
  }

  lemma RawDecodes(key: seq<Octet>)
    ensures Base64Url.Decode(Base64Url.EncodeRaw(key)) == Some(key)
  {
    Base64Url.RoundTrip(key);
  }

  lemma TwinIsUnread(pair: Pair)
    requires KeysUsable(pair) && !KeysDiffer(pair) && pair.requesterPubkey != pair.ownerPubkey
    ensures !HasReader(pair, pair.requesterPubkey) && HasReader(pair, pair.ownerPubkey)
  {
    NobodyReadsRequester(pair);
    NamedExactly(pair, pair.requesterPubkey);
    assert CanBeNamed(pair, pair.requesterPubkey) &&
           ReadDirectionFor(pair, pair.requesterPubkey) == DirectionFrom(pair, pair.ownerPubkey);
  }

  // ---- Duplicates ----

  predicate StoredForPair(envs: Envelopes, pathId: string, m: string) {
    m in InboxOf(envs, pathId, AToB) || m in InboxOf(envs, pathId, BToA)
  }

  lemma StoredForPairMeaning(envs: Envelopes, pathId: string, m: string)
    ensures StoredForPair(envs, pathId, m) <==> m in envs && envs[m].pathId == pathId
  {
    if m in envs && envs[m].pathId == pathId {
      assert Matches(envs[m], pathId, envs[m].direction);
      assert envs[m].direction == AToB || envs[m].direction == BToA;
    }
  }

  /** Message ids are unique over all paths. A PUT that passes its checks is
      refused as a duplicate of its own pair's messages, as the storage contract
      says, exactly when its id is not in use under another path. */
  lemma DuplicatesPerPairExactly(lib: Library, envs: Envelopes, pairs: Pairs, pathId: string, body: Body,
                                 signature: string, now: int, received: int)
    requires PutProblem(lib, pairs, pathId, body, signature, now).None?
    ensures var m := body.decoded.value.msgId;
            var reply := PutStep(lib, envs, pairs, pathId, body, signature, now, received).1;
            (reply == Refusal(409, DuplicateMsgId) <==> StoredForPair(envs, pathId, m)) <==>
            !(m in envs && envs[m].pathId != pathId)
  {
    StoredForPairMeaning(envs, pathId, body.decoded.value.msgId);
  }

  // ---- GET ----

  /** A reply shows nothing but the caller's own inbox: tables that agree on it
      give the same reply. */
  lemma GetShowsOwnInbox(lib: Library, envs: Envelopes, others: Envelopes, pairs: Pairs, pathId: string,
                         query: string, since: string, signature: string)
    requires CallerProblem(lib, pairs, pathId, signature, GetText(pathId, query)).None?
    requires var dir := CallerInbox(lib, pairs, pathId, signature, GetText(pathId, query));
             dir.Some? ==> InboxOf(envs, pathId, dir.value) == InboxOf(others, pathId, dir.value)
    ensures GetReply(lib, envs, pairs, pathId, query, since, signature) ==
            GetReply(lib, others, pairs, pathId, query, since, signature)
  {
    var dir := CallerInbox(lib, pairs, pathId, signature, GetText(pathId, query));
    if dir.Some? {
      var inbox := InboxOf(envs, pathId, dir.value);
      InboxRows(envs, pathId, dir.value);
      InboxRows(others, pathId, dir.value);
      assert Page(envs, pathId, dir.value, since) == RowsOf(inbox, PageIds(envs, pathId, dir.value, since));
      assert Page(others, pathId, dir.value, since) == RowsOf(inbox, PageIds(others, pathId, dir.value, since));
    }
  }

  /** The reply to a caller with an inbox: the stored bodies of one page, in order,
      and a cursor that the next GET accepts and continues from. */
  lemma ReplyIsPage(lib: Library, envs: Envelopes, pairs: Pairs, pathId: string, query: string, since: string, signature: string)
    requires WellStored(envs) && CallerProblem(lib, pairs, pathId, signature, GetText(pathId, query)).None?
    requires CallerInbox(lib, pairs, pathId, signature, GetText(pathId, query)).Some?
    requires since == "" || Uuid.Uuidv7(since)
    ensures var page := PageIds(envs, pathId, CallerInbox(lib, pairs, pathId, signature, GetText(pathId, query)).value, since);
            var reply := GetReply(lib, envs, pairs, pathId, query, since, signature);
            reply.Listing? && |reply.envelopes| == |page| &&
            (forall i :: 0 <= i < |page| ==> reply.envelopes[i] == envs[page[i]].outerJson) &&
            reply.cursor == (if page == [] then None else Some(Next(page, since))) &&
            (reply.cursor.Some? ==> Uuid.Uuidv7(reply.cursor.value))
  {
    var dir := CallerInbox(lib, pairs, pathId, signature, GetText(pathId, query)).value;
    PageListing(envs, pathId, dir, since);
  }

  lemma PageListing(envs: Envelopes, pathId: string, dir: Direction, since: string)
    requires WellStored(envs)
    ensures var page := PageIds(envs, pathId, dir, since);
            var reply := ListingOf(Page(envs, pathId, dir, since));
            |reply.envelopes| == |page| && (forall i :: 0 <= i < |page| ==> reply.envelopes[i] == envs[page[i]].outerJson) &&
            reply.cursor == (if page == [] then None else Some(Next(page, since))) &&
            (reply.cursor.Some? ==> Uuid.Uuidv7(reply.cursor.value))
  {
    var page := PageIds(envs, pathId, dir, since);
    var rows := Page(envs, pathId, dir, since);
    if page != [] {
      assert rows[|rows| - 1] == envs[page[|page| - 1]] && page[|page| - 1] in page;
    }
  }

  lemma InboxRows(envs: Envelopes, pathId: string, dir: Direction)
    ensures InboxIds(envs, pathId, dir) == InboxOf(envs, pathId, dir).Keys
    ensures forall m :: m in InboxOf(envs, pathId, dir) ==> InboxOf(envs, pathId, dir)[m] == envs[m]
  {
  }

  // ---- Ack ----

  /** An empty cursor lies below every stored id. */
  lemma FromTheStart(envs: Envelopes, pathId: string, dir: Direction)
    requires WellStored(envs)
    ensures PageIds(envs, pathId, dir, "") == Smallest(InboxIds(envs, pathId, dir), StrLess, LIST_LIMIT)
  {
    var inbox := InboxIds(envs, pathId, dir);
    assert Above(inbox, StrLess, "") == inbox by {
      forall m | m in inbox
        ensures StrLess("", m)
      {
        assert |m| == 36 && Codes(m) != [];
      }
    }
  }

  lemma DeleteRequested(envs: Envelopes, pathId: string, dir: Direction, ids: seq<string>)
    requires WellStored(envs)
    ensures var after := DeleteIds(envs, pathId, Requested(PageIds(envs, pathId, dir, ""), ids));
            InboxIds(after, pathId, dir) == AfterAck(InboxIds(envs, pathId, dir), StrLess, ids, LIST_LIMIT) &&
            OthersUnchanged(envs, after, pathId, dir)
  {
    var listed := PageIds(envs, pathId, dir, "");
    var after := DeleteIds(envs, pathId, Requested(listed, ids));
    FromTheStart(envs, pathId, dir);
    RequestedMeaning(listed, ids);
    forall p, d | (p, d) != (pathId, dir)
      ensures InboxOf(after, p, d) == InboxOf(envs, p, d)
    {
      assert forall m :: m in listed ==> Matches(envs[m], pathId, dir);
    }
  }

  /** Ack evicts exactly the requested ids among the caller's 50 smallest, counts
      them, and touches no other inbox. */
  lemma AckEvictsExactly(lib: Library, envs: Envelopes, pairs: Pairs, pathId: string, ids: Option<seq<string>>,
                         signature: string)
    requires WellStored(envs) && AckStep(lib, envs, pairs, pathId, ids, signature).1.Evicted?
    requires CallerProblem(lib, pairs, pathId, signature, AckText(pathId)).None? && ids.Some?
    requires CallerInbox(lib, pairs, pathId, signature, AckText(pathId)).Some?
    ensures var (after, reply) := AckStep(lib, envs, pairs, pathId, ids, signature);
            var dir := CallerInbox(lib, pairs, pathId, signature, AckText(pathId)).value;
            InboxIds(after, pathId, dir) == AfterAck(InboxIds(envs, pathId, dir), StrLess, ids.value, LIST_LIMIT) &&
            OthersUnchanged(envs, after, pathId, dir) &&
            |after| + reply.count == |envs|
  {
    var dir := CallerInbox(lib, pairs, pathId, signature, AckText(pathId)).value;
    DeleteRequested(envs, pathId, dir, ids.value);
  }

  /** A reader that acknowledges one stored id of its own inbox evicts it exactly when
      fewer than 50 smaller ids are stored there; otherwise the answer is zero and
      nothing changes. */
  lemma AckOneExactly(lib: Library, envs: Envelopes, pairs: Pairs, pathId: string, m: string, signature: string)
    requires WellStored(envs) && CallerProblem(lib, pairs, pathId, signature, AckText(pathId)).None?
    requires var dir := CallerInbox(lib, pairs, pathId, signature, AckText(pathId));
             dir.Some? && m in InboxIds(envs, pathId, dir.value)
    ensures var inbox := InboxIds(envs, pathId, CallerInbox(lib, pairs, pathId, signature, AckText(pathId)).value);
            var (after, reply) := AckStep(lib, envs, pairs, pathId, Some([m]), signature);
            if |Below(inbox, StrLess, m)| < LIST_LIMIT then reply == Evicted(1) && after == envs - {m}
            else reply == Evicted(0) && after == envs
  {
    var dir := CallerInbox(lib, pairs, pathId, signature, AckText(pathId)).value;
    SmallerIds(envs, pathId, dir, m);
    EvictOne(envs, pathId, dir, m);
  }

  lemma SmallerIds(envs: Envelopes, pathId: string, dir: Direction, m: string)
    requires WellStored(envs) && m in InboxIds(envs, pathId, dir)
    ensures m in PageIds(envs, pathId, dir, "") <==> |Below(InboxIds(envs, pathId, dir), StrLess, m)| < LIST_LIMIT
  {
    FromTheStart(envs, pathId, dir);
    TextOrder();
    AmongSmallestExactly(InboxIds(envs, pathId, dir), StrLess, LIST_LIMIT, m);
  }

  lemma EvictOne(envs: Envelopes, pathId: string, dir: Direction, m: string)
    requires m in InboxIds(envs, pathId, dir)
    ensures EvictStep(envs, pathId, dir, [m]) ==
            if m in PageIds(envs, pathId, dir, "") then (envs - {m}, Evicted(1)) else (envs, Evicted(0))
  {
    var requested := Requested(PageIds(envs, pathId, dir, ""), [m]);
    RequestedMeaning(PageIds(envs, pathId, dir, ""), [m]);
    var kept := DeleteIds(envs, pathId, requested);
    if m in PageIds(envs, pathId, dir, "") {
      assert kept == envs - {m};
      assert (envs - {m}).Keys == envs.Keys - {m};
    } else {
      assert kept == envs;
    }
  }

  /** The reader that ack needs is always there once the caller is verified. */
  lemma EvictingCallerReads(lib: Library, envs: Envelopes, pairs: Pairs, pathId: string, ids: Option<seq<string>>,
                            signature: string)
    requires AckStep(lib, envs, pairs, pathId, ids, signature).1.Evicted?
    ensures CallerProblem(lib, pairs, pathId, signature, AckText(pathId)).None? && ids.Some?
    ensures CallerInbox(lib, pairs, pathId, signature, AckText(pathId)).Some?
  {
    if pathId in pairs && Identify(lib, pairs[pathId], signature, AckText(pathId)).Known? {
      KnownCallerHasDirections(lib, pairs[pathId], signature, AckText(pathId));
    }
  }

  /** The retention sweep takes from every inbox the rows received before the
      cutoff's second, and no others. */
  lemma SweepTakesOld(envs: Envelopes, cutoff: int, pathId: string, dir: Direction)
    ensures InboxOf(DeleteOlder(envs, cutoff), pathId, dir) ==
            map m | m in InboxOf(envs, pathId, dir) && envs[m].receivedAt >= Second(cutoff) :: envs[m]
  {
  }

  // ---- Paging and draining over tables ----

  function InboxesAt(tables: seq<Envelopes>, pathId: string, dir: Direction): (s: seq<set<string>>)
    ensures |s| == |tables| && forall i :: 0 <= i < |tables| ==> s[i] == InboxIds(tables[i], pathId, dir)
  {
    seq(|tables|, i requires 0 <= i < |tables| => InboxIds(tables[i], pathId, dir))
  }

  /** A client that follows its cursor while tables[k] is what call k finds. */
  ghost function CursorWalk(tables: seq<Envelopes>, pathId: string, dir: Direction, since: string): (pages: seq<seq<string>>)
    ensures |pages| == |tables|
  {
    if tables == [] then []
    else
      var page := PageIds(tables[0], pathId, dir, since);
      [page] + CursorWalk(tables[1..], pathId, dir, Next(page, since))
  }

  lemma {:induction false} CursorWalkIsPages(tables: seq<Envelopes>, pathId: string, dir: Direction, since: string)
    ensures CursorWalk(tables, pathId, dir, since) == Pages(InboxesAt(tables, pathId, dir), StrLess, since, LIST_LIMIT)
  {
    if tables != [] {
      CursorWalkIsPages(tables[1..], pathId, dir, Next(PageIds(tables[0], pathId, dir, since), since));
      assert InboxesAt(tables, pathId, dir)[1..] == InboxesAt(tables[1..], pathId, dir);
    }
  }

  /** Paging while others write: ids come strictly upwards, so none twice. */
  lemma PagingAscends(tables: seq<Envelopes>, pathId: string, dir: Direction, since: string)
    ensures Ascending(Flat(CursorWalk(tables, pathId, dir, since)), StrLess)
  {
    CursorWalkIsPages(tables, pathId, dir, since);
    TextOrder();
    WalkAscends(InboxesAt(tables, pathId, dir), StrLess, since, LIST_LIMIT);
  }

  /** What a call lists was then stored in this inbox, above the start. */
  lemma PagingIsSound(tables: seq<Envelopes>, pathId: string, dir: Direction, since: string, k: nat, m: string)
    requires k < |tables| && m in CursorWalk(tables, pathId, dir, since)[k]
    ensures m in InboxIds(tables[k], pathId, dir) && StrLess(since, m)
  {
    CursorWalkIsPages(tables, pathId, dir, since);
    TextOrder();
    WalkIsSound(InboxesAt(tables, pathId, dir), StrLess, since, LIST_LIMIT, k, m);
  }

  /** Once a page is short, every id above the start that stayed stored throughout
      has been listed. */
  lemma PagingCompletes(tables: seq<Envelopes>, pathId: string, dir: Direction, since: string, m: string)
    requires tables != [] && StrLess(since, m)
    requires forall k :: 0 <= k < |tables| ==> m in InboxIds(tables[k], pathId, dir)
    requires |CursorWalk(tables, pathId, dir, since)[|tables| - 1]| < LIST_LIMIT
    ensures m in Flat(CursorWalk(tables, pathId, dir, since))
  {
    CursorWalkIsPages(tables, pathId, dir, since);
    TextOrder();
    WalkCompletes(InboxesAt(tables, pathId, dir), StrLess, since, LIST_LIMIT, m);
  }

  /** Following the cursor over an unchanged table until a page is empty. */
  ghost function DrainInbox(envs: Envelopes, pathId: string, dir: Direction, since: string): (seq<string>, nat) {
    TextOrder();
    Drain(InboxIds(envs, pathId, dir), StrLess, since, LIST_LIMIT)
  }

  /** An unchanged inbox of n ids above the start is listed whole, in order, with
      ceil(n / 50) + 1 calls, the last of which finds nothing. */
  lemma UnchangedInboxIsListed(envs: Envelopes, pathId: string, dir: Direction, since: string)
    ensures var above := Above(InboxIds(envs, pathId, dir), StrLess, since);
            var (all, calls) := DrainInbox(envs, pathId, dir, since);
            AreSmallest(all, above, StrLess, |above|) && |all| == |above| &&
            calls == (|above| + 49) / 50 + 1
  {
    TextOrder();
    DrainListsAll(InboxIds(envs, pathId, dir), StrLess, since, LIST_LIMIT);
  }

  /** One turn of the receive loop on the tables: GET finds `before`, other
      requests run, the ack of that page finds `between`. */
  datatype TableTurn = TableTurn(before: Envelopes, between: Envelopes)

  function TurnsOf(turns: seq<TableTurn>, pathId: string, dir: Direction): (s: seq<Turn<string>>)
    ensures |s| == |turns|
    ensures forall i :: 0 <= i < |turns| ==>
              s[i] == Turn(InboxIds(turns[i].before, pathId, dir), InboxIds(turns[i].between, pathId, dir))
  {
    seq(|turns|, i requires 0 <= i < |turns| =>
      Turn(InboxIds(turns[i].before, pathId, dir), InboxIds(turns[i].between, pathId, dir)))
  }

  /** The ack of a whole page, sent by the inbox's own reader, removes that page:
      with nothing arriving at or below its last id, the 50-row view of ack does
      not matter, and nothing stays behind the new cursor. */
  lemma ReceiveTurn(lib: Library, turn: TableTurn, pairs: Pairs, pathId: string, signature: string, cursor: string)
    requires WellStored(turn.before) && WellStored(turn.between)
    requires CallerProblem(lib, pairs, pathId, signature, AckText(pathId)).None?
    requires var dir := CallerInbox(lib, pairs, pathId, signature, AckText(pathId));
             dir.Some? && Clear(InboxIds(turn.before, pathId, dir.value), StrLess, cursor) &&
             forall m :: m in InboxIds(turn.between, pathId, dir.value) && m !in InboxIds(turn.before, pathId, dir.value) ==>
               StrLess(Next(PageIds(turn.before, pathId, dir.value, cursor), cursor), m)
    ensures var dir := CallerInbox(lib, pairs, pathId, signature, AckText(pathId)).value;
            var page := PageIds(turn.before, pathId, dir, cursor);
            var (after, reply) := AckStep(lib, turn.between, pairs, pathId, Some(page), signature);
            reply.Evicted? &&
            InboxIds(after, pathId, dir) == InboxIds(turn.between, pathId, dir) - (set m | m in page) &&
            Clear(InboxIds(after, pathId, dir), StrLess, Next(page, cursor))
  {
    var dir := CallerInbox(lib, pairs, pathId, signature, AckText(pathId)).value;
    var before, between := InboxIds(turn.before, pathId, dir), InboxIds(turn.between, pathId, dir);
    var page := PageIds(turn.before, pathId, dir, cursor);
    PageIsBounded(turn.before, pathId, dir, cursor);
    AckEvictsExactly(lib, turn.between, pairs, pathId, Some(page), signature);
    TextTurnClears(before, between, cursor);
  }

  /** The same turn, whatever arrived meanwhile: nothing stays at or below the new
      cursor exactly when nothing arrived there. */
  lemma ReceiveTurnExactly(lib: Library, turn: TableTurn, pairs: Pairs, pathId: string, signature: string, cursor: string)
    requires WellStored(turn.before) && WellStored(turn.between)
    requires CallerProblem(lib, pairs, pathId, signature, AckText(pathId)).None?
    requires var dir := CallerInbox(lib, pairs, pathId, signature, AckText(pathId));
             dir.Some? && Clear(InboxIds(turn.before, pathId, dir.value), StrLess, cursor)
    ensures var dir := CallerInbox(lib, pairs, pathId, signature, AckText(pathId)).value;
            var page := PageIds(turn.before, pathId, dir, cursor);
            var after := AckStep(lib, turn.between, pairs, pathId, Some(page), signature).0;
            Clear(InboxIds(after, pathId, dir), StrLess, Next(page, cursor)) <==>
            forall m :: m in InboxIds(turn.between, pathId, dir) && m !in InboxIds(turn.before, pathId, dir) ==>
                          StrLess(Next(page, cursor), m)
  {
    var dir := CallerInbox(lib, pairs, pathId, signature, AckText(pathId)).value;
    var before, between := InboxIds(turn.before, pathId, dir), InboxIds(turn.between, pathId, dir);
    var page := PageIds(turn.before, pathId, dir, cursor);
    PageIsBounded(turn.before, pathId, dir, cursor);
    AckEvictsExactly(lib, turn.between, pairs, pathId, Some(page), signature);
    TextTurnClearsExactly(before, between, cursor);
  }

  lemma TextTurnClearsExactly(before: set<string>, between: set<string>, cursor: string)
    requires Clear(before, StrLess, cursor)
    ensures var page := PageAt(before, StrLess, cursor, LIST_LIMIT);
            var next := Next(page, cursor);
            Clear(AfterAck(between, StrLess, page, LIST_LIMIT), StrLess, next) <==>
            forall x :: x in between && x !in before ==> StrLess(next, x)
  {
    TextOrder();
    TurnClearsExactly(before, between, StrLess, cursor, LIST_LIMIT);
  }

  lemma PageIsBounded(envs: Envelopes, pathId: string, dir: Direction, since: string)
    ensures |PageIds(envs, pathId, dir, since)| <= LIST_LIMIT
  {
    TextOrder();
    PageFacts(InboxIds(envs, pathId, dir), StrLess, since, LIST_LIMIT);
  }

  lemma TextTurnClears(before: set<string>, between: set<string>, cursor: string)
    requires Clear(before, StrLess, cursor)
    requires forall x :: x in between && x !in before ==> StrLess(Next(PageAt(before, StrLess, cursor, LIST_LIMIT), cursor), x)
    ensures var page := PageAt(before, StrLess, cursor, LIST_LIMIT);
            var after := AfterAck(between, StrLess, page, LIST_LIMIT);
            after == between - (set x | x in page) && Clear(after, StrLess, Next(page, cursor))
  {
    TextOrder();
    TurnClears(before, between, StrLess, cursor, LIST_LIMIT);
  }

  /** The receive loop never leaves a row at or below its cursor exactly when nothing
      ever arrives there. */
  lemma ReceiveLoopClearsExactly(turns: seq<TableTurn>, pathId: string, dir: Direction, cursor: string)
    requires turns != [] && Clear(InboxIds(turns[0].before, pathId, dir), StrLess, cursor)
    ensures AlwaysClear(TurnsOf(turns, pathId, dir), StrLess, cursor, LIST_LIMIT) <==>
            NothingBelow(TurnsOf(turns, pathId, dir), StrLess, cursor, LIST_LIMIT)
  {
    TextOrder();
    LoopClearsExactly(TurnsOf(turns, pathId, dir), StrLess, cursor, LIST_LIMIT);
  }

  /** Over any number of turns, arrivals always sorting above the cursor, nothing
      is ever left behind it; a page that comes back empty means that the inbox
      was empty at that moment. */
  lemma ReceiveLoopDrains(turns: seq<TableTurn>, pathId: string, dir: Direction, cursor: string)
    requires turns != [] && Clear(InboxIds(turns[0].before, pathId, dir), StrLess, cursor)
    requires NothingBelow(TurnsOf(turns, pathId, dir), StrLess, cursor, LIST_LIMIT)
    ensures var (last, left) := LoopEnd(TurnsOf(turns, pathId, dir), StrLess, cursor, LIST_LIMIT);
            Clear(left, StrLess, last)
    ensures forall k :: 0 <= k < |turns| &&
                        Pages(Befores(TurnsOf(turns, pathId, dir)), StrLess, cursor, LIST_LIMIT)[k] == [] ==>
                          InboxOf(turns[k].before, pathId, dir) == map[]
  {
    var sets := TurnsOf(turns, pathId, dir);
    TextOrder();
    LoopClears(sets, StrLess, cursor, LIST_LIMIT);
    forall k | 0 <= k < |turns| && Pages(Befores(sets), StrLess, cursor, LIST_LIMIT)[k] == []
      ensures InboxOf(turns[k].before, pathId, dir) == map[]
    {
      assert sets[k].before == {};
      InboxRows(turns[k].before, pathId, dir);
      assert InboxOf(turns[k].before, pathId, dir).Keys == {};
    }
  }
}
