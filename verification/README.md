# Verification of the interchange

This project models the core of the interchange and proves what it promises:
the mailbox relay, the staged pairing of two parties, the rate limiter in front
of the public endpoints, the codecs and orders that the first two rely on, and
the routing and identity injection of the auth gateway.

## Reading order

* `Lex`, `Hex`, `Base64Url`, `PathId`, `Uuid`, `Times`, `CanonicalJson`, `SelfSig`:
  orders, encodings and signed texts. `Sextets`, `Halves`, `SignedTexts`,
  `AcceptedText`: what they stand for, by tables and numbers of their own.
* `Paging`: cursor walks over any strict total order. `Storage`: the tables, their
  queries as functions, and the store as a class.
* `Mailbox`: PUT, GET and ack, as methods on the store and as functions on the
  tables. `Sweep`: retention. `Inboxes`: one table as separate inboxes, paging
  and the receive loop. `Arrivals`: listing order against arrival order.
  `MailboxRuns`: whole runs. `Replays`, `MailboxExamples`: exact conditions for
  its promises, and concrete runs. `MailboxReplies`: every answer of the three
  endpoints, as the first of a list of `Checks` that fails.
* `PairFlow`: submit, approve, deny and poll. `PairRuns`: runs of uninterrupted
  handlers. `PairRaces`: single database calls in any interleaving.
  `PairSchedules`: particular schedules. `PairExamples`: concrete runs.
  `PairReplies`: every answer, and until when a request can be approved.
* `RateLimit`: the limiter class. `RateRuns`, `RateBounds`, `TokenBucket`,
  `RateExact`: whole runs.
* `Gateway`: the route table. `Identity`: the lanes and their headers. `Lanes`: each
  lane by token, path and header names alone.
  `ReverseProxy`: what reaches an HTTP backend.

A handler that changes state is a method of a class; its `ensures` equates the new
state and the answer with a function of the old state, and the lemmas speak about
that function. SHA-256, Ed25519 and timestamp parsing are arbitrary functions in
`Foreign.Library`; nothing is assumed of them except where a lemma says so: that
digests have 32 bytes, and that the time parser reads timestamps only. Randomness
and the clock are parameters. Time columns hold whole seconds; `Times.TextOrder`
and `Times.ParseFormat` show that this is what the stored text amounts to. Limiter
arithmetic is over `real`.

## Where code and documentation part

The model follows the code in each of these.

* `internal/storage/storage.go:109-111` makes message ids unique per pair; the
  table's key spans all paths (`Inboxes.DuplicatesPerPairExactly`,
  `Replays.OtherPathCanRefuse`).
* The same contract orders a listing by arrival; it is by id, and the two agree
  exactly when no smaller id arrives in a later second
  (`Arrivals.ListingsFollowArrivalExactly`). An id that arrives below a reader's
  cursor is stored and never listed from there on
  (`MailboxExamples.LateArrivalIsMissed`).
* The documented receive loop acknowledges whole pages and moves its cursor on. It
  leaves nothing behind exactly when nothing arrives at or below the cursor
  (`Inboxes.ReceiveLoopClearsExactly`). Ack sees the caller's 50 smallest envelopes
  only, though batches of 100 are allowed, so an ack of others does nothing
  (`Inboxes.AckOneExactly`, `MailboxExamples.AckCanBeInVain`).
* Retention must cover two replay windows and the time that a PUT may take from its
  window check to its insert (`Replays.RetentionExactly`); seven days, the default,
  leave more than six days for that (`Sweep.MaxAgeOf`).
* The replay window is documented as five minutes; timestamps 2^63 ns ahead pass
  as well (`Mailbox.WindowExactly`, `Replays.FarTimestampsExactly`).
* The comment on `verifySelfSig` first describes a fallback from v2 to v1; the code
  has none, which `SelfSig.SignatureCoversEcdh` needs.
* `approve` answers 200 from its duplicate branch without looking at its update
  (`PairSchedules.IgnoredOutcomeExactly`), and stores the raw body there, so a
  poll may show another half (`PairRuns.PollShowsOwnerExactly`). Approvals that
  interleave are not atomic (`PairSchedules`, `PairExamples`).
* The two path-id derivations differ on keys written with padding
  (`PathId.ImplementationsAgreeExactly`, `PathId.AddressesCanSplit`).
* The parties of a pair are told apart by key text. An approver may write the
  requester's key in another spelling; then only one of the two inboxes has a
  reader (`Inboxes.ExchangeWorksExactly`, `PairExamples.TwinPairCanBeActivated`).
* The schema of a half allows line breaks in base64url text, so the checked text
  does not always fix the ECDH fields (`SelfSig.AcceptedTextIsAmbiguous`).
* The comment at `internal/gateway/gateway.go:4-8` has backends rely on the
  injected headers; the reverse proxy drops those that the client's Connection
  header names (`ReverseProxy.BackendToldExactly`).

## Model

| member | source | states |
|---|---|---|
| MailboxRuns.Conservation | internal/mailbox/mailbox.go:144-397 | over every run of PUTs, acks, sweeps and activations, the envelopes answered as accepted are, one by one, those still stored, those that acks removed and those that sweeps removed |
| MailboxRuns.ReportedConservation | internal/mailbox/mailbox.go:144-397 | over every such run the acceptances that callers were told of number the envelopes stored plus the counts that acks and sweeps reported |
| MailboxRuns.ToldIsDone | internal/mailbox/mailbox.go:371-397 | what one request or sweep reports is by how much it changes the table |
| MailboxRuns.AcceptedIsAdded | internal/mailbox/mailbox.go:226-244 | the insert of a PUT adds to the table exactly the envelope that the PUT is told is accepted, or nothing |
| MailboxRuns.LeavesExactly | internal/mailbox/mailbox.go:365-397 | a stored row leaves in a step exactly when its own reader acknowledges it while it is among the reader's 50 smallest, or the sweep finds it too old |
| MailboxRuns.UninterruptedPut | internal/mailbox/mailbox.go:144-245 | a PUT whose check and insert run in a row does and answers what the handler in one piece does |
| MailboxRuns.AcceptedAtMostOnce | internal/mailbox/mailbox.go:181-238 | with anything running between a PUT's window check and its insert, at most a gap later, a forward clock, and a retention of two replay windows and that gap, no legal run accepts one (msg_id, ts) more than once plus the acks that evicted it, for timestamps less than 2^63 ns after the start |
| Replays.RetentionExactly | internal/sweep/sweep.go:89-93 | that promise holds for all such timestamps under every plausible library exactly when retention is at least two replay windows and the gap; below that a concrete run accepts, sweeps and accepts again |
| Replays.FarTimestampsExactly | internal/mailbox/mailbox.go:413-427 | with long retention the promise holds for a timestamp under every plausible library exactly when it is less than 2^63 ns after the start: beyond, the 64-bit difference saturates and its negation wraps, and the window check passes |
| Replays.FarTimestampReplaysAtOnce | internal/mailbox/mailbox.go:413-427 | a timestamp that stays 2^63 ns ahead is replayed with one sweep a second past the retention, at that instant |
| Replays.OtherPathCanRefuse | internal/storage/sqlite.go:22 | a run from an empty relay reaches a PUT that passes every check and is answered 409 although its pair stores nothing |
| Mailbox.WindowExactly | internal/mailbox/mailbox.go:413-427 | the replay check is the five-minute test, plus every timestamp 2^63 ns or more ahead, and nothing else |
| Mailbox.Handler.Put | internal/mailbox/mailbox.go:144-245 | the step-by-step handler answers and stores exactly what the PUT specification says, the error path included |
| Mailbox.Handler.CheckEnvelope | internal/mailbox/mailbox.go:169-198 | the envelope checks in source order give the first problem |
| Mailbox.Handler.CheckSender | internal/mailbox/mailbox.go:208-224 | the three refusals after the verifier has answered: verifier failure, no sender, and a sender outside the pair |
| Mailbox.Handler.Deliver | internal/mailbox/mailbox.go:226-244 | insert, or 409 on an id in use, leaving the table alone |
| Mailbox.PutAcceptsExactly | internal/mailbox/mailbox.go:144-245 | a PUT is accepted exactly when the pair is known, the body reads as an envelope with version 1 and no empty field, the path is its own, the id is a UUIDv7, the timestamp is within 300 seconds or 2^63 ns ahead, the hash text reads, two digits at a time, as the digest of the decoded ciphertext, a key of the pair verifies the signature, and the id is unused in the whole table |
| Mailbox.ChecksExactly | internal/mailbox/mailbox.go:169-224 | the ordered checks all pass exactly when every condition holds, in no order |
| MailboxReplies.PutRefusesExactly | internal/mailbox/mailbox.go:144-224 | PUT answers with the error of the first of ten checks that fails, each stated on its own, and then changes nothing |
| MailboxReplies.PutStoresExactly | internal/mailbox/mailbox.go:217-244 | a PUT that passes answers 409 for an id in use, and else 202 with one row more, given column by column |
| MailboxReplies.GetAnswersExactly | internal/mailbox/mailbox.go:249-312 | GET answers with the error of the first of four checks that fails, the signature being over the path and the query, and else with a page of what the other half sent |
| MailboxReplies.AckAnswersExactly | internal/mailbox/mailbox.go:316-379 | ack answers with the error of the first of five checks that fails, the signature being over the path; no ids means zero, and a batch holds at most 100 |
| Mailbox.IdentifyExactly | internal/crypto/crypto.go:49-94 | the verifier names a half exactly when that half's 32-byte key verifies the 64-byte signature over the text, the requester's first; it fails exactly on another algorithm or on a stored key that it has to try and that is none |
| Mailbox.IdentifySender | internal/crypto/crypto.go:49-94 | the loop over the two halves computes that |
| Hex.HexTextExactly | internal/mailbox/mailbox.go:193-195 | one lower-case text only reads, two digits at a time, as these octets, and it is the one that the hash check compares with |
| SignedTexts.ListingTextExactly | internal/mailbox/mailbox.go:262-266 | the text that a listing request signs determines its path and its query |
| SignedTexts.KindsApart | internal/mailbox/mailbox.go:204-330 | no text is at once an envelope's, a listing's, an ack's or a half's, so a signature for one serves no other |
| SignedTexts.EnvelopeText | internal/mailbox/mailbox.go:474-498 | the signed text of an envelope is its six members by name, in this order, with nothing but commas between them |
| SignedTexts.ShortestSpelling | internal/mailbox/mailbox.go:493-498 | a character is written in the shortest JSON spelling there is, section 3.2.2.2 of RFC 8785, and with lower-case digits there is no other as short |
| Mailbox.KnownCallerHasDirections | internal/mailbox/mailbox.go:440-462 | a caller named by the verifier always has a sending and a reading direction, so the fail-closed branches after it never run |
| Mailbox.Handler.Authenticate | internal/crypto/crypto.go:49-94 | the caller of GET and ack: the requester's key is tried first, then the owner's; a bad stored key is a server error, not the caller's |
| Mailbox.Handler.Get | internal/mailbox/mailbox.go:249-312 | the listing handler answers what the specification says, including its errors and the cursor it hands out |
| Mailbox.Handler.RenderListing | internal/mailbox/mailbox.go:294-311 | the loop over rows lists every row in order and ends with the last row's id as cursor |
| Mailbox.Handler.Ack | internal/mailbox/mailbox.go:316-397 | the ack handler evicts and answers what the specification says, including the batch limit and a caller without a reading direction |
| Mailbox.Handler.EvictFrom | internal/mailbox/mailbox.go:371-397 | lists the caller's rows, keeps the requested ones, deletes them by path and id and reports how many went |
| Mailbox.Handler.ChooseRequested | internal/mailbox/mailbox.go:386-391 | the loop collects exactly the requested ids among the listing, in listing order |
| Mailbox.RequestedMeaning | internal/mailbox/mailbox.go:386-391 | what is collected is the intersection of listing and request |
| Inboxes.PutAddsOneRow | internal/mailbox/mailbox.go:217-238 | an accepted PUT adds its one row to one inbox and leaves every other inbox as it was |
| Inboxes.InsertTouchesOneInbox | internal/storage/sqlite.go:166-179 | a row inserted under a free id changes one (path, direction) inbox only |
| Inboxes.NamedExactly | internal/crypto/crypto.go:49-94 | for a pair with two valid key texts the verifier can name the requester's text, and the owner's exactly when it stands for another key, and nothing else |
| Inboxes.OnlyOtherHalfReads | internal/mailbox/mailbox.go:440-462 | when the two texts stand for different keys, what one half sends is read by the other half and by no other caller that the verifier can name |
| Inboxes.ExchangeWorksExactly | internal/mailbox/mailbox.go:440-462 | both halves have a reader that the verifier can name exactly when the two texts stand for different keys |
| Inboxes.PaddedTwinIsUnread | internal/crypto/crypto.go:70-92 | one key written without and with padding: the texts differ and nobody can read what the requester sends |
| Inboxes.DuplicatesPerPairExactly | internal/storage/storage.go:109-111 | the documented per-pair duplicate rule holds for a PUT exactly when its id is not in use under another path, as the key spans all paths |
| Inboxes.GetShowsOwnInbox | internal/mailbox/mailbox.go:286-292 | a GET reply depends on nothing but the caller's own inbox |
| Inboxes.ReplyIsPage | internal/mailbox/mailbox.go:277-312 | the reply lists the stored bodies of one page in order, with a cursor that the next GET accepts and continues from |
| Inboxes.AckEvictsExactly | internal/mailbox/mailbox.go:371-397 | ack evicts exactly the requested ids among the caller's 50 smallest, reports their number and touches no other inbox |
| Inboxes.AckOneExactly | internal/mailbox/mailbox.go:381-397 | a reader that acknowledges one stored id of its own inbox evicts it exactly when fewer than 50 smaller ids are stored there; otherwise it is told zero and nothing changes |
| MailboxExamples.AckCanBeInVain | internal/mailbox/mailbox.go:381-397 | a run of 51 accepted PUTs after which the verified reader acknowledges a stored id and is told zero |
| Inboxes.EvictingCallerReads | internal/mailbox/mailbox.go:371-379 | an ack that evicts always comes from a verified caller with an inbox |
| Inboxes.FromTheStart | internal/storage/sqlite.go:184-200 | the empty cursor lists the 50 smallest ids of the inbox |
| Inboxes.DeleteRequested | internal/storage/sqlite.go:230-248 | deleting by path and id what one inbox listed removes it from that inbox and from no other, although the delete ignores direction |
| Inboxes.SweepTakesOld | internal/storage/sqlite.go:251-260 | the sweep takes from every inbox the rows received before the cutoff's second, and no others |
| Inboxes.PagingAscends | internal/mailbox/mailbox.go:277-311 | following the cursor while anything else runs lists ids strictly upwards, none twice |
| Inboxes.PagingIsSound | internal/storage/sqlite.go:184-200 | whatever a page lists was stored in that inbox at that call, above the start |
| Inboxes.PagingCompletes | internal/mailbox/mailbox.go:277-311 | once a page is short, every id above the start that stayed stored throughout has been listed |
| Inboxes.UnchangedInboxIsListed | internal/storage/sqlite.go:184-226 | an unchanged inbox of n ids above the start is listed whole and in order in ceil(n / 50) + 1 calls, the last finding nothing |
| Arrivals.WalkListsExactly | internal/mailbox/mailbox.go:277-311 | a walk that ends with a short page lists, of the ids stored throughout, exactly those above its start |
| Arrivals.ListedIsAbove | internal/storage/sqlite.go:184-200 | whatever a walk lists lies above its start, so what arrives at or below the cursor is in no later page |
| Arrivals.ListingsFollowArrivalExactly | internal/storage/storage.go:113-116 | every listing of an inbox is in arrival order, as the storage contract says, exactly when no smaller id arrived in a later second |
| Arrivals.PagesSortedExactly | internal/storage/sqlite.go:195-199 | for any order on ids and any key, every page of two or more is in key order exactly when no two ids disagree with their keys |
| MailboxExamples.LateArrivalIsMissed | internal/mailbox/mailbox.go:277-311 | a run from an empty relay: the reader lists a higher id, a lower one is accepted a second later, stays stored, and is in no page from that cursor on |
| Inboxes.ReceiveTurn | internal/mailbox/mailbox.go:277-397 | one turn of the receive loop when nothing arrives at or below the page: its ack removes the whole page despite the 50-row view, and nothing stays behind the new cursor |
| Inboxes.ReceiveTurnExactly | internal/mailbox/mailbox.go:277-397 | one turn of the receive loop leaves nothing at or below its new cursor exactly when nothing arrived there between the listing and the ack |
| Inboxes.ReceiveLoopClearsExactly | internal/mailbox/mailbox.go:277-397 | over any number of turns the loop never has a stored row at or below its cursor exactly when nothing ever arrives there |
| Inboxes.ReceiveLoopDrains | internal/mailbox/mailbox.go:277-397 | when nothing arrives at or below the cursor, nothing is left there after any number of turns, and an empty page means the inbox was empty |
| Paging.WalkAscends | internal/storage/sqlite.go:184-200 | for any strict total order: pages of a cursor walk over changing sets ascend |
| Paging.WalkCompletes | internal/storage/sqlite.go:184-200 | an id above the start present in every snapshot is listed or lies ahead of the cursor; a short page leaves nothing ahead |
| Paging.WalkIsSound | internal/storage/sqlite.go:184-200 | a listed id was in the snapshot of its call and above the cursor |
| Paging.DrainListsAll | internal/storage/sqlite.go:184-226 | draining an unchanged set lists it in order in ceil(n / limit) + 1 calls, with the count above the cursor as measure |
| Paging.TurnClears | internal/mailbox/mailbox.go:371-397 | acknowledging a page through a view of the limit smallest ids removes it whole when nothing smaller arrived |
| Paging.TurnClearsExactly | internal/mailbox/mailbox.go:371-397 | for any strict total order: a turn clears up to its new cursor exactly when nothing arrived there |
| Paging.AmongSmallestExactly | internal/storage/sqlite.go:195-199 | an id is among the n smallest exactly when fewer than n are smaller |
| Paging.LoopClears | internal/mailbox/mailbox.go:277-397 | the read, acknowledge, advance loop leaves nothing at or below its cursor |
| Paging.LoopClearsExactly | internal/mailbox/mailbox.go:277-397 | for any strict total order: the loop stays clear throughout exactly when nothing ever arrives at or below its cursor |
| Paging.SmallestMeaning | internal/storage/sqlite.go:195-199 | the n smallest ids are ascending members with nothing smaller left out |
| Paging.SmallestUnique | internal/storage/sqlite.go:195-199 | only one sequence is that |
| Paging.ScanIndex | internal/storage/sqlite.go:195-199 | the index scan with a limit computes it |
| Storage.PageMeaning | internal/storage/sqlite.go:184-200 | a listing is the one sequence of at most 50 ascending ids of the inbox above the cursor with nothing smaller left out (if and only if) |
| Storage.Store.InsertEnvelope | internal/storage/sqlite.go:166-179 | inserts under a free id; an id in use is a duplicate and changes nothing |
| Storage.Store.ListEnvelopes | internal/storage/sqlite.go:184-226 | appends the rows of the page in order |
| Storage.Store.ScanRows | internal/storage/sqlite.go:206-226 | the loop appends the row of every id in order |
| Storage.Store.QueryIds | internal/storage/sqlite.go:194-200 | the ids that the query yields |
| Storage.Store.DeleteEnvelopesByMsgID | internal/storage/sqlite.go:230-248 | removes the rows with that path and those ids, whatever their direction, and returns how many went |
| Storage.Store.DeleteEnvelopesOlderThan | internal/storage/sqlite.go:251-260 | removes the rows received before the cutoff's second and returns how many went |
| Storage.Store.InsertPairRequest | internal/storage/sqlite.go:263-283 | stages a request under a free id |
| Storage.Store.UpdatePairRequestStatus | internal/storage/sqlite.go:318-361 | changes only a pending request, keeps columns for which it got nothing, and tells apart done, unknown, and decided otherwise |
| Storage.Store.ExpirePendingRequests | internal/storage/sqlite.go:363-373 | expires exactly the pending requests whose deadline is before the cutoff's second and counts them |
| Storage.ExpiresExactly | internal/storage/sqlite.go:363-373 | expiry changes a request exactly when it is pending and its deadline lies before the cutoff's second, and then only its status |
| Storage.RetainsExactly | internal/storage/sqlite.go:251-260 | a row survives the sweep exactly when it was received in the cutoff's second or later, and then as it was |
| Storage.DeletesExactly | internal/storage/sqlite.go:230-248 | the delete takes exactly the rows that have the path and one of the ids, and leaves the rest as they are |
| Storage.UpdatesExactly | internal/storage/sqlite.go:318-361 | the conditional update changes one row, only if it is pending, in status and in the columns that are given |
| Storage.SecondExactly | internal/storage/sqlite.go:75 | a time column's second is the whole seconds that have passed |
| Storage.Store.InsertPair | internal/storage/sqlite.go:375-390 | inserts a pair at a free path |
| Storage.Store.GetPair | internal/storage/sqlite.go:392-419 | the pair at a path, if there is one |
| Sweep.MaxAgeOf | internal/sweep/sweep.go:37-58 | the effective retention is positive, is the configured one if that is positive, and otherwise seven days, which leaves more than six beyond two replay windows |
| Sweep.Sweeper.Once | internal/sweep/sweep.go:89-110 | one cycle removes old envelopes by the cutoff, expires overdue requests and leaves pairs alone |
| PairFlow.Handler.CreateRequest | internal/pairflow/pairflow.go:307-370 | the submit handler on the store equals its specification on the request table |
| PairFlow.Handler.CheckSubmission | internal/pairflow/pairflow.go:312-338 | the checks of a submission in source order give the first problem |
| PairFlow.Handler.ReadForApproval | internal/pairflow/pairflow.go:485-544 | approve up to its first write: the request is read and every check made in source order |
| PairFlow.Handler.ReadOwner | internal/pairflow/pairflow.go:543-569 | the checks on the owner's half in source order, and the address of the two keys |
| PairFlow.Handler.Approve | internal/pairflow/pairflow.go:484-633 | the approve handler, uninterrupted, equals its specification: first read, pair insert, duplicate branch, conditional update |
| PairFlow.Handler.Deny | internal/pairflow/pairflow.go:648-672 | the deny handler equals its specification |
| PairFlow.Handler.GetRequestStatus | internal/pairflow/pairflow.go:373-409 | the poll handler equals its specification |
| PairFlow.Handler.DispatchCreate | internal/pairflow/pairflow.go:86-92 | the dispatcher expires overdue requests before a submission |
| PairFlow.Handler.DispatchApprove | internal/pairflow/pairflow.go:113-150 | the dispatcher expires overdue requests before an approval |
| PairFlow.Handler.DispatchDeny | internal/pairflow/pairflow.go:113-150 | the dispatcher expires overdue requests before a denial |
| PairFlow.Handler.DispatchPoll | internal/pairflow/pairflow.go:86-110 | the dispatcher expires overdue requests before a poll |
| PairRuns.SubmitAcceptsExactly | internal/pairflow/pairflow.go:307-370 | a submission is staged exactly when it names a target of at most 256 octets, its half passes the ten schema checks, the key that the half names verifies its 64-byte signature over the half's own lines, its timestamp is fresh and the id is new; then one pending request is added, column by column, due 86400 seconds later, and a poll shows it |
| PairRuns.ApproveProceedsExactly | internal/pairflow/pairflow.go:484-566 | approve goes past its checks exactly on a pending request with a fresh owner half that passes the ten schema checks and whose own key verifies its signature over its own lines; the algorithm mismatch branch never runs |
| PairRuns.SelfCheckedExactly | internal/pairflow/pairflow.go:183-287 | a half counts as checked exactly when it passes the ten schema checks and its own key verifies its signature over its own lines |
| Halves.SchemaExactly | internal/pairflow/pairflow.go:183-226 | a half is refused for the first of ten checks that fails, lengths counted in octets of UTF-8; one that passes comes back with its decoded key |
| Halves.VerifiesExactly | internal/pairflow/pairflow.go:274-287 | the self-signature passes exactly when Ed25519 verifies it, under the key that the half names, over the text that spells the half |
| Halves.SignedTextExactly | internal/pairflow/pairflow.go:233-262 | one text spells a half: v2 and all eight fields when there is an ECDH key, else v1 and six, with line breaks between |
| Halves.LinesExactly | internal/pairflow/pairflow.go:233-262 | for fields without line breaks a text spells the half exactly when it splits into the version and the named fields, v2 exactly when there is an ECDH key |
| PairReplies.SubmitRefusesExactly | internal/pairflow/pairflow.go:307-338 | a submission is refused with the error of the first of fifteen checks that fails |
| PairReplies.ApproveRefusesExactly | internal/pairflow/pairflow.go:484-566 | an approval of a request not yet decided is refused with the error of the first of fifteen checks that fails, and goes ahead when none does |
| PairReplies.DecidedAnswersExactly | internal/pairflow/pairflow.go:514-538 | on a decided request a call is told 200 exactly when the request was approved and the caller signs a half whose key is the stored pair's; else 409; nothing changes |
| PairReplies.ApproveStoresExactly | internal/pairflow/pairflow.go:569-633 | an approval that goes ahead stores a pair with both parties' names and keys under the address of the two keys, or finds one with both key texts, or answers 409; the request is approved exactly with a 200 |
| PairReplies.DenyAnswersExactly | internal/pairflow/pairflow.go:648-672 | every answer of deny and what it leaves |
| PairReplies.PollReportsExactly | internal/pairflow/pairflow.go:373-409 | a poll reports the stored status and path, and a half exactly for an approved request |
| PairReplies.PendingUntilDue | internal/storage/sqlite.go:363-373 | over any run in which nobody decides it, a request stays pending exactly as long as every call arrives no later than its deadline's second, and is expired afterwards; nothing else about it changes |
| PairReplies.ArrivalProceedsExactly | internal/pairflow/pairflow.go:130-566 | an arriving approval goes past its checks exactly when the request is pending and not past its deadline's second, and the owner's half is fresh, passes the schema and is signed by its own key |
| PairReplies.StagedProceedsExactly | internal/pairflow/pairflow.go:130-566 | from submission to approval: a request that nobody decides can be approved exactly while no call, the approval included, arrives more than 86400 whole seconds after it was staged |
| PairRuns.DenyExactly | internal/pairflow/pairflow.go:648-672 | a denial succeeds exactly on a pending or already denied request, which a poll then shows denied; otherwise nothing changes |
| PairRuns.NoApprovalAfterDenial | internal/pairflow/pairflow.go:504-533 | whatever runs after a denial, approving that request answers 409 and changes nothing |
| PairRuns.ApproveTwice | internal/pairflow/pairflow.go:500-533 | approve is idempotent: at any later time, whatever ran since, the same call gets the same 200 and changes nothing |
| PairRuns.ApprovedFacts | internal/pairflow/pairflow.go:504-633 | after a 200 the caller's own half passed the schema, the key that it names verified its signature over its own lines, and the pair at the named path holds that key |
| PairRuns.PairsAreApprovals | internal/pairflow/pairflow.go:504-633 | over every run of uninterrupted handlers the keys of the pairs table are exactly the path ids of approved requests |
| PairRuns.RunKeeps | internal/pairflow/pairflow.go:484-633 | every such run keeps: path id and owner set exactly on approved requests, each approved request backed by a pair with its requester's key and a checked owner's key, each pair at the address of its two keys |
| PairRuns.StepKeeps | internal/pairflow/pairflow.go:484-672 | one event keeps all of that, never changes a decided request, and never alters or removes a pair |
| PairRuns.ApprovedNamesStoredPath | internal/pairflow/pairflow.go:504-633 | a 200 from an uninterrupted approve names the path id stored on the request, and its requester's half |
| PairRuns.NoLateApproval | internal/pairflow/pairflow.go:126-135 | a request that an event approves was not past its deadline's second when the call arrived |
| PairRuns.ApprovalThenPoll | internal/pairflow/pairflow.go:586-633 | a later poll shows the owner's half when approve inserted the pair itself, and what the raw body reads as, if anything, when it found the pair |
| PairRuns.PollShowsOwnerExactly | internal/pairflow/pairflow.go:586-633 | after a 200 a later poll shows the approved owner half exactly when approve inserted the pair itself or the whole body reads as that half |
| PairRuns.ActivatedPairIsUsable | internal/pairflow/pairflow.go:569-590 | every activated pair has a well-formed mailbox address and two keys on which the verifier never fails |
| PairRaces.RunKeeps | internal/pairflow/pairflow.go:484-633 | however the calls of approvals, submissions, denials and expiries interleave: table invariants hold, decided requests and pairs never change, an approver's answer stands |
| PairRaces.StepKeeps | internal/pairflow/pairflow.go:484-672 | any single call keeps these invariants, with what each approver under way may rely on |
| PairRaces.PairsExactly | internal/pairflow/pairflow.go:569-633 | after any interleaving the keys of the pairs table are exactly the path ids of approved requests plus those inserted by an approver that has not, or has failed to, set the status and path |
| PairRaces.InserterLearnsDecision | internal/pairflow/pairflow.go:612-633 | an approver that inserted a pair and has been answered finds its request decided, and was told 200 exactly when the decision was approval |
| PairRaces.TwoHundredNamesPair | internal/pairflow/pairflow.go:504-633 | every 200, under any interleaving, names a decided request, that request's requester half and a path that has a pair with the requester's key |
| PairRaces.TwoHundredNamesStoredExactly | internal/pairflow/pairflow.go:504-633 | in every run, a 200 to a returning caller names the path stored on the request, and a 200 to an approver that went ahead does exactly when the request stores an owner half with that approver's key |
| PairSchedules.UninterruptedIsAtomic | internal/pairflow/pairflow.go:484-633 | the single calls of one approver, run in a row, do and answer exactly what the handler in one piece does |
| PairSchedules.DenyBetweenWrites | internal/pairflow/pairflow.go:577-620 | a deny between the two writes leaves the pair without an approved request and the approver is told 409 |
| PairSchedules.TwoOwnersBothTold | internal/storage/sqlite.go:346-349 | two approvers that both inserted are both told 200 with their own paths while the request stores only the first |
| PairExamples.PairCanBeStranded | internal/pairflow/pairflow.go:577-620 | a concrete run from empty tables reaches the stranded pair |
| PairExamples.TwoOwnersCanBothBeTold | internal/storage/sqlite.go:346-349 | a concrete run from empty tables reaches the two 200s with different paths |
| PairSchedules.IgnoredOutcomeExactly | internal/pairflow/pairflow.go:592-606 | the duplicate branch answers 200 whatever its update did; the request is approved exactly when that update was no conflict |
| PairSchedules.DenyAfterMatch | internal/pairflow/pairflow.go:592-606 | from any reached state, a deny before the update of the duplicate branch ends in a 200 on a denied request |
| PairSchedules.MatchThenPoll | internal/pairflow/pairflow.go:592-606 | from any reached state, the duplicate branch leaves a request whose poll shows what the raw body reads as |
| PairExamples.DeniedCanBeTold | internal/pairflow/pairflow.go:592-606 | a concrete run from empty tables reaches a 200 on a denied request |
| PairExamples.PollCanShowAnother | internal/pairflow/pairflow.go:594-599 | a concrete run from empty tables reaches a poll that shows an empty half for an approved owner |
| PairExamples.TwinPairCanBeActivated | internal/pairflow/pairflow.go:548-590 | a concrete run from empty tables stores a pair of one key in two spellings, whose requester nobody can read |
| PathId.BytesLess | internal/pairflow/pairflow.go:687-698 | the index scan decides lexicographic order with a proper prefix first |
| PathId.Compare | internal/discovery/example_values.go:187-204 | the three-way scan has the sign of the same order |
| PathId.ComputedShape | internal/pairflow/pairflow.go:675-684 | every computed path id passes the mailbox's path check |
| PathId.PreimageInOrder | internal/pairflow/pairflow.go:675-682 | the hash is over one key right after the other, the one that is not after the other in byte order first |
| PathId.AddressReads | internal/pairflow/pairflow.go:675-684 | a path id is four fixed characters and text that decodes to that hash |
| PathId.ShapeExactly | internal/mailbox/mailbox.go:37 | the path check passes exactly nxc_ and 43 characters of the URL-safe alphabet |
| PathId.Symmetric | internal/pairflow/pairflow.go:675-684 | the path id does not depend on who is requester and who is owner |
| PathId.PreimageDeterminesKeys | internal/pairflow/pairflow.go:675-684 | for keys of equal length the hashed bytes are equal exactly when the unordered key pairs are |
| PathId.AddressesKeys | internal/pairflow/pairflow.go:675-684 | for 32-byte keys two path ids are equal exactly when the unordered key pairs are, or the hash collides on their distinct preimages |
| PathId.ImplementationsAgreeExactly | internal/discovery/example_values.go:174-184 | for keys that decode, the discovery derivation gives the pair flow's path id exactly when neither key carries padding, or the hash collides on the two different texts hashed |
| PathId.PreimagesAgreeExactly | internal/discovery/example_values.go:174-182 | the two derivations hash the same bytes exactly when neither key carries padding |
| PathId.PaddedKeysSplit | internal/discovery/example_values.go:174-184 | for 32-byte keys with padding one hashes 64 bytes and the other fewer, and the addresses differ exactly when the hash tells these apart |
| PathId.AddressesCanSplit | internal/discovery/example_values.go:174-184 | for every two 32-byte keys a padded spelling and a 32-byte hash under which the two addresses differ |
| Lex.Trichotomy | internal/pairflow/pairflow.go:687-698 | of before, equal and after exactly one holds |
| Lex.Transitive | internal/pairflow/pairflow.go:687-698 | the byte order is transitive |
| Lex.LessExactly | internal/pairflow/pairflow.go:687-698 | one sequence is before another exactly when at some place, with equal fronts, it has ended or has the smaller element |
| Lex.SizeIsOctets | internal/pairflow/pairflow.go:190-195 | the length caps count the octets of the text in UTF-8 |
| Base64Url.RoundTrip | internal/pairflow/pairflow.go:732-737 | the lenient decoder inverts both the unpadded and the padded encoding of every byte string |
| Base64Url.UnpaddedDecodes | internal/mailbox/mailbox.go:431-436 | text over the alphabet decodes exactly when its length is not 1 mod 4 |
| Base64Url.DecodersAgreeExactly | internal/discovery/example_values.go:174-178 | on text that the lenient decoder takes, the strict unpadded one with its error dropped agrees exactly when there is no padding, and finds fewer bytes otherwise |
| Base64Url.RawDecodeRoundTrip | internal/discovery/example_values.go:174-178 | the unpadded decoder inverts the unpadded encoding |
| Sextets.EncodedAt | internal/pairflow/pairflow.go:683 | each character of an encoding stands in table 2 of RFC 4648 at its six bits of the 24-bit group |
| Sextets.DecodesExactly | internal/mailbox/mailbox.go:431-436 | the strict decoder yields octets exactly when the text is whole quanta over the alphabet, the last with at most two signs of padding, whose 24-bit groups are those octets |
| Sextets.LenientExactly | internal/mailbox/mailbox.go:431-436 | the lenient decoder pads to the next multiple of four, skips line breaks, and decodes what is left |
| Sextets.StripsLineBreaks | internal/mailbox/mailbox.go:431-436 | CR and LF go wherever they stand, and nothing else does |
| CanonicalJson.RoundTrip | internal/mailbox/mailbox.go:474-498 | parsing the canonical text gives the envelope back, whatever its six strings hold |
| CanonicalJson.Injective | internal/mailbox/mailbox.go:474-498 | different envelopes never have the same canonical text |
| CanonicalJson.CanonicalText | internal/mailbox/mailbox.go:493-498 | trimming removes the encoder's line break and nothing else; the text does not end in one |
| CanonicalJson.KeysAscend | internal/mailbox/mailbox.go:475-482 | keys come in the order of section 3.2.3 of RFC 8785 |
| CanonicalJson.CanonicalIsJcsExactly | internal/mailbox/mailbox.go:464-473 | the text is the RFC 8785 serialisation (escaping as in section 3.2.2.2) exactly when no field holds U+2028 or U+2029 |
| AcceptedText.AcceptedIsJcs | internal/mailbox/mailbox.go:464-498 | every envelope that passes the checks of PUT is signed over its RFC 8785 serialisation, given that the time parser reads timestamps only |
| AcceptedText.AcceptedIsSignedJcs | internal/mailbox/mailbox.go:200-214 | an accepted PUT was signed over that serialisation by a half of the pair |
| AcceptedText.DecodableAscii | internal/mailbox/mailbox.go:431-436 | text that the lenient decoder takes is ASCII |
| Uuid.CursorOrder | internal/mailbox/mailbox.go:41 | for any two accepted message ids, text order is the order of their 128-bit values, and an earlier 48-bit timestamp lists first |
| Uuid.ShapeExactly | internal/pairflow/pairflow.go:45 | an id has the shape exactly when it is five groups of 8, 4, 4, 4 and 12 lower-case digits with dashes between |
| Uuid.Version7Exactly | internal/mailbox/mailbox.go:41 | of ids of that shape those pass whose 128-bit number has 7 in the version field and 10 in the two variant bits |
| Uuid.TimestampIsTop | internal/mailbox/mailbox.go:41 | the timestamp of a message id is the top 48 bits of its number |
| Uuid.TextOrderIsNumberOrder | internal/storage/sqlite.go:181-199 | aligned lower-case hexadecimal texts compare as text exactly as they do as numbers |
| Times.TextOrder | internal/storage/sqlite.go:66-75 | for years 0000 to 9999, stored time texts compare exactly as whole seconds |
| Times.ParseFormat | internal/storage/sqlite.go:75-90 | reading a stored time gives it back cut to the second |
| Times.FormatLayout | internal/storage/sqlite.go:66-75 | a stored time, written out field by field |
| Times.Gregorian | internal/storage/sqlite.go:66-75 | month lengths, leap years and the 400-year cycle are those of the Gregorian calendar |
| Times.SecondsFollowFields | internal/storage/sqlite.go:66-75 | calendar fields compare as the seconds they stand for |
| SelfSig.SplitJoin | internal/pairflow/pairflow.go:233-262 | splitting a preimage recovers every field when none holds an LF |
| SelfSig.V1UnambiguousExactly | internal/pairflow/pairflow.go:233-243 | a v1 preimage determines its half's fields exactly when no field holds an LF |
| SelfSig.V2UnambiguousExactly | internal/pairflow/pairflow.go:250-262 | a v2 preimage determines its half's fields exactly when no field holds an LF |
| SelfSig.VersionsDisjoint | internal/pairflow/pairflow.go:233-262 | no v1 preimage equals a v2 preimage |
| SelfSig.SignatureCoversEcdh | internal/pairflow/pairflow.go:274-287 | for a half with ECDH material and no LF in its fields, any half with the same checked text carries the same dh_alg and dh_pubkey |
| SelfSig.AcceptedTextIsAmbiguous | internal/pairflow/pairflow.go:207-226 | the schema lets line breaks through in the ECDH fields: every accepted half with room for four more characters gives two accepted halves with one checked text and different ECDH fields |
| RateLimit.RateLimiter.MatchRule | internal/middleware/middleware.go:134-144 | the loop finds the specified rule and id |
| RateLimit.FirstMatchDecides | internal/middleware/middleware.go:134-144 | that rule is the first route's whose method is the request's or empty and whose prefix the path continues; the fallback's when there is none |
| RateLimit.RouteMatchesExactly | internal/middleware/middleware.go:135-141 | a route matches exactly when its method is the request's or empty and the path is its prefix followed by anything |
| RateExact.ShippedRuleExactly | cmd/interchange/main.go:152-161 | every request to the public listener: which of the four shipped rules it falls under, by method and beginning of the path |
| RateExact.MailboxRules | cmd/interchange/main.go:157-160 | for every path below /mailbox/ a PUT has rate 1 and burst 60, a GET rate 2 and burst 120, and any POST the default |
| RateLimit.RuleIdDeterminesRule | internal/middleware/middleware.go:134-144 | requests mapped to one rule id are mapped to one rule, so no bucket serves two |
| RateLimit.RateLimiter.Allow | internal/middleware/middleware.go:146-170 | the nested-map update equals its specification, the refusal by the cap included |
| RateLimit.RateLimiter.EvictTick | internal/middleware/middleware.go:172-194 | the deleting loops, in any order, leave exactly the buckets that are not idle and no empty rule |
| RateLimit.KeptExactly | internal/middleware/middleware.go:182-190 | a tick keeps exactly the buckets used no longer ago than the idle period, unchanged, and no rule without buckets |
| RateLimit.NewcomerExactly | internal/middleware/middleware.go:155-169 | a client without a bucket is let through exactly while its rule has room and a positive burst, and then holds a full bucket less one token |
| RateLimit.RateLimiter.EvictIps | internal/middleware/middleware.go:182-186 | the inner loop leaves exactly the buckets that are not idle |
| RateLimit.RateLimiter.Admit | internal/middleware/middleware.go:117-128 | one request: match, then allow |
| RateLimit.RateLimiter.constructor | internal/middleware/middleware.go:105-115 | zero settings become ten minutes and 50000 buckets |
| RateRuns.EvictionInvisible | internal/middleware/middleware.go:146-194 | in every run of requests and ticks, whatever a client is told on the calls that the cap did not refuse is exactly what one token bucket of its own, fed with just those calls, would say, when an idle period refills a burst |
| RateRuns.CapRefusal | internal/middleware/middleware.go:155-162 | any other call is refused and leaves the client without a bucket |
| RateExact.InvisibleExactly | internal/middleware/middleware.go:146-194 | what a client is told when it is served is, in all runs, what its own bucket would say exactly when rate * idle covers the burst of its rule |
| RateBounds.WindowBound | internal/middleware/middleware.go:146-194 | with evictions and refusals by the cap, calls let through for one client in [s, t] number at most burst + rate * (t - s) |
| RateExact.BoundedExactly | internal/middleware/middleware.go:146-194 | that bound holds over all windows of all runs exactly when rate * idle covers the burst |
| RateBounds.MapsAlways | internal/middleware/middleware.go:155-166 | in every run no rule holds more buckets than the cap, and every bucket keeps the limits of a rule that requests map to its id |
| RateBounds.KnownClientIndependent | internal/middleware/middleware.go:146-170 | a client that has a bucket gets the same verdict and bucket whoever else is known |
| TokenBucket.LoneBound | internal/middleware/middleware.go:146-170 | a lone token bucket obeys the window bound |
| TokenBucket.RefusesExactly | internal/middleware/middleware.go:146-170 | a lone token bucket lets a call through exactly when every window that ends with it stays within burst + rate * length, so it refuses nothing that the bound allows |
| RateExact.ShippedInvisible | cmd/interchange/main.go:152-161 | under each shipped rule no client can tell whether its bucket was evicted |
| Gateway.Router.Configure | internal/gateway/gateway.go:124-149 | registration in any order and a sort leave exactly the configured routes, longest prefix first; it fails exactly when there is neither a verifier nor bypass, or an address does not parse |
| Gateway.Router.AddProxies | internal/gateway/gateway.go:124-136 | the loop over the route map registers each route once, in any order |
| Gateway.Router.AddHandlers | internal/gateway/gateway.go:137-144 | the loop over the handler map adds each handler once, in any order |
| Gateway.SortLongestFirst | internal/gateway/gateway.go:145-148 | a permutation with the longest prefix first and no promise among equals |
| Gateway.Router.Match | internal/gateway/gateway.go:225-236 | the loop finds the first covering route and what is left of the path |
| Gateway.HitIsLongest | internal/gateway/gateway.go:223-236 | the hit is a covering route than which no covering route is longer; no hit means no route covers the path |
| Gateway.CoversExactly | internal/gateway/gateway.go:227 | a route covers its own prefix and whatever continues it with a slash, and nothing else |
| Gateway.ProxyRouteExactly | internal/gateway/gateway.go:124-136 | a configured backend is gated by the product listed under its key without trailing slashes, and by none if none is listed |
| Gateway.HandlerRouteExactly | internal/gateway/gateway.go:137-144 | a registered handler serves its key without trailing slashes |
| Gateway.OrderFreeExactly | internal/gateway/gateway.go:124-149 | no path tells two sorts of the table apart exactly when different routes have different trimmed prefixes |
| Gateway.RestCompletes | internal/gateway/gateway.go:225-236 | the rest starts with a slash and completes the prefix, unless the path is the prefix |
| Gateway.Router.AddPublic | internal/gateway/gateway.go:113-123 | after registration a path is public exactly when some entry publishes it: itself, or all below it for an entry ending in a slash |
| Gateway.Router.CheckPublic | internal/gateway/gateway.go:211-221 | the check finds whether a path is public |
| Gateway.PublishesExactly | internal/gateway/gateway.go:113-123 | an entry, whatever white space stands around it, publishes all that continues it if it ends in a slash, and else itself |
| Gateway.TrimRight | internal/gateway/gateway.go:129 | only slashes are cut and none is left at the end |
| Identity.Edge.Serve | internal/gateway/gateway.go:163-207 | the step-by-step handler, with the request it changes, equals the specification of routing and lane |
| Identity.Edge.AuthInject | cmd/interchange-gateway/main.go:428-474 | the single-pillar lane: verify, entitle, check audience, strip, stash |
| Identity.Edge.CairnComposite | cmd/interchange-gateway/main.go:487-533 | the cairn lanes: one authentication, then gRPC below /api/ and HTTP elsewhere |
| Identity.Edge.HeraldComposite | cmd/interchange-gateway/main.go:542-583 | the herald lanes: passthrough outside the admin paths, authenticated gRPC on them |
| Identity.Request.StripTrusted | internal/gateway/gateway.go:176-181 | the loop removes the six trusted HTTP names |
| Identity.Request.StripSpoofedIdentity | cmd/interchange-gateway/main.go:589-597 | the loops remove the six names in all three spellings |
| Identity.Request.InjectHttp | internal/gateway/gateway.go:238-247 | the writes give the request the identity's headers |
| Identity.InjectedIsCarried | cmd/interchange-gateway/main.go:601-610 | after stripping, injection leaves exactly the identity's fields under the six names, none overwriting another |
| Identity.OutboundIdentity | cmd/interchange-gateway/main.go:376-583 | on every lane what the gateway hands on carries exactly the identity verified for the request's token, and on tokenless paths none |
| Lanes.PillarExactly | cmd/interchange-gateway/main.go:428-474 | a gRPC pillar answers 401 exactly when nobody is vouched for, 403 to a caller without the product or outside the token's audience, and else hands on the caller and the rest of the path, cleared of the twelve metadata names in any spelling |
| Lanes.CairnExactly | cmd/interchange-gateway/main.go:487-533 | the cairn lanes require the product of everyone; a rest below /api/ goes to gRPC, any other to HTTP with the six headers telling the caller |
| Lanes.HeraldExactly | cmd/interchange-gateway/main.go:542-583 | a rest that begins with /api/orgs or /api/humans/, or is /api/me, answers 401 exactly when nobody is vouched for and else goes to gRPC; any other goes to HTTP whatever the token |
| Lanes.BackendExactly | internal/gateway/gateway.go:163-207 | a reverse-proxied backend: open exactly when bypassed or public; else 401 exactly when nobody is vouched for, 403 without the route's product, and else the six headers tell the caller |
| Lanes.BearerExactly | cmd/interchange-gateway/main.go:613-620 | a request has a token exactly when its first Authorization value is Bearer in any case, a space, and the token |
| Lanes.CallerExactly | cmd/interchange-gateway/main.go:430-443 | the caller is whom the verifier vouches for on that token; without a verifier, the empty identity |
| Lanes.InjectedTells | cmd/interchange-gateway/main.go:601-610 | read under their names in any spelling, the six headers tell the identity's fields, each its own, and all other headers stay |
| Lanes.MetadataExactly | cmd/interchange-gateway/main.go:376-395 | the six metadata names and which field stands under each |
| ReverseProxy.BackendToldExactly | internal/gateway/gateway.go:200-206 | after the reverse proxy of an HTTP lane, the backend is told nothing but the verified identity, and all of it exactly when the client's Connection header names no header that carries one of its fields |
| ReverseProxy.DeliveredExactly | internal/gateway/gateway.go:131-136 | a proxy that drops hop-by-hop headers passes on only what was written, and all of it exactly when no Connection token names a written header |
| ReverseProxy.ReachesExactly | internal/gateway/gateway.go:131-136 | a header reaches the backend exactly when it is none of the nine hop-by-hop headers and no Connection value mentions it, in any spelling |
| ReverseProxy.TokensExactly | internal/gateway/gateway.go:131-136 | commas separate the names in a Connection value, and nothing else does |
| ReverseProxy.NamedIsDropped | internal/gateway/gateway.go:131-136 | a field whose header the Connection header names does not arrive |
| ReverseProxy.IdentityCanBeDropped | internal/gateway/gateway.go:163-207 | a concrete gateway and request: the caller is verified and forwarded, and the backend is not told the org |
| ReverseProxy.DeliveredAlike | internal/gateway/gateway.go:163-207 | two requests that differ only in their lane's identity names reach the backend alike |
| Identity.ClientHasNoSay | cmd/interchange-gateway/main.go:428-597 | two requests that differ only in their lane's identity names get the same decision and the backend gets the same request |
| Identity.ForgeriesChangeNothing | cmd/interchange-gateway/main.go:589-597 | however a client spells, repeats or orders identity headers, the outcome is the one without them |
| Identity.SpellingsShareKey | cmd/interchange-gateway/main.go:589-597 | two names are stored under one key exactly when they differ in letter case only |
| Identity.WritesAreCarried | internal/gateway/gateway.go:238-247 | writes under six distinct keys leave exactly the named fields |

## Left out

- HTTP plumbing, listeners, shutdown, TLS dialing, gRPC registration, environment reading, logging: no property of their own.
- Body size limits (a body cut short does not decode), the `X-Owner-Secret` check, the listing of pending requests, and storage and driver failures.
- Real SHA-256 and Ed25519, and the AEAD example: foreign code and one fixed vector.
- The calendar and JSON code of Go: a timestamp's instant is `Library.parseTime`; a request body that does not decode is `None`; only the object of six strings is parsed character by character. Text is a sequence of characters, so invalid UTF-8 and its replacement are not modelled.
- Times.ParseFormat: the second layout that the reader accepts, which the relay never writes.
- SelfSig.V2UnambiguousExactly: the condition ranges over all halves. Of halves that the schema accepts, those without LF are determined and those of `SelfSig.AcceptedTextIsAmbiguous` are not; which others are is not stated.
- PathId.AddressesKeys: no injectivity of the hash is assumed; the statement carries the collision case instead.
- MailboxRuns.AcceptedAtMostOnce: timestamps 2^63 ns or more ahead of the start and retention below two windows and the gap, for which the promise is false (`Replays.FarTimestampsExactly`, `Replays.RetentionExactly`).
- Mailbox.Handler.Ack: listing and delete are one step, and so is a listing; of the mailbox handlers only PUT is cut in two, at its insert (`MailboxRuns.UninterruptedPut`).
- PairRaces.RunKeeps: a submission, denial or expiry is one step; only approvals are cut into their database calls. The first read of an approval includes its checks, which touch no table.
- RateLimit.RateLimiter.Allow: the two clock readings of a call are one instant, arithmetic has no rounding, and buckets are values in the map, not shared objects. Deriving the client's address from headers is not part of this model.
- RateBounds.WindowBound: rules whose idle period does not refill a burst, for which the bound is false (`RateExact.BoundedExactly`).
- Gateway.SortLongestFirst: `sort.Slice` is any permutation by length; which one is not modelled.
- ReverseProxy.BackendToldExactly: the headers that the reverse proxy adds on its own (X-Forwarded-For, and Connection, Upgrade and Te where it restores them), none of which carries identity.
- Identity.OutboundIdentity: the context of a verifier call; a verifier is any function of the token. That gRPC metadata is the client's prefixed headers joined with the annotator's values is the behaviour of grpc-gateway, which is not part of this model.
- Identity.SpellingsShareKey: names with characters that HTTP forbids, which the server refuses before any handler runs.
- Herald's token verification, the discovery document, the landing page, and the native gRPC interceptors of `internal/edge`.
