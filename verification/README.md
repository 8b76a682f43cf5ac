# Hiraeth: verified models

Hiraeth is a local emulator of SQS, SNS, IAM and STS, written in Rust. This project models the
parts of it whose correctness does not show in any single function, and proves what they promise.

| file | what it holds |
|---|---|
| `MessageTable.dfy` | the `sqs_messages` table: which rows a receive takes, the update it makes, the counts, draining a queue |
| `MessageStore.dfy` | the store object; each operation changes the table in place and is a step of a run |
| `LeaseProtocol.dfy` | runs of many clients; a receive or a visibility change reads the clock in one step and touches the table in a later one |
| `LeaseTheorems.dfy` | steady runs, dead handles, counts, isolation |
| `LeaseHistory.dfy` | what the steps of a run did to a row: its receives in order, current holder, delay and retention |
| `LeaseRequests.dfy` | what clients asked for and what they get: lease exclusion and the exact time at which a message can be received |
| `EarlyReceives.dfy` | when a message can be received before its delay has passed |
| `QueueListing.dfy` | listing queues with a name as the cursor, while queues come and go |
| `UriEncoding.dfy`, `CanonicalQuery.dfy`, `SignedHeaders.dfy`, `CanonicalRequest.dfy` | the canonical request of AWS Signature Version 4 |
| `AuthorizationHeader.dfy` | parsing the `Authorization` header |
| `AttributeDigest.dfy` | the bytes that the message-attribute digest hashes |
| `TraceForest.dfy`, `TraceNesting.dfy`, `TraceLayout.dfy` | trace spans, their parents and depth, and the picture of a trace |
| `PolicyDecision.dfy` | the authorization decision |
| `RequestIds.dfy` | rewriting request ids in response bodies |
| `PolicyArns.dfy` | policy ARNs and policy paths |
| `IndexedParams.dfy` | maps spread over indexed request parameters |
| `Wrappers.dfy`, `Texts.dfy`, `Sorting.dfy`, `Splits.dfy`, `Tokens.dfy`, `Trims.dfy` | options and results, text order, sorting, splitting and joining, pieces between separators, trimming |

`dafny verify dfyconfig.toml` checks everything.

## How the model reads the code

- **Time.** A time is a whole number of nanoseconds. The clock is part of a run's state. It may jump
  either way, except in runs called steady. The second clock reading of a receive is not earlier
  than its first.
- **Transactions.** A statement, or a block from BEGIN to COMMIT, is one atomic step. Row ids follow
  `INTEGER PRIMARY KEY` without `AUTOINCREMENT`: one more than the largest id in use, so an id can
  come back after its row is deleted. A row's history starts at its own insertion for that reason.
- **Randomness.** Receipt handles and span ids are drawn fresh, and span ids are not empty
  (`hiraeth_core/src/tracing.rs:237-243`). `CollidingIdsLoop` shows what happens to the trace viewer
  when a span id, which the code takes from a nanosecond clock, is not fresh.
- **Library sorts** promise a sorted permutation only. `IsSortOf` is that promise, and the lemmas show
  that every outcome it admits gives the same result.
- **Texts** in the signing code are UTF-8 bytes, one `char` per byte. White space there is ASCII
  white space, because header values reach that code as visible ASCII
  (`hiraeth_http/src/incoming_request.rs:34`).
- **Parameters.** The payload hash, base64 decoding, wildcard matching and the parsing of policy
  documents are function parameters; every result holds for all of them.

## Properties that hold only under a condition

- A later request-id rewrite undoes an earlier one on every body exactly when the earlier id, put
  before a closing tag, contains no earlier closing tag (`LastRewriteWinsIff`). Ids without `<` qualify.
- A created policy is found again by the ARN shown for it exactly when its trimmed path has no
  doubled slash at its ends, or is `//` itself, and no colon (`CreatedPolicyIsFoundIff`; the names
  that creation accepts and account numbers meet the rest of its condition). Validation accepts
  `/a:b/` (`ColonPathIsLost`).
- An edge of a trace picture points down exactly when its span does not take a span with the empty id
  for its parent (`EdgeDownwardIff`).
- The depth of every trace span is defined exactly when the stored pairs of span id and parent id
  contain no cycle (`RankedIffAcyclic`); a child that draws its parent's id makes one.
- Decoding indexed parameters is independent of hash-map order exactly when the pairs of the request
  with the same key agree on the value (`DeterminedIff`).
- A digest buffer reads back as the entries it was made of exactly when every field is shorter than
  2^32 bytes (`ReadInvertsBufferIff`), because lengths are cut to 32 bits. Among requests
  that pass validation only values can be that long, and two such requests with different attributes
  can have the same buffer (`LongValuesCollide`).
- From a reachable state a message can be received before its delay has passed, without a further
  visibility change of it, exactly when its visible_at is before both sent + delay and sent +
  retention (`EarlyCanFollowIff`). A visibility change puts it there, so it never happens when all
  changes are to times at or after sent + delay (`RetentionInEveryRun`), nor when the clock does not
  go back and changes use handles that were handed out (`DelayAndRetention`). With a clock that goes
  back once it can happen (`ClockBackEarlyReceive`).

## Model

| member | source | states |
|---|---|---|
| `MessageTable.SelectedIffOldest` | hiraeth_store_sqlx/src/sqs.rs:286-293 | a set of rows is what a receive takes iff it holds only rows of the queue with visible_at <= now < expires_at, each before every such row left out by (sent_at, id), at most limit of them, and exactly limit if one is left out; a negative limit leaves none out |
| `MessageTable.DrainSizes` | hiraeth_store_sqlx/src/sqs.rs:286-318 | at one `now`, with leases ending later, call i of repeated receives returns min(limit, n - limit * i) rows, then none |
| `MessageTable.DrainCalls` | hiraeth_store_sqlx/src/sqs.rs:286-318 | exactly the first ceil(n / limit) calls return something |
| `MessageTable.DrainOrder` | hiraeth_store_sqlx/src/sqs.rs:286-318 | no row is returned twice, and every row comes before those of later calls by sent_at and then id |
| `MessageTable.DrainIsComplete` | hiraeth_store_sqlx/src/sqs.rs:286-318 | enough calls return every eligible row |
| `MessageStore.SqliteStore.constructor` | hiraeth_store_sqlx/migrations/20260402132203_SQSMessage.sql:1-15 | the table starts empty |
| `MessageStore.SqliteStore.NextRowId` | hiraeth_store_sqlx/migrations/20260402132203_SQSMessage.sql:2 | a new row gets one more than the largest id in use |
| `MessageStore.SqliteStore.SendMessage` | hiraeth_store_sqlx/src/sqs.rs:240-262 | reports a conflict and changes nothing iff a row has the message id, and otherwise inserts the row under the next id; it performs the enqueue step of a run |
| `MessageStore.SqliteStore.FindOldest` | hiraeth_store_sqlx/src/sqs.rs:291 | finds the row before all others in the order (sent_at, id) |
| `MessageStore.SqliteStore.SelectOldest` | hiraeth_store_sqlx/src/sqs.rs:288-293 | selects the oldest eligible rows up to the limit |
| `MessageStore.SqliteStore.ReceiveMessages` | hiraeth_store_sqlx/src/sqs.rs:264-338 | returns the first rows that are due, up to the limit, hidden until the given time, with the drawn handle, a count one higher and the first receive time kept or set; leaves all others as they were; it performs the receive step of a run |
| `MessageStore.SqliteStore.CountWhere` | hiraeth_store_sqlx/src/sqs.rs:342-346 | visiting the rows one by one counts those that match |
| `MessageStore.SqliteStore.DeleteWhere` | hiraeth_store_sqlx/src/sqs.rs:382-388 | visiting the rows one by one removes those that match, leaves every other row as it was and gives their number |
| `MessageStore.SqliteStore.UpdateWhere` | hiraeth_store_sqlx/src/sqs.rs:402-410 | visiting the rows one by one changes those that match, leaves every other row as it was and gives their number |
| `MessageStore.SqliteStore.DeleteMessage` | hiraeth_store_sqlx/src/sqs.rs:381-394 | the scan removes the rows of the queue that carry the handle, and no others; NotFound iff there is none; it performs the delete step of a run |
| `MessageStore.SqliteStore.DeleteMessageById` | hiraeth_store_sqlx/src/sqs.rs:90-109 | the scan removes the named message of the queue, and no other; NotFound iff there is none; it performs the delete-by-id step of a run |
| `MessageStore.SqliteStore.SetMessageVisibleAt` | hiraeth_store_sqlx/src/sqs.rs:396-415 | the scan moves the visibility of the rows that carry the handle and of no others; NotFound iff there is none; it performs the visibility-change step of a run |
| `MessageStore.SqliteStore.PurgeQueue` | hiraeth_store_sqlx/src/sqs.rs:473-479 | the scan removes all rows of the queue and no others; it performs the purge step of a run |
| `MessageStore.SqliteStore.GetMessageCount` | hiraeth_store_sqlx/src/sqs.rs:340-351 | the scan counts the rows that have not expired, the total of `CountsPartition` |
| `MessageStore.SqliteStore.GetVisibleMessageCount` | hiraeth_store_sqlx/src/sqs.rs:353-365 | the scan counts the rows a receive may take |
| `MessageStore.SqliteStore.GetMessagesDelayedCount` | hiraeth_store_sqlx/src/sqs.rs:367-379 | the scan counts the hidden rows without a handle |
| `LeaseProtocol.ResolveDelay` | hiraeth_sqs/src/util.rs:310-322 | the requested delay, or else the queue's, is accepted iff it lies within 0..900 |
| `LeaseProtocol.NewRowInv` | hiraeth_sqs/src/operations.rs:28-56 | an enqueued row is visible at sent + delay, expires at sent + retention and has no receive behind it |
| `LeaseProtocol.StepKeepsInv` | hiraeth_store_sqlx/src/sqs.rs:240-415 | every step of every client keeps the invariant that ties rows to their histories and keeps handles unique |
| `LeaseProtocol.RunInv` | hiraeth_store_sqlx/src/sqs.rs:240-415 | the invariant holds in every state of every run |
| `LeaseRequests.MessageIdsUnique` | hiraeth_store_sqlx/migrations/20260402132203_SQSMessage.sql:4 | in every reachable state a message id names at most one row |
| `LeaseTheorems.SteadyRunInv` | hiraeth_sqs/src/actions/change_message_visibility.rs:58-64 | in a steady run no visibility change moves the end of a lease before its start |
| `LeaseTheorems.DeadHandlesStayDead` | hiraeth_store_sqlx/src/sqs.rs:294-296 | a handle that was handed out and is held by no row matches no row in any later state |
| `LeaseTheorems.CountsPartition` | hiraeth_store_sqlx/src/sqs.rs:340-379 | at one instant live = visible + delayed + hidden and already received |
| `LeaseTheorems.StepIsolation` | hiraeth_store_sqlx/src/sqs.rs:264-415 | a step that addresses another queue leaves a queue's rows exactly as they were |
| `LeaseTheorems.QueueIsolation` | hiraeth_store_sqlx/src/sqs.rs:264-479 | the same over any stretch of a run |
| `LeaseTheorems.OnlyRemovalRemoves` | hiraeth_store_sqlx/src/sqs.rs:90-109 | without a delete or a purge a message stays in the table, expired or not, with its content unchanged |
| `LeaseRequests.LeaseExclusion` | hiraeth_store_sqlx/src/sqs.rs:264-338 | in every run, with stale clock readings and any interleaving: of two receive steps that return a row, with the row in the table and no visibility change of it between them, the later read the clock at or after the second reading of the earlier plus the timeout it asked for, so the windows they asked for are disjoint |
| `LeaseRequests.ChangedTimeoutIsKept` | hiraeth_sqs/src/actions/change_message_visibility.rs:58-64 | the same after a visibility change: the next receive read the clock at or after the reading of the change plus the timeout it asked for |
| `LeaseRequests.PendingReceiveIsAsked` | hiraeth_store_sqlx/src/sqs.rs:264-278 | what a client has pending is the queue, limit, clock readings and timeout of the step with which it last began a receive |
| `LeaseRequests.PendingChangeIsAsked` | hiraeth_sqs/src/actions/change_message_visibility.rs:58-64 | the same for a visibility change |
| `LeaseRequests.ReceiveDoesWhatWasAsked` | hiraeth_store_sqlx/src/sqs.rs:286-318 | a row that a receive returns is of the queue asked for, visible and not expired at the first clock reading, and afterwards hidden until the second reading plus the timeout in seconds |
| `LeaseRequests.ChangeDoesWhatWasAsked` | hiraeth_store_sqlx/src/sqs.rs:396-415 | a visibility change reaches a row iff queue and handle are those asked for, and hides it until its clock reading plus the timeout in seconds |
| `LeaseRequests.NewMessageReceivable` | hiraeth_sqs/src/operations.rs:28-56 | until a receive or a change touches it, an enqueued message can be received exactly from sent + delay until sent + retention |
| `LeaseRequests.ReceivedMessageReceivable` | hiraeth_store_sqlx/src/sqs.rs:264-318 | after a receive, until it is touched again, a message can be received exactly from the end of the timeout asked for until the end of its retention |
| `LeaseRequests.ChangedMessageReceivable` | hiraeth_store_sqlx/src/sqs.rs:396-415 | the same after a visibility change |
| `LeaseHistory.ReceiptsAreReturns` | hiraeth_store_sqlx/src/sqs.rs:264-338 | the receives listed for a row are exactly the steps that returned it and after which it stayed in the table |
| `LeaseHistory.GrantsAreReceives` | hiraeth_store_sqlx/src/sqs.rs:264-338 | the leases that a state records for a row are, in order, those receives: window, drawn handle, whether a visibility change reached it, and where it ends after those changes |
| `LeaseHistory.HistoryIsRecorded` | hiraeth_store_sqlx/src/sqs.rs:294-296 | receive_count is the number of receives of the run that returned the row since its insertion, first_received_at the `now` of the first, receipt_handle the one the last drew, visible_at where the last lease ends; without a receive both are absent |
| `LeaseHistory.CurrentHolderOnly` | hiraeth_store_sqlx/src/sqs.rs:381-415 | in every reachable state a handle matches a row of a queue iff the latest receive step of that row drew it, and it matches at most one row |
| `LeaseHistory.SupersededHandleIsDead` | hiraeth_store_sqlx/src/sqs.rs:381-415 | a handle drawn by a receive step before the row's latest one matches nothing, then and in every later state, and deleting or changing visibility with it changes nothing |
| `LeaseHistory.EffectiveLeaseExclusion` | hiraeth_store_sqlx/src/sqs.rs:264-338 | in a steady run every lease of a row ends, visibility changes included, before the `now` of every later receive of it |
| `LeaseHistory.BornByEnqueue` | hiraeth_sqs/src/operations.rs:28-56 | a row in the table was inserted by an enqueue step of the run, whose content and times it carries, and has stayed since |
| `LeaseHistory.DelayAndRetention` | hiraeth_sqs/src/operations.rs:28-56 | in a steady run every receive of a message lies at or after sent + delay and before sent + retention |
| `LeaseHistory.RetentionInEveryRun` | hiraeth_store_sqlx/src/sqs.rs:290 | in every run no receive is at or after sent + retention, and none is before sent + delay if it is the first or every visibility change that reached the row before it was to a time at or after sent + delay |
| `EarlyReceives.ReceiveUntil` | hiraeth_store_sqlx/src/sqs.rs:286-318 | from any reachable state, receives of one message each at one time reach every row that is eligible at that time |
| `EarlyReceives.EarlyCanFollowIff` | hiraeth_store_sqlx/src/sqs.rs:396-415 | from a reachable state a message can be received before sent + delay, without a further visibility change of it, iff its visible_at is before sent + delay and before sent + retention; receives alone get there, visible_at is where the last lease ends, and an earlier change was to a time before sent + delay |
| `EarlyReceives.ClockBackEarlyReceive` | hiraeth_sqs/src/actions/change_message_visibility.rs:58-64 | a run whose clock goes back once, with receives of one message, receives a message before its delay has passed |
| `QueueListing.ListingContents` | hiraeth_store_sqlx/src/sqs.rs:417-471 | a listing holds, in byte order, the first names of queues of the region and account with the prefix and after the token, up to the limit or 1000 without one |
| `QueueListing.PageContents` | hiraeth_sqs/src/actions/list_queues.rs:78-102 | a page holds the first names of those, up to its size, and hands out its last name as a cursor iff it leaves one out |
| `QueueListing.WalkAscends` | hiraeth_store_sqlx/src/sqs.rs:417-471 | later pages list only later names, whatever happens to the store between calls |
| `QueueListing.WalkListsStableQueues` | hiraeth_store_sqlx/src/sqs.rs:417-471 | a finished walk lists every matching queue that exists throughout on exactly one page |
| `QueueListing.NextShrinks` | hiraeth_store_sqlx/src/sqs.rs:447-449 | following a cursor leaves strictly fewer candidates, so a walk over an unchanged store stops |
| `QueueListing.WalkIsWholeListing` | hiraeth_sqs/src/actions/list_queues.rs:78-102 | on an unchanged store the pages add up to all wanted names in byte order |
| `UriEncoding.UriEncode` | hiraeth_auth/src/sig_v4.rs:278-297 | the loop computes the encoding that the lemmas below speak about |
| `UriEncoding.DecodeInvertsEncode` | hiraeth_auth/src/sig_v4.rs:278-297 | percent-decoding gives back every byte sequence, in both slash modes |
| `UriEncoding.EncodingOfBytes` | hiraeth_auth/src/sig_v4.rs:282-294 | byte by byte, a letter, a digit, '-', '_', '.', '~' and, in path mode, '/' stand for themselves, and every other byte becomes '%' and its two upper-case hexadecimal digits |
| `UriEncoding.EncodeKeepsIff` | hiraeth_auth/src/sig_v4.rs:283-287 | a text is its own encoding iff it consists of those bytes |
| `UriEncoding.EncodeAlphabet` | hiraeth_auth/src/sig_v4.rs:283-293 | the output holds only those bytes and '%' |
| `UriEncoding.PolicyDocumentEncodingAgrees` | hiraeth_iam/src/actions/get_policy_version.rs:148-158 | the policy-document encoder equals the signing encoder on every input |
| `CanonicalQuery.ParsePair` | hiraeth_auth/src/sig_v4.rs:206-211 | a pair splits at its first '='; without one the whole is the key |
| `CanonicalQuery.ExtractQueryParams` | hiraeth_auth/src/sig_v4.rs:202-225 | returns the pairs of the query in the byte order of their encoded keys and, for one key, of their encoded values |
| `CanonicalQuery.ParamOrderSeparates` | hiraeth_auth/src/sig_v4.rs:213-220 | pairs that compare equal are equal |
| `CanonicalQuery.AnySortGivesQueryString` | hiraeth_auth/src/sig_v4.rs:213-220 | every outcome of the unstable sort gives the same string |
| `CanonicalQuery.QueryStringIff` | hiraeth_auth/src/sig_v4.rs:250-262 | two queries have the same canonical string iff they hold the same multiset of pairs |
| `CanonicalQuery.ReorderingIsInvisible` | hiraeth_auth/src/sig_v4.rs:202-225 | reordering the '&'-separated pieces does not change the string |
| `CanonicalQuery.QueryStringReadsBack` | hiraeth_auth/src/sig_v4.rs:250-262 | read as a query again, the canonical string holds the pairs, encoded and in that order; without a query it is empty |
| `SignedHeaders.CanonicalizeSignedHeaders` | hiraeth_auth/src/sig_v4.rs:264-272 | the names come out in strict byte order and are exactly the texts without upper-case letters that are, but for the case, among the given ones |
| `SignedHeaders.CanonicalNamesIff` | hiraeth_auth/src/sig_v4.rs:264-272 | two lists of names have the same canonical list iff each names, but for the case, what the other names |
| `SignedHeaders.WordsIff` | hiraeth_auth/src/sig_v4.rs:274-276 | the words of a value are the only non-empty texts it consists of, with tabs, line and form feeds, carriage returns and spaces between and around them |
| `SignedHeaders.NormalizeIs` | hiraeth_auth/src/sig_v4.rs:274-276 | a value normalises to its words with one space between them |
| `SignedHeaders.NormalizeIff` | hiraeth_auth/src/sig_v4.rs:274-276 | two values normalise alike iff they consist of the same words |
| `SignedHeaders.NormalizeKeepsWords` | hiraeth_auth/src/sig_v4.rs:274-276 | normalising keeps the words and is idempotent |
| `CanonicalRequest.ExtractSignedHeaders` | hiraeth_auth/src/sig_v4.rs:227-240 | succeeds iff every name has a value; otherwise reports the first missing one |
| `CanonicalRequest.CreateCanonicalRequest` | hiraeth_auth/src/sig_v4.rs:175-200 | succeeds iff all signed headers are present, and then builds the canonical text |
| `CanonicalRequest.CanonicalUriIff` | hiraeth_auth/src/sig_v4.rs:242-248 | two paths have the same canonical form iff they are equal, the empty path counting as "/" |
| `CanonicalRequest.CanonicalTextReadsBack` | hiraeth_auth/src/sig_v4.rs:175-200 | split at its newlines, a canonical text is the method, the encoded path, the canonical query, a line "name:value" per signed header, an empty line, the names between semicolons and the body hash |
| `CanonicalRequest.CanonicalTextIff` | hiraeth_auth/src/sig_v4.rs:175-297 | two canonical texts are equal iff method, path, multiset of query pairs, signed headers, words of the signed values and body hash agree |
| `CanonicalRequest.CanonicalRequestIff` | hiraeth_auth/src/sig_v4.rs:175-297 | the same for header names as a client lists them: only which headers they name matters, not the case |
| `AuthorizationHeader.LastValues` | hiraeth_auth/src/sig_v4.rs:108-122 | the loop finds the last value of each key, or a pair without '=' |
| `AuthorizationHeader.ExtractParams` | hiraeth_auth/src/sig_v4.rs:86-173 | the parser returns what the header means, error cases in the order of the code |
| `AuthorizationHeader.ParsePrinted` | hiraeth_auth/src/sig_v4.rs:86-173 | any list of printed fields parses to the parameters assembled from the last field of each key, whatever the order, other keys and padding |
| `AuthorizationHeader.HeaderRoundTrip` | hiraeth_auth/src/sig_v4.rs:86-173 | parameters printed in any order of the three fields, with any padding, parse back to themselves |
| `AuthorizationHeader.HeaderOutcome` | hiraeth_auth/src/sig_v4.rs:92-122 | every header: without a space, with a word other than AWS4-HMAC-SHA256 before it, or with a piece that has no '=', the error of that check; any other header is a list of printed fields and means what the last field of each key says |
| `AuthorizationHeader.AssembleOkIff` | hiraeth_auth/src/sig_v4.rs:124-172 | parameters come out iff the credential is the four parts and aws4_request between slashes, the header list consists of the names with semicolons between and around them, and the signature is not empty |
| `AuthorizationHeader.AssembleErrors` | hiraeth_auth/src/sig_v4.rs:124-163 | which error is reported for which values, in the order of the checks |
| `AttributeDigest.Resolve` | hiraeth_sqs/src/util.rs:231-257 | an entry carries the name and data type, and kind 2 with the decoded binary value if the type starts with "Binary" or else kind 1 with the string value; which error a missing or undecodable value gives |
| `AttributeDigest.AppendLengthPrefixed` | hiraeth_sqs/src/util.rs:305-308 | what is appended reads back as the bytes up to their length modulo 2^32, and as all of them iff there are fewer than 2^32 |
| `AttributeDigest.AppendEntry` | hiraeth_sqs/src/util.rs:227-257 | appends name, data type, kind byte and value in this order |
| `AttributeDigest.AppendAll` | hiraeth_sqs/src/util.rs:227-258 | the loop gives the buffer, or the first error in the order of the names |
| `AttributeDigest.CalculateBuffer` | hiraeth_sqs/src/util.rs:220-261 | from any iteration order of the map, the buffer of the map with its names in byte order |
| `AttributeDigest.BufferDetermined` | hiraeth_sqs/src/util.rs:220-261 | every iteration order gives the same buffer or the same error |
| `AttributeDigest.ReadInvertsBufferIff` | hiraeth_sqs/src/util.rs:220-261 | reading a buffer gives back exactly its list of names, data types, kinds and values iff every field is shorter than 2^32 bytes |
| `AttributeDigest.BufferIff` | hiraeth_sqs/src/util.rs:220-261 | two maps with fields shorter than 2^32 bytes give the same buffer iff they hold the same entries |
| `AttributeDigest.ValidNameIff` | hiraeth_sqs/src/util.rs:151-184 | a name is accepted iff it has at most 256 bytes, consists of non-empty pieces of letters, digits, '_' and '-' between periods, and does not start with "aws." in any case |
| `AttributeDigest.ValidIsDigestedIff` | hiraeth_sqs/src/util.rs:113-261 | an accepted map is digested iff the binary values of its Binary attributes decode, and no other error is left |
| `AttributeDigest.SwallowedEntries` | hiraeth_sqs/src/util.rs:305-308 | entries whose bytes add up to a multiple of 2^32 can be hidden in the value of the entry before them without a trace in the buffer |
| `AttributeDigest.LongValuesCollide` | hiraeth_sqs/src/util.rs:113-261 | so two attribute maps that pass validation and hold different entries have the same buffer |
| `TraceForest.StepKeepsInv` | hiraeth_core/src/tracing.rs:122-172 | every step keeps each span's parent issued before the span |
| `TraceNesting.RecordFollowsCalls` | hiraeth_core/src/tracing.rs:122-172 | at every level of nesting a record carries the request id at the root of its context, the id its timer drew, and as parent the id of the span whose timer made the context it was started in, or none in a new context |
| `TraceForest.RunsGiveForests` | hiraeth_core/src/tracing.rs:122-172 | after every run any stored records, some lost, in any order, have parent links that end |
| `TraceNesting.DepthIsNesting` | hiraeth_web/src/traces.rs:570-584 | after every run the depth of a stored span is the number of spans in the unbroken line of stored spans around it, counting itself |
| `TraceNesting.ChildIsOneDeeper` | hiraeth_web/src/traces.rs:570-584 | a stored span is one level deeper than the stored span around it |
| `TraceForest.CollidingIdsLoop` | hiraeth_core/src/tracing.rs:237-243 | a child that draws its parent's id has no finite chain of ancestors |
| `TraceForest.IndexById` | hiraeth_web/src/traces.rs:424-428 | the index maps every span id to the last span with that id |
| `TraceForest.DepthIsChainLength` | hiraeth_web/src/traces.rs:570-584 | the depth of a span is the length of its chain of recorded ancestors, counting itself |
| `TraceForest.RankedIffChains` | hiraeth_web/src/traces.rs:570-584 | the depth recursion ends for every span iff every span has a finite chain |
| `TraceForest.RankedIffAcyclic` | hiraeth_web/src/traces.rs:570-584 | it ends for every span iff the stored pairs of span id and parent id contain no cycle |
| `TraceForest.DepthBound` | hiraeth_web/src/traces.rs:570-584 | no span is deeper than the number of spans |
| `TraceLayout.AssignRows` | hiraeth_web/src/traces.rs:440-446 | a span's row is the number of earlier spans of its depth |
| `TraceLayout.Largest` | hiraeth_web/src/traces.rs:448 | the maximum of a non-empty list |
| `TraceLayout.PlaceEdge` | hiraeth_web/src/traces.rs:477-558 | an edge joins the bottom centre of the parent's rectangle to a point 8 above the top centre of the span's, with an arrow head of 10 by 8 there |
| `TraceLayout.PlaceNodes` | hiraeth_web/src/traces.rs:468-559 | one rectangle and one edge per span, each at its depth and row |
| `TraceLayout.EdgeDownwardIff` | hiraeth_web/src/traces.rs:545-552 | an edge points down iff its span does not take a span with the empty id for its parent |
| `TraceLayout.TraceGraphView` | hiraeth_web/src/traces.rs:411-568 | every rectangle lies where its level and its place on that level put it, with the sizes of the code; rectangles are pairwise disjoint and inside the picture; edges join the last span with the named id, or the root, to the span, in both modes; sizes fit 32 bits up to ten million spans |
| `TraceLayout.NonEmptyIdsPointDown` | hiraeth_web/src/traces.rs:411-568 | with non-empty span ids every edge points down |
| `PolicyDecision.CombineDecides` | hiraeth_iam/src/authorize.rs:164-176 | the fold is deny-overrides: a denial anywhere decides, then an allowance anywhere |
| `PolicyDecision.EvaluateDecides` | hiraeth_core/src/auth/eval.rs:52-85 | the same for the statements of a policy |
| `PolicyDecision.CombineEqualsFlat` | hiraeth_iam/src/authorize.rs:178-232 | evaluating policies and combining equals evaluating their concatenated statements |
| `PolicyDecision.ResourceMatchesIff` | hiraeth_core/src/auth/eval.rs:11-34 | a statement of a resource policy takes part iff its lists name the action, the resource and the requester: anyone, the account, or the same kind of principal with every part matching |
| `PolicyDecision.IdentityMatchesIff` | hiraeth_core/src/auth/eval.rs:36-50 | a statement of an identity policy takes part iff it lists no principal and names the action and the resource |
| `PolicyDecision.ExactPatterns` | hiraeth_core/src/auth/eval.rs:87-150 | with patterns that match only themselves, the requester, its account or anyone must be listed |
| `PolicyDecision.EnforceAllowsIff` | hiraeth_iam/src/authorize.rs:32-96 | enforcing allows iff every document is read and parses, no statement that takes part denies and one allows; the other modes always allow |
| `PolicyDecision.DecisionDependsOnStatementSet` | hiraeth_iam/src/authorize.rs:32-96 | reordering, repeating or moving statements between documents or policy kinds changes no decision, in any mode |
| `RequestIds.ReplaceElements` | hiraeth_runtime/src/serve.rs:222-246 | for any pair of tags the loop stops and gives the body with every closed element refilled |
| `RequestIds.ReplaceXmlRequestIds` | hiraeth_runtime/src/serve.rs:222-246 | with the tags of RequestId elements |
| `RequestIds.FoundFirst` | hiraeth_runtime/src/serve.rs:228-235 | a tag is found at its first occurrence, and not found iff it does not occur |
| `RequestIds.WeaveInvertsParts` | hiraeth_runtime/src/serve.rs:228-244 | the texts outside and inside the closed elements add up to the body |
| `RequestIds.PartsOfRewritten` | hiraeth_runtime/src/serve.rs:222-246 | after a rewrite with a clean id the same texts are outside and the id is everywhere inside |
| `RequestIds.LastRewriteWinsIff` | hiraeth_runtime/src/serve.rs:222-246 | a later rewrite undoes an earlier one on every body, nested and unclosed tags included, iff the earlier id is clean |
| `RequestIds.RequestIdRewriteWins` | hiraeth_runtime/src/serve.rs:222-246 | so it does for every id without '<' |
| `PolicyArns.ParseInvertsPrint` | hiraeth_iam/src/actions/util.rs:180-215 | a printed ARN is that of the account with an empty region, and parsing it gives back the account, the normalised path and the name |
| `PolicyArns.ParseOkIff` | hiraeth_iam/src/actions/util.rs:180-215 | an ARN parses iff it is "arn:aws:iam", anything, an account and "policy" with a path between slashes and a name, and gives these parts; it is reported as no ARN iff it has not the six parts of one |
| `PolicyArns.PathFormsAre` | hiraeth_core/src/arn_util.rs:15-23 | with blanks around it ignored, the printed form of a path has one slash on either side of what is between its outer slashes, and the stored form keeps these and adds one where there is none |
| `PolicyArns.SlashOnlyForms` | hiraeth_iam/src/actions/util.rs:292-309 | of slashes alone the stored form keeps all and the printed form at most two; an empty or absent path is "/" |
| `PolicyArns.StoredPathIsPrintedIff` | hiraeth_iam/src/actions/util.rs:292-309 | the stored form of a path equals its printed form iff the trimmed path has no doubled slash at its ends, or is "//" |
| `PolicyArns.StoredPrintsAlike` | hiraeth_iam/src/actions/util.rs:86-98 | printing the stored path prints what the path of the request would print |
| `PolicyArns.CreatedPolicyIsFoundIff` | hiraeth_iam/src/actions/get_policy.rs:55-64 | for all accounts, paths and names: the ARN shown for a created policy parses back to its account, stored path and name iff the trimmed path has no doubled slash at its ends, or is "//", the path, the account and the name hold no colon, and the name is not empty and holds no slash |
| `PolicyArns.ColonPathIsLost` | hiraeth_iam/src/actions/util.rs:229-252 | the path "/a:b/" passes validation, and the ARN of no policy under it parses back |
| `IndexedParams.CollectEntries` | hiraeth_sns/src/actions/action_support.rs:389-402 | from any order of the parameters, each index gets the two values the parameters give it |
| `IndexedParams.CollectComplete` | hiraeth_sns/src/actions/action_support.rs:404-407 | keeps the complete entries, the last one read of each key |
| `IndexedParams.Decode` | hiraeth_sns/src/actions/action_support.rs:381-411 | the decoder, for any order of both hash maps |
| `IndexedParams.OrderIrrelevantIff` | hiraeth_sns/src/actions/action_support.rs:404-407 | the outcome is independent of the order iff entries with one key agree on its value |
| `IndexedParams.DeterminedIff` | hiraeth_sns/src/actions/action_support.rs:381-411 | the request decides the decoded map, whatever the order of both hash maps, iff its pairs with one key agree on the value |
| `IndexedParams.DecodeInvertsSpelling` | hiraeth_sns/src/actions/action_support.rs:326-411 | decoding the parameters of a map gives that map back, in every order |
| `IndexedParams.DecodeTags` | hiraeth_sns/src/actions/action_support.rs:376-411 | from Tags.member.N.Key and .Value: exactly the keys of the pairs, each with the value of one of its pairs; a map that the parameters spell comes back; it is the only outcome iff pairs with one key agree |
| `IndexedParams.DecodeAttributes` | hiraeth_sns/src/actions/action_support.rs:326-355 | the same from Attributes.entry.N.key and .value |

## Left out

- SQLite itself, connection pools, error texts and the failure of a clock addition to fit its type: a statement either takes effect or does not.
- Deleting a queue and the cascade to its messages; the foreign key of a message to its queue is not checked when it is sent.
- Message bodies, groups, deduplication ids and trace headers beyond the body text: no modelled operation depends on them.
- The order in which RETURNING lists the rows of a receive: SQLite does not promise one, so results are maps from row ids.
- `MaxResults` absent in a queue listing: the handler then asks for the store's default of 1000 names and gives no cursor.
- SHA-256, HMAC, MD5 and the signature comparison: the proofs are about the bytes fed to them.
- The MD5 step and the message texts of digest errors.
- An absent `Authorization` header, and the comparison of the credential date with `x-amz-date`: one branch each.
- Non-ASCII white space in header values: such values do not reach the signing code.
- `with_aws_request_id`: a header push and a call to the modelled rewrite; it would only add an easy member.
- `user_arn`: the policy printer with another word in it.
- Labels, CSS classes and identifiers of trace pictures: nodes are numbered instead.
- The trace span that `authorize` records, and the mapping from request principals to policy principals.
- HTTP serving, routing, per-action handlers, templates, configuration and validators of single fields: each is settled by reading one branch.
