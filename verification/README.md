# A verified model of the help-desk API

The API of the help desk is, for the most part, queries and HTTP. Inside it are
algorithms and protocols that have to be right for every input and over every run.
This project models those in Dafny and proves it of them.

| module | what it models |
|---|---|
| `Dependencies` | the graph of project dependencies and the search that keeps it acyclic |
| `DecisionAlerts`, `DecisionAlertOrder`, `DecisionAlertRuns`, `LoneScans` | the scan that alerts people to open decisions: alone, with other scans interleaved, and that the two models agree |
| `WorkerPool` | the bounded worker pool of the OneNote import, under every interleaving |
| `Base32`, `Base32Bits`, `Totp`, `TotpValues` | the codec of secrets and the time-based one-time codes, and both held against their standards |
| `CivilDates`, `Holidays`, `OperatingHours`, `OpeningRules` | the calendar, the federal holidays and the search for the next time a mailbox may be synced |
| `Ingestion`, `IngestionSteps`, `AttachmentRetries`, `AttachmentSteps` | the ingestion of mail batches that overlap, and the repeated tries to store attachments |
| `Csv`, `CalendarText` | two printers, with the parsers that undo them |
| `Sorting`, `AttachmentLists`, `AttachmentPages` | lists merged from truncated queries, against the merge of everything |
| `Slugs`, `SlugWords`, `KnowledgeArticles`, `ArticleRules` | unique slugs, and the articles stored under them |
| `Workload`, `WorkloadRows` | the workload and forecast tables, two aggregations of the same work |
| `DomainNames`, `ClientDomains`, `DomainRules`, `ClientDomainStore`, `Associations` | which client owns an email domain, and what associating a domain does to tickets and contacts |
| `Text`, `Seqs`, `Options` | strings as ECMAScript treats them, and helpers |

Where the code changes stored rows or variables, a class holds them and its methods
carry the loops of the code; each method is proved against a specification of the new
state, and the lemmas speak of that specification. What a specification means is stated
a second time, without its functions, as rules over rows, characters, bits and dates. A request is one step, except in
`DecisionAlertRuns` and `WorkerPool`, where every suspension is a step boundary and
all interleavings are covered. The database is maps and sequences with the uniqueness
constraints it enforces; the clock is a parameter; what other services answer is
arbitrary. Numbers are unbounded, which is exact for the counters and for milliseconds
up to 2^53; the 32-bit operations of the one-time codes are modelled as such.

The code and its promise part in some places. There the code is kept; what it meets is
proved, for all inputs, as an exact condition, with a case that fails beside it:

- `Associations.ReportedIsCreatedIff`: `createdContactCount` is the number of contacts created only if the client had none of the senders; `FoundContactIsReported` is a case where it is not.
- `ClientDomains.OrphansGoneIff`: contacts are deleted softly, but the table allows one row for each client and address (prisma/schema.prisma:871). An association that meets the address of a deleted contact breaks off, and does so again each time (`DeletedContactBreaks`, `BrokenAssociationBreaksAgain`).
- `AttachmentRetries.RefusalsAreFinal`: the update that closes a try stands outside its error handling, so a refusal can be lost and the attachment offered again (`LostRefusalIsRepeated`); `ListedIsFinal` is what holds all the same.
- `AttachmentLists.PageIsRightIff`: pages past the first 500 rows can be wrong, while the total counts every row; `SixthPageMissesARow` is such a page.
- `Ingestion.ReplayChangesNothing`: a message blocked as spam is not remembered, so it is stored if it arrives again once the block is lifted (`LiftedBlockIsStored`), and so is one whose ticket was deleted for good (`PurgedIsStoredAgain`). `BatchChangesNothingIff` is the equivalence for any batch.
- `IngestionSteps.KnownAfterIff`: the ids of a message that is skipped are stored nowhere, so a later message that shares only its other id is ingested (`SkippedIdsAreNotKept`).
- `Slugs.SlugShape`: a slug cut at 80 characters can end in a hyphen (`CutAfterAHyphen`), and by `SlugOfSlug` it is then not its own slug.
- `WorkerPool.ResolvedMeansComplete`: a limit below 1 starts no worker, and the result resolves with holes (`ZeroLimitLeavesHoles`). This is latent: the only caller passes 3.
- `Totp.CodesLiveThirtySeconds`: verification throws while the clock reads less than 30 seconds after 1970 (`ThrowsAtTheEpoch`).
- `KnowledgeArticles.RetitlingChangesTheSlug`: retitling to a title with the same base still changes the slug (`SameBaseNewSlug`).
- `Csv.ParseRecoversTheRows`: an empty table and an empty row print as nothing, which reads as one empty cell (`EmptyReadsAsOneCell`). This too is latent: all callers print a fixed header and rows as wide.
- `CalendarText.RoundTripIsExactWithoutCrlf`: a CRLF comes back as LF (`CrlfComesBackAsLf`).
- `OperatingHours.SearchSucceedsIff`: exactly when the search ends in the fallback of one hour, a moment at which no sync is allowed (`ClosedForAYearItGivesUp`). Fewer than 52 closed dates cannot bring it about, and 52 can (`FewClosedDatesNeverExhaustTheSearch`, `FiftyTwoClosedDatesCan`).

## Model

| member | source | states |
|---|---|---|
| Dependencies.ProjectStore.HasDependencyPath | apps/api/src/modules/projects/projects.service.ts:484-497 | The breadth-first search ends on every stored graph, cyclic or not, and answers true exactly when a path of one or more edges leads from the start to the target. |
| Dependencies.ClosedSetHidesTarget | apps/api/src/modules/projects/projects.service.ts:487-496 | Completeness of the search: a set that contains the start, is closed under the edges and is left by no edge into the target shows that there is no path. |
| Dependencies.ProjectStore.FindDependencies | apps/api/src/modules/projects/projects.service.ts:491-492 | The query yields a target exactly if some project of the frontier depends on it; repeated targets do no harm. |
| Dependencies.PathSplitsAroundNewEdge | apps/api/src/modules/projects/projects.service.ts:318-324 | Every path in the graph with one edge more either avoids that edge or runs to its start and on from its end within the old graph. |
| Dependencies.GuardIsExact | apps/api/src/modules/projects/projects.service.ts:316-320 | On an acyclic graph the two tests before an insertion refuse an edge if and only if it would close a cycle, so no harmless edge is refused. |
| Dependencies.StepKeepsInv | apps/api/src/modules/projects/projects.service.ts:314-342 | Every request keeps the graph acyclic, row ids and project pairs unique, and the ends of every edge in one organization. |
| Dependencies.RunKeepsInv | apps/api/src/modules/projects/projects.service.ts:314-342 | Over every sequence of creations, soft deletions, added and removed dependencies the stored relation stays acyclic, counting edges of deleted projects. |
| Dependencies.AddIsExact | apps/api/src/modules/projects/projects.service.ts:314-333 | On every graph that meets the invariant, a request to add an edge between two different visible projects is refused as a cycle exactly if the graph with that edge has one, refused as stored exactly if it has none and the pair is there, and else stores exactly that edge; the other refusals are exact too, and no refusal changes anything. |
| Dependencies.OtherRequests | apps/api/src/modules/projects/projects.service.ts:118-143 | What creations, deletions and removals answer and change, in terms of the stored rows. |
| Dependencies.ProjectStore.Add | apps/api/src/modules/projects/projects.service.ts:314-333 | Refuses in the order of the code (invisible project, itself, invisible prerequisite, cycle, stored already); between two visible projects it refuses exactly the edges that would close a cycle, and otherwise stores the edge unless the pair is stored; a refusal changes nothing. |
| Dependencies.ProjectStore.RemoveEdge | apps/api/src/modules/projects/projects.service.ts:335-342 | Deletes the row of that id only if it belongs to the visible project named; every other row stays. |
| DecisionAlerts.DistinctKeepsEachOnce | apps/api/src/modules/projects/projects.service.ts:368 | The recipient list holds each non-empty id once and nothing else. |
| DecisionAlerts.DueKeysAreExactlyTheDueAlerts | apps/api/src/modules/projects/projects.service.ts:345-378 | The keys a scan tries are exactly those some open decision owes: unassigned, overdue or at risk, to its owner (or failing one, the project's) and to the escalation list, for the current UTC day. |
| DecisionAlertOrder.ScannedInOrder | apps/api/src/modules/projects/projects.service.ts:345-357 | The decisions scanned are the pending rows, each once, in the order of the query. |
| DecisionAlertOrder.RecipientsInOrder | apps/api/src/modules/projects/projects.service.ts:368 | The recipients are the owner, or failing one the project's, and then the escalation list, each id at its first occurrence. |
| DecisionAlertOrder.ReasonsInOrder | apps/api/src/modules/projects/projects.service.ts:370-373 | Reasons come in the order unassigned, overdue, at risk, each at most once. |
| DecisionAlertOrder.KeysInOrder | apps/api/src/modules/projects/projects.service.ts:375-378 | The keys of a decision run through the reasons and, for each, through the recipients. |
| DecisionAlertOrder.DeliveriesInOrder | apps/api/src/modules/projects/projects.service.ts:375-391 | What is delivered comes in the order of the worklist. |
| DecisionAlerts.AlertStore.TryAlert | apps/api/src/modules/projects/projects.service.ts:377-391 | A key that is new and whose recording works is recorded and sent, and if its notification throws, before sending or after, so does the try; a key that is recorded already, or whose recording fails, before storing the row or after, is passed over. |
| DecisionAlerts.AlertStore.RunDecisionAlertScan | apps/api/src/modules/projects/projects.service.ts:344-397 | If no notification throws, the nested loops record and send exactly the deliverable keys of the worklist, each once and in order, besides storing what failing recordings store, and the counts are the open decisions and the notifications; else the scan ends at the first deliverable key whose notification throws, with that key recorded and everything before it worked off. |
| DecisionAlerts.DeliveriesAreTheNewKeysOnce | apps/api/src/modules/projects/projects.service.ts:375-393 | What a scan delivers is what it tries, less what was recorded and what fails, without repetition. |
| DecisionAlerts.RepeatScanIsSilent | apps/api/src/modules/projects/projects.service.ts:344-397 | A scan sends nothing exactly when every alert it owes is recorded; a second scan of the same data at the same moment sends nothing. |
| DecisionAlertRuns.StepKeepsInv | apps/api/src/modules/projects/projects.service.ts:375-392 | Each single step of any scan, failures included, keeps the accounts: sent keys are recorded and distinct, a key being sent is in one scan's hands only, and every recorded key is sent, being sent or lost to a failure. |
| DecisionAlertRuns.NotifiedAtMostOnce | apps/api/src/modules/projects/projects.service.ts:375-392 | Under every interleaving of any number of scans, and under every failure, each key of decision, recipient, reason and date is notified at most once. |
| DecisionAlertRuns.FinishedScanRecordedAllItOwed | apps/api/src/modules/projects/projects.service.ts:375-396 | A scan that finished without an error has every key it owed recorded, and each is accounted for. |
| DecisionAlertRuns.SentExactlyOnceWithoutFailures | apps/api/src/modules/projects/projects.service.ts:375-396 | With no failure, once all scans are through, the recorded keys are exactly the sent ones, each sent once. |
| DecisionAlertRuns.QuietScanStaysSilent | apps/api/src/modules/projects/projects.service.ts:378-382 | A scan that owes only recorded keys sends nothing to its end, whatever other scans do. |
| DecisionAlertRuns.RepeatedScanSendsNothing | apps/api/src/modules/projects/projects.service.ts:344-396 | A scan begun over the worklist of one that finished without an error sends nothing, under every interleaving before, between and after. |
| LoneScans.LoneScanIsTheScan | apps/api/src/modules/projects/projects.service.ts:344-396 | A scan of the interleaved system, begun in any state and run alone to its end, leaves the tables exactly as the single scan is specified to, for the same failures. |
| LoneScans.LoneScanEnds | apps/api/src/modules/projects/projects.service.ts:362-394 | Left alone, a scan comes to its end, whatever fails. |
| WorkerPool.RunKeepsInv | apps/api/src/modules/knowledge-base/knowledge-onenote-import.service.ts:847-860 | Every interleaving keeps the relation between the shared index, the workers, the result array and what the handlers did. |
| WorkerPool.WorkersStarted | apps/api/src/modules/knowledge-base/knowledge-onenote-import.service.ts:850-851 | Exactly min(limit, n) workers are started, none for a negative limit, and the first as many items are handed out. |
| WorkerPool.EachItemIsHandedOutOnce | apps/api/src/modules/knowledge-base/knowledge-onenote-import.service.ts:850-857 | At every moment of every run the handler calls begun are for the indices 0, 1, 2, ... each once, and at most min(limit, n) are under way. |
| WorkerPool.NoWorkerRests | apps/api/src/modules/knowledge-base/knowledge-onenote-import.service.ts:851-856 | While items are left and nothing has been thrown, exactly min(limit, n) calls are under way. |
| WorkerPool.RunsAreBounded | apps/api/src/modules/knowledge-base/knowledge-onenote-import.service.ts:852-856 | Every schedule is finite: its length and the calls still to end after it sum to at most the calls that were to end before it, and to exactly those when no handler throws. |
| WorkerPool.NothingBlocks | apps/api/src/modules/knowledge-base/knowledge-onenote-import.service.ts:850-857 | A pool that has not ended always has a handler call whose answer moves it on. |
| WorkerPool.ResolvedMeansComplete | apps/api/src/modules/knowledge-base/knowledge-onenote-import.service.ts:847-860 | When the promise resolves, every item was handled and its answer stands at its index, if and only if the limit is at least 1 or there is nothing to do; a limit of zero or less resolves with holes. |
| WorkerPool.ZeroLimitLeavesHoles | apps/api/src/modules/knowledge-base/knowledge-onenote-import.service.ts:848-859 | A case of that: one item and a limit of zero. |
| WorkerPool.ResolvedRunsThrowNothing | apps/api/src/modules/knowledge-base/knowledge-onenote-import.service.ts:850-859 | A run that resolves had no handler throw. |
| WorkerPool.SurvivorsFinishTheWork | apps/api/src/modules/knowledge-base/knowledge-onenote-import.service.ts:850-857 | A throw ends its own worker only: if one worker came through, every item was handled or threw. |
| WorkerPool.ResultsDoNotDependOnTheSchedule | apps/api/src/modules/knowledge-base/knowledge-onenote-import.service.ts:642-660 | When answers depend on the item and index alone, every schedule that resolves returns the handler mapped over the items in order. |
| WorkerPool.SharedPool.constructor | apps/api/src/modules/knowledge-base/knowledge-onenote-import.service.ts:848-853 | Starting the workers one after the other starts exactly min(limit, n), and gives worker w item w. |
| WorkerPool.SharedPool.ClaimNext | apps/api/src/modules/knowledge-base/knowledge-onenote-import.service.ts:852-854 | Reading and incrementing the shared index hands out the next item, or ends the worker. |
| WorkerPool.SharedPool.HandlerAnswers | apps/api/src/modules/knowledge-base/knowledge-onenote-import.service.ts:852-855 | The answer is written at the index the worker claimed, not at the shared one, and the worker goes on. |
| Base32.Encode | apps/api/src/modules/auth/auth-security.util.ts:64-75 | The two loops, joining bits and cutting them in fives, give the encoding that the codec laws are about. |
| Base32.Decode | apps/api/src/modules/auth/auth-security.util.ts:77-92 | The loops give the decoding that the codec laws are about, or an error exactly when a character that counts is not in the alphabet. |
| Base32.DecodeUndoesEncode | apps/api/src/modules/auth/auth-security.util.ts:64-92 | Decoding undoes encoding for byte sequences of every length, and the text has ceil(8n/5) letters. |
| Base32.CaseAndPaddingDoNotMatter | apps/api/src/modules/auth/auth-security.util.ts:78 | Lower-casing a text, or appending any run of `=`, does not change what it decodes to, errors included. |
| Base32.CanonicalTexts | apps/api/src/modules/auth/auth-security.util.ts:64-92 | For every text, whatever its case, spaces and padding: encoding what it decodes to gives its normal form, or the text itself, exactly if that is in the alphabet and leaves over fewer than five bits, all zero. |
| Base32Bits.EncodingByBits | apps/api/src/modules/auth/auth-security.util.ts:64-75 | There is a sequence of bits of which every eight, the highest first, are a byte, and every five the place of a letter in the alphabet of the code; it ends in fewer than five zeros of filling. |
| Base32Bits.DecodingByBits | apps/api/src/modules/auth/auth-security.util.ts:77-92 | Of any text the final run of `=` and white space do not count and case does not matter; if a character that counts is not in the alphabet it throws, else the bytes are every whole eight of the bits that the letters stand for. |
| Base32.EncodedBits | apps/api/src/modules/auth/auth-security.util.ts:64-75 | The letters of an encoding stand for the bits of the bytes followed by fewer than five zeros. |
| Base32.AlphabetSpelled | apps/api/src/modules/auth/auth-security.util.ts:4 | The computed alphabet is the constant of the code. |
| Totp.CounterBytes | apps/api/src/modules/auth/auth-security.util.ts:96-98 | The two 32-bit writes are the 8-byte big-endian counter; the first write throws exactly when the step is negative or does not fit. |
| Totp.WriteUInt32BE | apps/api/src/modules/auth/auth-security.util.ts:97-98 | A write replaces four bytes of the buffer and keeps the others. |
| Totp.BigEndianIsUnique | apps/api/src/modules/auth/auth-security.util.ts:96-98 | Byte sequences of one length with the same big-endian value are equal, so the counter is the only one of its value. |
| Totp.TruncationIsTheMaskedWord | apps/api/src/modules/auth/auth-security.util.ts:100-101 | The offset leaves four bytes inside a 20-byte digest, and masking, shifting and or-ing them gives their big-endian value without the top bit, a number below 2^31. |
| Totp.CodeIsSixDigits | apps/api/src/modules/auth/auth-security.util.ts:102 | The code is exactly six digits, of the truncated value modulo a million. |
| Totp.ComputeTotp | apps/api/src/modules/auth/auth-security.util.ts:94-103 | The steps in order, with the buffer writes, give the code that CodeOfTheStep describes, or the error that is thrown first. |
| TotpValues.CodeOfTheStep | apps/api/src/modules/auth/auth-security.util.ts:94-103 | For every secret that decodes and every step that eight bytes can hold, the code is six digits that write, modulo a million, the low 31 bits of four bytes of the digest of the eight bytes that hold that very step; otherwise it throws. |
| TotpValues.AcceptedCodes | apps/api/src/modules/auth/auth-security.util.ts:22-30 | With the spaces removed a code is accepted exactly if it is the secret's code, in that sense, of the 30-second step of the moment or of one beside it; at the first step since 1970 and before, none is. |
| Totp.AcceptedIffCodeOfANearbyStep | apps/api/src/modules/auth/auth-security.util.ts:22-30 | What verification answers to any input: false for what is not six digits once spaces are removed, before the secret is looked at; then the secret's error, a thrown range error, or acceptance exactly for a code of the previous, the present or the next step. |
| Totp.CodesLiveThirtySeconds | apps/api/src/modules/auth/auth-security.util.ts:22-30 | A code made at t is accepted at every time within 30 s, exactly unless the verifying clock reads less than 30 s after 1970, where verification throws. |
| Totp.ThrowsAtTheEpoch | apps/api/src/modules/auth/auth-security.util.ts:22-30 | A case that throws: the code of the epoch, verified at the epoch. |
| Totp.OldCodesNeedACollision | apps/api/src/modules/auth/auth-security.util.ts:22-30 | A code made 60 s or more away is accepted only if a step of the window has the same code. |
| OperatingHours.NextAllowedEmailSyncAt | apps/api/src/modules/mailboxes/mailboxes.service.ts:270-283 | Now, if sync is off the clock or allowed; else the least allowed whole-minute offset up to 370 days; else, only if there is none, an hour from now, which is then not allowed either. |
| OperatingHours.SearchSucceedsIff | apps/api/src/modules/mailboxes/mailboxes.service.ts:270-302 | The search finds a minute if and only if a day strictly between is open, or today is open with window left, or the 370th day is open with window up to the present minute. |
| OpeningRules.AllowedIff | apps/api/src/modules/mailboxes/mailboxes.service.ts:285-302 | A moment in a four-digit year is allowed exactly if its weekday is named, its date, as written, is not closed, it is not kept as a federal holiday while those are skipped, and its hour and minute lie in the window of the two clock times, wrapped around midnight if it ends before it starts, with 06:00 and 17:00 for times that are not readable. |
| OpeningRules.KeyIsWritten | apps/api/src/modules/mailboxes/mailboxes.service.ts:386-388 | The key of a date in a four-digit year is its year, month and day in four, two and two figures. |
| OperatingHours.ClosedForAYearItGivesUp | apps/api/src/modules/mailboxes/mailboxes.service.ts:275-290 | A schedule for which the search ends in the fallback: Mondays, with today and the 370 days after it closed. |
| OperatingHours.WaitIsShorterThanAWeek | apps/api/src/modules/mailboxes/mailboxes.service.ts:270-302 | With one recognised weekday, no closed dates and holidays not skipped, the offset is below 10080 minutes, also for windows that wrap midnight: the fallback is unreachable. |
| OperatingHours.HolidaysNeverExhaustTheSearch | apps/api/src/modules/mailboxes/mailboxes.service.ts:285-302 | With one recognised weekday and no closed dates, skipping federal holidays never makes the search give up. |
| OperatingHours.FewClosedDatesNeverExhaustTheSearch | apps/api/src/modules/mailboxes/mailboxes.service.ts:270-290 | With one recognised weekday and holidays not skipped, fewer than 52 closed dates never make the search give up. |
| OperatingHours.FiftyTwoClosedDatesCan | apps/api/src/modules/mailboxes/mailboxes.service.ts:270-290 | The bound is sharp: 52 closed dates, all of the one weekday named, do so once the window of such a day is over. |
| Holidays.NthWeekdayIsTheNth | apps/api/src/modules/mailboxes/mailboxes.service.ts:366-370 | The date lies in the month, falls on the weekday, and is the one of that rank. |
| Holidays.LastWeekdayIsTheLast | apps/api/src/modules/mailboxes/mailboxes.service.ts:372-376 | The date lies in the month, falls on the weekday, and no later day of the month does. |
| Holidays.ObservedOnAWeekday | apps/api/src/modules/mailboxes/mailboxes.service.ts:378-384 | An observed date is never on a weekend and at most a day from the holiday. |
| Holidays.KeysAreInjective | apps/api/src/modules/mailboxes/mailboxes.service.ts:386-388 | Two dates share a key only if they are equal, as soon as one is in a four-digit year. |
| Holidays.UsFederalHolidayKeys | apps/api/src/modules/mailboxes/mailboxes.service.ts:342-364 | The statements that fill the set give the keys of exactly the dates that HolidaysAreTheNamedOnes describes. |
| Holidays.HolidayRange | apps/api/src/modules/mailboxes/mailboxes.service.ts:351-361 | The holidays of a year lie in fixed windows of that year, except that New Year may be observed on the last day of the year before. |
| Holidays.HolidaysAreTheNamedOnes | apps/api/src/modules/mailboxes/mailboxes.service.ts:351-384 | The dates computed for a year are the federal holidays by name, such as the third Monday of January, the last Monday of May and Christmas with the weekday it is kept on, and no others. |
| Holidays.ThreeYearsSuffice | apps/api/src/modules/mailboxes/mailboxes.service.ts:337-340 | In four-digit years the test on three years decides whether a date is a holiday of any year at all; the year before never contributes. |
| Holidays.HolidayTestIsRight | apps/api/src/modules/mailboxes/mailboxes.service.ts:337-364 | In four-digit years the test on a key answers exactly whether the date is kept as a federal holiday of its own year or of the next. |
| Ingestion.MessageStore.SyncMailbox | apps/api/src/modules/mailboxes/mailboxes.service.ts:405-568 | The loop with its five exits leaves exactly the tables and answers exactly the counts of the specification, or breaks off at the first message that throws, keeping what was stored. |
| Ingestion.SyncConserves | apps/api/src/modules/mailboxes/mailboxes.service.ts:411-567 | A completed sync has received = created + skipped + blocked, stores one ticket message per created, and at most one event message per skipped. |
| IngestionSteps.OneMessage | apps/api/src/modules/mailboxes/mailboxes.service.ts:411-534 | What each message does to the tables that the ones before it left: it is known exactly if a row of either kind has its provider id or its non-empty internet id; only an unknown one is stored, with both its ids, as an event message or as a ticket message, or is blocked; and exactly one counter goes up. |
| IngestionSteps.EndsAtFirstThrow | apps/api/src/modules/mailboxes/mailboxes.service.ts:411-534 | A sync that a message breaks off leaves what the messages up to it left, and no result. |
| Ingestion.NoMessageIsIngestedTwice | apps/api/src/modules/mailboxes/mailboxes.service.ts:411-534 | Over every sequence of syncs with arbitrarily overlapping batches, completed or broken off, and whatever other code stores and purges in between, no two ingested rows of either table share a provider id or a non-empty internet id. |
| Ingestion.CompletedBatchIsKnown | apps/api/src/modules/mailboxes/mailboxes.service.ts:411-534 | After a completed sync every message not blocked as spam is found again by the duplicate test. |
| IngestionSteps.KnownAfterIff | apps/api/src/modules/mailboxes/mailboxes.service.ts:411-440 | After a completed sync a message is known exactly if a row shared an id with it before, or a message that the sync stored does. |
| IngestionSteps.OverlapIsSkipped | apps/api/src/modules/mailboxes/mailboxes.service.ts:411-457 | A message under another provider id or internet id is skipped, at any later time, if it shares either with a message that a completed sync stored and nothing was purged: it adds no row. |
| IngestionSteps.SkippedIdsAreNotKept | apps/api/src/modules/mailboxes/mailboxes.service.ts:426-457 | A case where sharing an id with a message of the batch is not enough, because that message was only skipped and its other id is stored nowhere. |
| Ingestion.ReplayChangesNothing | apps/api/src/modules/mailboxes/mailboxes.service.ts:411-534 | Receiving messages of a completed batch again, at any later time, in any order and number, stores nothing and creates nothing, as long as none was purged in between and what was blocked as spam is blocked again; event matching, errors and other blocks may come out differently. |
| Ingestion.BatchChangesNothingIff | apps/api/src/modules/mailboxes/mailboxes.service.ts:411-534 | For any tables and batch: nothing is stored if and only if every message reached is known, blocked as spam, or throws before its row is stored. |
| Ingestion.LiftedBlockIsStored | apps/api/src/modules/mailboxes/mailboxes.service.ts:491-533 | A case that needs the condition: a message blocked the first time becomes a ticket message once the block is lifted. |
| Ingestion.PurgedIsStoredAgain | apps/api/src/modules/maintenance/maintenance.service.ts:320-350 | A case that needs the other condition: a message whose ticket the clean-up deleted is stored again. |
| AttachmentRetries.MessageAttachments.CreateInboundEmailAttachment | apps/api/src/modules/ticket-attachments/ticket-attachments.service.ts:67-105 | An id already stored is answered without a new row; otherwise the validation decides, and an error that is not a refusal may come before the row is stored or after. |
| AttachmentRetries.MessageAttachments.StoreInboundAttachments | apps/api/src/modules/mailboxes/mailboxes.service.ts:695-776 | The loop and the closing update leave exactly the specified list, rows and marks, and answer the numbers stored and failed; if the update throws, so does the try, with the rows stored and the list and marks as before; a listing that cannot be fetched changes nothing. |
| AttachmentSteps.OneAttachment | apps/api/src/modules/mailboxes/mailboxes.service.ts:726-764 | What each attachment does, after those before it: it is offered exactly if it has content and is not listed; a new row, a listed refusal with its reason, the counters and the transient mark follow from whether the id is stored already and how storing ends. |
| AttachmentSteps.AfterATry | apps/api/src/modules/mailboxes/mailboxes.service.ts:713-773 | What the closing update writes, and what stays as it was when it throws or the listing could not be fetched. |
| AttachmentRetries.RefusalsAreFinal | apps/api/src/modules/mailboxes/mailboxes.service.ts:723-773 | Over every sequence of tries and deletions, every refused attachment is on the list and never offered again, if and only if that was so before and no closing update threw in a try that had refused something. |
| AttachmentRetries.ListedIsFinal | apps/api/src/modules/mailboxes/mailboxes.service.ts:723-773 | Over every such sequence, whether or not closing updates throw, the list only grows and holds each id once, an id on it is never offered again, and no non-empty id is stored twice or both stored and listed. |
| AttachmentRetries.LostRefusalIsRepeated | apps/api/src/modules/mailboxes/mailboxes.service.ts:750-773 | A case that loses a refusal: the update throws, and the next try offers the attachment again and has it refused again. |
| AttachmentRetries.ProcessedMeansSettled | apps/api/src/modules/mailboxes/mailboxes.service.ts:766-773 | When a try sets the processed mark, every attachment with content in its listing is stored or listed as refused. |
| AttachmentRetries.SettledTryIsTheLast | apps/api/src/modules/mailboxes/mailboxes.service.ts:771-789 | A try sets the mark if and only if its closing update comes through and it met no transient error, and from then on any run of tries and deletions does what its deletions do alone. |
| AttachmentRetries.EntriesAreNormal | apps/api/src/modules/mailboxes/mailboxes.service.ts:860-879 | Reading back the list that was written loses no entry. |
| Csv.FileParses | apps/api/src/modules/reports/reports.service.ts:1517-1519 | A parser of RFC 4180, section 2, recovers every non-empty list of non-empty rows, whatever quotes, commas and line breaks the cells hold. |
| Csv.ParseRecoversTheRows | apps/api/src/modules/audit-logs/audit-logs.service.ts:167-169 | The round trip holds if and only if there is a row and no row is empty. |
| Csv.PrintedForm | apps/api/src/modules/reports/reports.service.ts:1517-1519 | What is printed, character by character: quotes around every cell, its own doubled, commas between cells, a carriage return and line feed between rows and none after the last. |
| Csv.EmptyReadsAsOneCell | apps/api/src/modules/reports/reports.service.ts:1517-1519 | The empty table and the single empty row both read back as one empty cell. |
| Csv.QuotedParses | apps/api/src/modules/reports/reports.service.ts:1518 | A quoted cell reads back as itself, whatever follows its closing quote. |
| Csv.ToCsvInjective | apps/api/src/modules/reports/reports.service.ts:1517-1519 | Two tables print the same if and only if they are equal, or each is empty or a single empty row. |
| CalendarText.SequentialEqualsOnePass | apps/api/src/modules/event-services/event-services.service.ts:1456-1458 | On every text the four replacements in sequence equal a single pass that escapes each character once. |
| CalendarText.UnescapeUndoesEscape | apps/api/src/modules/event-services/event-services.service.ts:1456-1458 | Unescaping by section 3.3.11 of RFC 5545 always succeeds and gives the text with each CRLF turned into LF. |
| CalendarText.RoundTripIsExactWithoutCrlf | apps/api/src/modules/event-services/event-services.service.ts:1456-1458 | The text comes back unchanged if and only if it holds no CRLF. |
| CalendarText.CrlfComesBackAsLf | apps/api/src/modules/event-services/event-services.service.ts:1457 | A text that does not come back unchanged. |
| CalendarText.EscapedTextIsProtected | apps/api/src/modules/event-services/event-services.service.ts:1456-1458 | The output holds no line feed and no `;` or `,` that is not the second of an escape pair. |
| Sorting.SortIsStable | apps/api/src/modules/maintenance/maintenance.service.ts:147 | The sort used is in order and keeps equal elements in their order. |
| Sorting.StableOrderIsUnique | apps/api/src/modules/maintenance/maintenance.service.ts:147 | There is only one stable order, so the results hold of any stable sort. |
| Sorting.AgreeBeforeCut | apps/api/src/modules/maintenance/maintenance.service.ts:144-150 | Merging the beginnings of two ordered lists agrees with merging the lists up to the first place that wants a dropped element. |
| Sorting.DifferFromCut | apps/api/src/modules/maintenance/maintenance.service.ts:144-150 | From that place on, with distinct elements, the two merges differ everywhere. |
| Sorting.CutInClosedForm | apps/api/src/modules/maintenance/maintenance.service.ts:144-150 | That place is the lesser of two counts: the limit plus the elements of the other list that sort before the first one dropped. |
| Sorting.LeftOutAtCut | apps/api/src/modules/maintenance/maintenance.service.ts:144-150 | What the full merge has at that place is an element that the limit dropped. |
| AttachmentLists.FirstFiveHundredAreRight | apps/api/src/modules/maintenance/maintenance.service.ts:105-156 | When page times page size is at most 500, the page is the slice of the stable newest-first list of all rows, ties included. |
| AttachmentPages.QuarantinePage | apps/api/src/modules/maintenance/maintenance.service.ts:105-156 | What a page shows: the rows at its places in the newest-first list, equal times in query order, of the first 500 tickets and the first 500 events that the filter lets through, with the number of all that it lets through. |
| AttachmentPages.WholePage | apps/api/src/modules/maintenance/maintenance.service.ts:105-156 | The page it is compared with: the same places in the list of all of them. |
| AttachmentLists.PageIsRightIff | apps/api/src/modules/maintenance/maintenance.service.ts:105-156 | For every page: it is right if and only if it ends before the first dropped row, neither kind has more than 500 rows, or it starts past the last row. The first dropped row comes after 500 tickets and the events newer than the 501st ticket, or after 500 events and the tickets at least as new as the 501st event, whichever is less. |
| AttachmentLists.FirstDroppedRow | apps/api/src/modules/maintenance/maintenance.service.ts:117-147 | At that count the full list has the 501st ticket or the 501st event, which the page cannot show. |
| AttachmentLists.SixthPageMissesARow | apps/api/src/modules/maintenance/maintenance.service.ts:127-151 | A case where it is wrong: of 501 rows the sixth page of 100 is empty although the total counts the row it should show. |
| AttachmentLists.TargetsAreTheOldest | apps/api/src/modules/maintenance/maintenance.service.ts:457-491 | The rescan queue is the oldest `limit` of the whole union; nothing left out is older than anything in it. |
| AttachmentPages.QueueIsTheOldest | apps/api/src/modules/maintenance/maintenance.service.ts:457-491 | The queue is the beginning, of at most the limit, of the oldest-first list of all pending attachments that the filter lets through. |
| Slugs.SlugShape | apps/api/src/modules/knowledge-base/knowledge-base.service.ts:673 | A slug of any title is 1 to 80 lower-case letters, digits and single inner hyphens; it ends in a hyphen if and only if the text before the cut is longer than 80 and has a hyphen in the 80th place. |
| SlugWords.SlugIsItsWords | apps/api/src/modules/knowledge-base/knowledge-base.service.ts:672-674 | A slug is the runs of letters a to z and figures of the title in lower case, joined by hyphens, of which 80 characters are kept, and 'article' if there are none. |
| SlugWords.CandidateIsNumbered | apps/api/src/modules/knowledge-base/knowledge-base.service.ts:663-667 | The base is tried first, and then the base, a hyphen and the numbers from 2 on. |
| Slugs.SlugOfSlug | apps/api/src/modules/knowledge-base/knowledge-base.service.ts:673 | A slug is its own slug if and only if it does not end in a hyphen. |
| Slugs.CutAfterAHyphen | apps/api/src/modules/knowledge-base/knowledge-base.service.ts:673 | A title for which that happens: 79 letters, a hyphen and a letter. |
| Slugs.CandidatesDiffer | apps/api/src/modules/knowledge-base/knowledge-base.service.ts:663-668 | The candidates tried are pairwise different. |
| Slugs.UniqueSlug | apps/api/src/modules/knowledge-base/knowledge-base.service.ts:661-670 | The loop ends for every finite set of taken slugs and returns the first candidate that is free. |
| Slugs.FirstFreeIsFirst | apps/api/src/modules/knowledge-base/knowledge-base.service.ts:665-668 | The slug found is free and every candidate before it was taken. |
| Slugs.SuffixIsBounded | apps/api/src/modules/knowledge-base/knowledge-base.service.ts:664-667 | The suffix is at most one more than the number of taken slugs. |
| KnowledgeArticles.RunKeepsSlugsUnique | apps/api/src/modules/knowledge-base/knowledge-base.service.ts:155-227 | Over every run of creations, retitlings and soft deletions, no two articles of an organization share a slug, deleted ones counted. |
| ArticleRules.RulesOfCreate | apps/api/src/modules/knowledge-base/knowledge-base.service.ts:155-179 | A new article has the trimmed title and the first candidate that no article of its organization, deleted or not, has; nothing else changes. |
| ArticleRules.RulesOfUpdate | apps/api/src/modules/knowledge-base/knowledge-base.service.ts:181-218 | The same for a visible article with a new title; any other update leaves title and slug. |
| ArticleRules.RulesOfDelete | apps/api/src/modules/knowledge-base/knowledge-base.service.ts:104-111 | A deletion marks the articles named that are the organization's, and changes neither title nor slug. |
| KnowledgeArticles.RetitlingChangesTheSlug | apps/api/src/modules/knowledge-base/knowledge-base.service.ts:193 | An update keeps the slug if and only if the trimmed title is empty or the stored one; the article's own slug counts as taken. |
| KnowledgeArticles.SameBaseNewSlug | apps/api/src/modules/knowledge-base/knowledge-base.service.ts:193 | A case of that: the only article, retitled from a to A, changes its slug to a-2, though both titles give the base a. |
| KnowledgeArticles.ArticleStore.CreateArticle | apps/api/src/modules/knowledge-base/knowledge-base.service.ts:155-179 | Stores the trimmed title under the first free slug of its organization and changes nothing else. |
| KnowledgeArticles.ArticleStore.UpdateArticle | apps/api/src/modules/knowledge-base/knowledge-base.service.ts:181-218 | Changes title and slug of a visible article only, and only for a title that is neither empty nor the stored one. |
| KnowledgeArticles.ArticleStore.BulkDeleteArticles | apps/api/src/modules/knowledge-base/knowledge-base.service.ts:104-111 | Marks exactly the visible articles named and counts them; their slugs stay taken. |
| Workload.BuildWorkload | apps/api/src/modules/operations/operations.service.ts:398-417 | The loops over items, their owners and the commitments build the table that folds all assignments in order. |
| Workload.BuildForecast | apps/api/src/modules/operations/operations.service.ts:439-450 | The same for the forecast. |
| Workload.TotalsAddUp | apps/api/src/modules/operations/operations.service.ts:400-417 | For every owner: total = operational + commitments = number of details, attention is at most that, and the details are exactly the owner's, in order. |
| Workload.WeekFound | apps/api/src/modules/operations/operations.service.ts:444 | In contiguous weeks a date is found in week w exactly if it lies in it, and in none exactly if it is outside all four. |
| Workload.PlanRows | apps/api/src/modules/operations/operations.service.ts:439-450 | A forecast row counts, week by week, the owner's assignments due in it, and those without a date. |
| WorkloadRows.LoadRowCounts | apps/api/src/modules/operations/operations.service.ts:398-417 | A person has a row exactly if an item or commitment is theirs; it counts their shares of the items, their commitments, and what of both needs attention, and lists the details of both in order. |
| WorkloadRows.PlanRowCounts | apps/api/src/modules/operations/operations.service.ts:439-450 | A forecast row counts for each week the shares of items and the commitments due in it, and those without a date. |
| Workload.WorkloadAndForecastAgree | apps/api/src/modules/operations/operations.service.ts:398-451 | Both tables list the same owners, and each workload total is planned + unscheduled + dated outside the four weeks. |
| Workload.WorkIsConserved | apps/api/src/modules/operations/operations.service.ts:400-417 | Before the table is cut, the totals sum to all item-owner pairs plus all commitments. |
| Workload.SortedDetailsAreTheSame | apps/api/src/modules/operations/operations.service.ts:394-422 | Sorting a row's details puts them in the order of the due date, or of the last update where there is none, and keeps each as often as it was there. |
| DomainNames.NormalizationIsIdempotent | apps/api/src/modules/client-domains/client-domains.service.ts:317-330 | A normal form is its own normal form, so texts of one domain compare equal once normalized. |
| DomainNames.DomainsAreDottedLabels | apps/api/src/modules/client-domains/client-domains.service.ts:320-325 | The names accepted are exactly those of one label or more of 1 to 63 letters, digits and hyphens, each followed by a dot, and 2 to 63 letters, that do not begin with a hyphen. |
| DomainNames.NormalFormIff | apps/api/src/modules/client-domains/client-domains.service.ts:317-330 | A text is normalized to a name exactly if the name is accepted and is the text, trimmed and in lower case, with or without one dot after it. |
| DomainNames.ListIff | apps/api/src/modules/clients/clients.service.ts:203-225 | A list is an error exactly if a text in it is neither empty, or a lone dot, nor accepted; else it becomes the normal forms of its texts, each once. |
| DomainNames.ListIsNormal | apps/api/src/modules/clients/clients.service.ts:203-225 | The list of a new client holds normal forms only, each once. |
| ClientDomains.StepKeeps | apps/api/src/modules/client-domains/client-domains.service.ts:51-272 | Every request, answered or broken off, keeps one row per domain, live clients behind active rows and one contact per client and address, and changes no active row's owner. |
| ClientDomains.CreateClientKeeps | apps/api/src/modules/clients/clients.service.ts:72-126 | A new client takes over inactive rows only, all of its domains at once. |
| DomainRules.RulesOfCreateClient | apps/api/src/modules/clients/clients.service.ts:72-126 | A new client is refused exactly for a bad name or a domain some client has active; else it gets a row, active and not verified, for each of its domains, in the place of an inactive one if there is one, and no other row changes. |
| DomainRules.RulesOfDeleteClient | apps/api/src/modules/clients/clients.service.ts:154-180 | A live client of the organization is marked, its domains become inactive, and nothing else changes. |
| DomainRules.RulesOfCreateDomain | apps/api/src/modules/client-domains/client-domains.service.ts:51-90 | The answers in their order, and the one row written: active unless told otherwise, and as verified as told or as the row was before. |
| DomainRules.RulesOfUpdateDomain | apps/api/src/modules/client-domains/client-domains.service.ts:92-126 | Sets the flags given and keeps the others, for a row whose client is live and in the organization. |
| DomainRules.RulesOfDeactivateDomain | apps/api/src/modules/client-domains/client-domains.service.ts:128-144 | Makes such a row inactive and keeps the rest of it. |
| DomainRules.RulesOfDeleteContact | apps/api/src/modules/contacts/contacts.service.ts:101-117 | Marks a live contact of a live client of the organization, keeping client and address. |
| DomainRules.AnswersOfAssociate | apps/api/src/modules/client-domains/client-domains.service.ts:147-216 | The answers in their order: nothing pending or no live client, a bad name, a domain another client has active, a deleted contact in the way, done. |
| DomainRules.RulesOfAssociate | apps/api/src/modules/client-domains/client-domains.service.ts:146-256 | The row of the domain becomes the client's, active and as verified as before; exactly the live tickets of organization and domain without a client get it and their sender's contact, and their inbound messages without an author that contact; the domain is resolved. |
| ClientDomains.RunKeepsInv | apps/api/src/modules/client-domains/client-domains.service.ts:51-272 | Over every run of the seven operations, with associations that database errors interrupt anywhere, each domain text has one row and the client of an active row is not deleted. |
| ClientDomains.OwnerChangesOnlyWhileInactive | apps/api/src/modules/client-domains/client-domains.service.ts:51-272 | Between any two moments of a run a row is owned by another client only if it was inactive at some moment in between. |
| ClientDomains.ReactivationNeverConflicts | apps/api/src/modules/client-domains/client-domains.service.ts:95-107 | The conflict looked for when a row is reactivated cannot arise. |
| ClientDomains.NoOrphansAfterAssociation | apps/api/src/modules/client-domains/client-domains.service.ts:146-272 | After an association that is carried out no live ticket of that organization and domain lacks a client, and the domain is active for that client. |
| ClientDomains.OrphansGoneIff | apps/api/src/modules/client-domains/client-domains.service.ts:169-235 | An association that passes its checks leaves no such ticket if and only if none came from an address that only a deleted contact of the client has; otherwise it moves none. |
| ClientDomains.BrokenAssociationBreaksAgain | apps/api/src/modules/client-domains/client-domains.service.ts:189-214 | An association that broke at such an address breaks again when it is repeated. |
| ClientDomains.InterruptedKeeps | apps/api/src/modules/client-domains/client-domains.service.ts:181-256 | An association interrupted at any point, with some contacts created and some tickets and messages moved, keeps the invariant and the owners of active rows. |
| ClientDomains.InterruptedCanBeRepeated | apps/api/src/modules/client-domains/client-domains.service.ts:146-256 | An association that could have been carried out and was interrupted passes all its checks when it is repeated. |
| Associations.OneContactPerFreshAddress | apps/api/src/modules/client-domains/client-domains.service.ts:181-216 | The contacts created are as many as the addresses for which the client had no live contact. |
| Associations.ReportedIsCreatedIff | apps/api/src/modules/client-domains/client-domains.service.ts:266-271 | The number reported as created is never less than the contacts created, and equals it if and only if the client had no live contact for any of the addresses. |
| Associations.FoundContactIsReported | apps/api/src/modules/client-domains/client-domains.service.ts:266-271 | A case where they differ: one ticket whose sender is a contact already reports one contact created, and creates none. |
| Associations.DeletedContactBreaks | apps/api/src/modules/client-domains/client-domains.service.ts:189-214 | A case that breaks: one ticket whose sender is a deleted contact. |
| ClientDomainStore.DomainStore.CreateClient | apps/api/src/modules/clients/clients.service.ts:72-126 | Refuses a bad name or an active domain before anything is stored; otherwise gives the new client all its domains. |
| ClientDomainStore.DomainStore.DeleteClient | apps/api/src/modules/clients/clients.service.ts:154-180 | Deletes a live client of the organization and deactivates all its domains. |
| ClientDomainStore.DomainStore.CreateDomain | apps/api/src/modules/client-domains/client-domains.service.ts:51-90 | Refuses in the order of the code; otherwise reuses the inactive row or adds one, with the defaults of the code. |
| ClientDomainStore.DomainStore.UpdateDomain | apps/api/src/modules/client-domains/client-domains.service.ts:92-126 | Sets only the flags given, of a row whose client is live and in the organization. |
| ClientDomainStore.DomainStore.DeactivateDomain | apps/api/src/modules/client-domains/client-domains.service.ts:128-144 | Deactivates one such row and changes nothing else. |
| ClientDomainStore.DomainStore.DeleteContact | apps/api/src/modules/contacts/contacts.service.ts:101-117 | Marks a live contact of a live client of the organization, and keeps its row. |
| ClientDomainStore.DomainStore.ContactFor | apps/api/src/modules/client-domains/client-domains.service.ts:189-214 | Finds the live contact of an address or creates one, never a second; it fails exactly if a deleted contact has the address. |
| ClientDomainStore.DomainStore.ContactBook | apps/api/src/modules/client-domains/client-domains.service.ts:181-216 | The map holds exactly the non-empty sender addresses, each with a live contact of the client; or the loop stops at the address of a deleted contact, with the contacts before it made. |
| ClientDomainStore.DomainStore.MoveOrphans | apps/api/src/modules/client-domains/client-domains.service.ts:169-248 | Every orphaned ticket gets the client and its sender's contact, its inbound messages without an author get that contact, nothing else changes, and a contact is created once for each address that had none; or, exactly if an address is a deleted contact's, tickets and messages stay as they are. |
| ClientDomainStore.DomainStore.AssociateUnmappedDomain | apps/api/src/modules/client-domains/client-domains.service.ts:146-272 | The whole new state of an association carried out, refused or broken off; the first count returned is the tickets moved, the second the different sender addresses, found contacts included. |

## Left out

- OperatingHours.HolidaysNeverExhaustTheSearch: leaves out the present year 9999 and years of fewer or more than four digits, since the keys of the year after 9999 are cut short and the zone's own date text is not padded.
- OperatingHours.NextAllowedEmailSyncAt: the zone has a fixed offset, because the time-zone database with its daylight saving, and the fallback for an unknown zone, belong to the platform.
- OperatingHours.SearchSucceedsIff: for a zone of fixed offset, for the same reason.
- OperatingHours.WaitIsShorterThanAWeek: for a zone of fixed offset, for the same reason.
- OperatingHours.FewClosedDatesNeverExhaustTheSearch: for a zone of fixed offset, and for present years up to 9998, for the same reasons.
- Workload.WorkloadAndForecastAgree: the bounds of the four weeks are a parameter, because computing local midnights needs the server's time zone.
- Workload.BuildWorkload: stops before the capacity status (floating point), the last ordering of the owners (locale comparison) and the cut to 12 rows.
- Workload.BuildForecast: takes the bounds of the weeks as given and stops before the last ordering of the owners, for the same reasons.
- ClientDomainStore.DomainStore.AssociateUnmappedDomain: does not model the names and notes of created contacts, or the audit entries; an interruption by a database error is a step of its own, `ClientDomains.Interrupted`, and not in the method.
- Totp.ComputeTotp: HMAC is any function with a digest of 20 bytes.
- Text.MapCase: letter case is mapped character by character, and outside ASCII by any mapping; final-sigma context is not modelled, and no result depends on it.
- Ingestion.MessageStore.SyncMailbox: which messages belong to an event request or are spam, and where a foreign call throws, is arbitrary; the contents of rows beyond the two ids, the sync cursor and the backfill after the loop are not modelled. That the ticket service stores the ids it is given is assumed (apps/api/src/modules/tickets/tickets.service.ts:1147-1159).
- AttachmentRetries.MessageAttachments.StoreInboundAttachments: keeps of an entry its id and reason, and no error texts; whether an attachment is accepted, refused or fails otherwise, and whether the closing update comes through, is arbitrary at each try. An update that is stored and then reported as failed leaves what a stored one leaves.
- Dependencies.ProjectStore.Add: two requests that overlap are not modelled; the search and the insertion are separate queries, so acyclicity is stated for one request at a time. The same holds for mail syncs and for the domain operations.
- AttachmentLists.PageIsRightIff: rows of equal time are taken in whatever order the two queries give them, the same for the truncated and the full query.
- The digest of decisions, a record-then-notify protocol of the same shape as the alert scan.
- Changes to clients and contacts other than those modelled; finding the client of a sender; devices that create clients without domains.
- Slugs of knowledge categories, which use the same search; article pages, tags and attachments.
- Paging of report details, grouping of report rows, counters of the bulk rescan, parsing of page numbers: easy members.
- Controllers, guards, request validation, seed data and the web application.
- Microsoft Graph, remote monitoring, AI providers, virus scanning, encryption and password hashing.
- HTML, PDF and spreadsheet output.
