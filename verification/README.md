# Knowledger: a verified model

Knowledger keeps shared document revisions on a ledger and private records in a local vault, and
serves them to people and agents through an HTTP service. This project models the parts of it whose
correctness is not visible in any single function, and proves what they promise. `dafny verify
dfyconfig.toml` checks everything.

| file | what it models |
|---|---|
| `CommandProtocol.dfy` | persist-then-execute of ledger commands: queues, retries, lost answers, late commits, lagging projections, crashes |
| `Eligibility.dfy` | the ledger's recursive resolver, and what it means that a slot is eligible |
| `EligibilityFence.dfy` | the fence and epoch protocol behind `resolve` and `revalidate`, over the ledger's own transitions |
| `RevisionImpact.dfy` | breadth-first reverse-dependency impact over any reference graph |
| `SearchPaging.dfy`, `SearchMatchCache.dfy` | cursor paging over a batched scan, and the two-pool LRU cache in between |
| `VectorRanking.dfy`, `VectorPaging.dfy` | ranking of vector candidates, and its paging over an index that may change |
| `RevisionDiff.dfy` | the longest-common-subsequence line comparison and its edit script |
| `JsonGrammar.dfy`, `JsonScan.dfy`, `StrictJson.dfy` | the strict JSON ingress against the grammar of RFC 8259 |
| `LeaseSchedule.dfy` | source leases and due times of the collection schedule |
| `AuditLog.dfy`, `Framing.dfy` | the signing service's evidence log, its framing and its slots |
| `CertificateApply.dfy` | all-or-nothing certificate renewal with rollback and resume |
| `GraphDepth.dfy` | the design validator's graph recursion |
| `JsonText.dfy`, `CanonicalJson.dfy` | its canonical JSON |
| `JsonReading.dfy`, `CanonicalForm.dfy` | its bytes read back by the grammar of RFC 8259, in the form of RFC 8785 |
| `Paging.dfy`, `Sorting.dfy`, `Options.dfy` | what the paged endpoints share, sorting by a strict order, and the option type |

Code that changes things step by step is a method or a class here (`StrictJson.Scanner`,
`SearchMatchCache.Cache`, `LeaseSchedule.Vault`, `AuditLog.Log`, `Framing.Connection`,
`Framing.Slots`, `Framing.Server`, `CertificateApply.Files`, and the loops of `RevisionDiff`, `RevisionImpact`,
`SearchPaging`, `VectorRanking`, `VectorPaging` and `GraphDepth`). Each is proved equal to a specification function
or relation, and the promises are proved about that. Protocols of several processes are state
machines whose steps are interleaved freely; the theorems are about every run.

## What is assumed

- A checkpoint is a prefix of an append-only history and reads at it are immutable; the ledger holds
  one record per organization and command id, and one verified revision per digest.
- Each process answers from its own stored projection of the ledger, which is a prefix of it and never
  shrinks; a refresh may bring it to a tip read some time ago, or stop on the way. Only the transports'
  own outboxes, whatever they say, can stand beside it in a description.
- Digests, hashes and cursors are injective and cannot be forged. Where the service sorts by digest,
  a digest is its rank in the order of `localeCompare`.
- The platform's `JSON.parse` accepts exactly the documents of RFC 8259 over UTF-16 code units,
  unpaired surrogates included.
- A vault transaction is atomic, all processes of a schedule read one clock that never goes back, and
  a lease token (a random UUID) is never drawn twice.
- One signing process at a time writes an evidence log; a power loss keeps a prefix of the file that
  holds at least what was flushed; JSON text of a record holds no raw newline.
- A rename replaces a file in one step; a renewed certificate that passes its checks differs from the
  old one, since it expires strictly later.

## What turned out false, or true only in part

- The comment on vector paging says that a change of the index between pages invalidates the cursor.
  The cursor pins the list of digests, not the scores: `VectorPaging.ScoresCanRise` gives an accepted
  walk that shows a lower score before a higher one and so is no ranked list, of any index.
  `VectorPaging.WalkIsSomeRankedListExactly` gives the exact condition under which a finished walk is
  one ranked list: at the start of every page, its first item belongs behind the last item of the page
  before. It is the first page's list exactly when the scores held (`VectorPaging.WalkIsFirstListExactly`).
- An over-long stream to the signing service may be refused or decoded depending on how it is cut
  (`Framing.OverlongDependsOnChunking`): exactly when bytes follow a legal frame
  (`Framing.CutFreeExactly`). `Framing.DecodedExactly` says which cuts decode.
- A failed certificate apply restores every certificate but may leave its plan file marked applied
  (`CertificateApply.PlanCanRunAhead`): exactly when only the plan's write failed, after its rename
  (`CertificateApply.PlanAheadExactly`).
- A stored rejection hint can be wrong, and asking the ledger first helps only as far as the process's
  projection reaches: after one process reported a commit, another whose projection lags still lists
  the command as rejected (`CommandProtocol.HintCanBeWrong`). A command is described as committed exactly
  when its record is within the describing process's projection (`CommandProtocol.CommittedExactly`).
- The scanner's whitespace class is wider than the RFC's and only the final parse narrows it:
  `StrictJson.WideSpaceIsRefused`, `StrictJson.AcceptsExactly`.

## Model

| member | source | states |
|---|---|---|
| CommandProtocol.StoredCommandIsFinal | apps/api/service.ts:1143-1148 | In every run of several processes with crashes, lost answers, late commits and retries, the command and request stored under an actor and command id never change after the first write. |
| CommandProtocol.EveryAttemptSendsStored | apps/api/service.ts:1183-1186 | Whatever was ever sent to the ledger for an actor and command id is the stored command, so all attempts and retries agree. |
| CommandProtocol.OtherRequestNeverExecutes | apps/api/service.ts:1142-1149 | A submission whose request differs, at any moment of a run, from the one stored under its id is never sent to the ledger, before or after. |
| CommandProtocol.SentRequestIsStored | apps/api/service.ts:1142-1149 | In every run, each submission that was sent carries the request that its stored command was built for. |
| CommandProtocol.RepeatIsExecuted | apps/api/service.ts:1128-1152 | A process takes operations in the order they were admitted; a submission that repeats a stored command with its request, and a retry, is started and sends the stored command, whatever other processes, the ledger and refreshes do in between. |
| CommandProtocol.RepeatIsAnswered | apps/api/service.ts:1138-1185 | So a submission repeated after a lost answer gets the receipt of its command, with the result and position of the record, as soon as the projection holds it, committed before or only by this attempt. |
| CommandProtocol.CrashIsRecoverable | apps/api/service.ts:1241-1247 | A crash loses the queue and the running operation, and a stored command is sent again when it is retried or its submission repeated afterwards. |
| CommandProtocol.FirstIsStored | apps/api/service.ts:1145-1149 | Under a new id the built command is stored with its request, unless another process stored one in between; then nothing is written and the operation ends. |
| CommandProtocol.UnknownIsRefused | apps/api/service.ts:1144-1144 | A repeated id with another request and a retry of an unknown id end at once and change nothing else. |
| CommandProtocol.CommitIsReceipted | apps/api/service.ts:1190-1194 | A process that learns of a commit within its projection appends one receipt with the record's result and position, and stores nothing. |
| CommandProtocol.AnswerIsTracked | apps/api/service.ts:1186-1206 | Every other answer gives no receipt and changes only the hint of its own command: pending, rejected with the code, rejected as a conflict for a foreign record, or an earlier rejection taken back. |
| CommandProtocol.ReceiptsAgree | apps/api/service.ts:1172-1194 | Any two committed receipts for an id in an organization, from whichever processes, name the same actor, result and transaction, and the ledger's command for it is the stored one. |
| CommandProtocol.CommittedExactly | apps/api/service.ts:1209-1212 | In every run, a process describes a command as committed if and only if the ledger holds its matching record within that process's projection, and then with the record's result. |
| CommandProtocol.DescribedExactly | apps/api/service.ts:1209-1221 | Every description: not found without a stored command, a conflict exactly for a foreign record in the projection, committed for the matching one, and otherwise what the outbox observed, and only then the stored hint. |
| CommandProtocol.HintNeverMasksCommit | apps/api/service.ts:1197-1212 | Once a process's projection holds a matching record, that process says committed with its result ever after, whatever hints are stored before or after. |
| CommandProtocol.RefreshShowsCommit | apps/api/service.ts:1235-1239 | Across processes, every description from a process's first refresh to a tip read after the commit on says committed; the query of a single command makes such a refresh. |
| CommandProtocol.ReceiptIsLasting | apps/api/service.ts:1192-1212 | An outcome once receipted is what the process that gave it, and every process whose projection reached its transaction, reports ever after. |
| CommandProtocol.HintCanBeWrong | apps/api/service.ts:1198-1200 | A run exists in which one process has reported the commit and another, whose projection lags, describes the command as rejected. |
| CommandProtocol.StepKeeps | apps/api/service.ts:1128-1247 | Each step of any process keeps the protocol invariant and only extends vault, ledger, projections, sent commands and receipts. |
| EligibilityFence.EpochGuardsEligibility | packages/domain/index.ts:1048-1059 | Every ledger transition either moves the epoch or leaves agreements and active slots as they are and only adds records. |
| EligibilityFence.SameEpochGrows | packages/domain/index.ts:1048-1059 | Between two checkpoints with the same epoch no eligibility changed, over any commands in between. |
| EligibilityFence.ForceExactly | packages/domain/index.ts:1222-1395 | A revision in force stays so under a command unless the command ends its agreement (a status change, or a decision against its proposal) or activates another in the slot; then the agreement is inactive and nothing but the new agreement can be in force. |
| EligibilityFence.InForceUntil | packages/domain/index.ts:1222-1395 | Over any commands a revision stays in force until one of them ends or replaces its agreement. |
| EligibilityFence.OneActivePerSlot | packages/domain/index.ts:1318-1378 | In every history of a new ledger the active agreements are exactly those the slots point to, so a slot never has two. |
| Eligibility.EligibleExactly | packages/domain/index.ts:1481-1548 | A slot resolves to an agreement and revision if and only if serving is on, they are in force (an active agreement on exactly that revision, under the present configuration, policy and approvals), every chain of requires-active references from there is at most eight long, repeats no slot and ends in a slot that has exactly the revision the reference names in force, and there are at most 256 such chains. |
| Eligibility.ApprovalsExactly | packages/domain/index.ts:1172-1220 | The approvals of an agreement are found if and only if its decisions, each once, can be ordered so that they are the approvals of its very binding by the representative of one role after the other, under the first policy of its id and version; and they are returned in such an order. |
| Eligibility.RefusalIsTrue | packages/domain/index.ts:1481-1548 | Every refusal is true: behind one prefix for each dependency on the way, its reason names what is wrong with the slot, agreement, approvals or revision at the end of a chain of dependencies, a repeated slot, a chain of nine, a dependency with another revision in force, or more than 256 chains. |
| Eligibility.ServesGrows | packages/domain/index.ts:1481-1548 | Added records neither take eligibility away nor change which agreement and revision make a slot eligible, through every chain of dependencies. |
| EligibilityFence.ProvidedIsEligible | apps/api/service.ts:1560-1591 | When a run is provided, at every checkpoint from the fence to the head of the final check the revision is in force and supported along every chain of dependencies, and the manifest names its agreement, policy and one approval for each role, over every interleaving of commits and refreshes. |
| EligibilityFence.ProvidedExactly | apps/api/service.ts:1560-1582 | A run is provided if and only if its fence committed under a new nonce, the slot could be served there (in the sense of EligibleExactly), and no command up to the final check moved the epoch; it is unavailable exactly when the fence did not commit. |
| EligibilityFence.WithheldExactly | apps/api/service.ts:1570-1581 | With its fence in place a run that is not provided reports a superseded fence exactly when the epoch moved by the refresh, or by the final check of an eligible slot, and otherwise the resolver's reason. |
| EligibilityFence.RevalidatesExactly | apps/api/service.ts:1619-1672 | Whatever manifest is stored, it revalidates exactly against one that differs at most in checkpoint, epoch and the order of approvals; a mismatch is reported as changed knowledge and a refusal by its own reason. |
| EligibilityFence.ValidExactly | apps/api/service.ts:1604-1672 | A provided run revalidates if and only if the slot is provided again under the same agreement: the other compared fields follow. |
| EligibilityFence.ValidStillInForce | apps/api/service.ts:1619-1629 | After a valid revalidation the first revision is the one in force at the new head, and its agreement was active at every checkpoint in between. |
| EligibilityFence.HistoryIsLasting | packages/domain/index.ts:1222-1395 | Over any commands revisions stay, agreements keep their content, and an agreement that left the active state never returns to it. |
| RevisionImpact.BuildReverse | apps/api/service.ts:814-835 | Over batches of any size the map lists exactly the dependents of each revision in scan order; the capacity error comes only beyond 100000 revisions or 500000 references, the other error only when the index stops short. |
| RevisionImpact.DependentsExact | apps/api/service.ts:828-831 | A reference is listed for a target exactly when some revision refers to that target by it. |
| RevisionImpact.Traverse | apps/api/service.ts:841-854 | On any graph, cycles and parallel edges included, the loop ends with exactly the reachable revisions, each at its shortest-path depth, with a via one level closer over a real allowed edge. |
| RevisionImpact.TraversalsAgree | apps/api/service.ts:841-854 | What is reached and how far is determined by the graph alone. |
| RevisionImpact.RequiredWithinAll | apps/api/service.ts:855-855 | The required set lies within the full set, with depths no smaller. |
| RevisionImpact.ListingIsUnique | apps/api/service.ts:856-857 | There is one duplicate-free listing in comparator order, so any sort gives it. |
| RevisionImpact.ListingSplits | apps/api/service.ts:856-857 | The listing holds every affected revision once, and the required ones are exactly its first positions. |
| RevisionImpact.LinksExactly | apps/api/service.ts:836-839 | The check over the reverse map holds exactly when every reference binds the slot of a known revision. |
| RevisionImpact.Query | apps/api/service.ts:809-868 | Page sizes and foreign cursors are refused exactly; each later error occurs only on its condition and an answer only when none holds; the answer is the requested page of the unique listing, with the next cursor, and tells of the revisions what AnswerTells says. |
| RevisionImpact.AnswerTells | apps/api/service.ts:841-866 | The rows are in order, required before informational, nearer before farther, then by digest; each row is a revision reached through references, required exactly when required ones alone lead to it, at the least number of them, with a via one reference nearer under the relationship in which it refers to it; the totals count all affected and all required revisions. |
| RevisionImpact.PagesOfOneListing | apps/api/service.ts:856-867 | Any two pages answered at one checkpoint are stretches of one listing: a position always shows the same revision, kind and depth, different positions different revisions. |
| SearchPaging.Scan | apps/api/service.ts:1290-1313 | Over batches of any size the loop collects the digests at exactly those positions of the listed revisions whose text contains the query, or at all for an empty one, in order, and fails only when the index stops short. |
| SearchPaging.CandidatesExactly | apps/api/service.ts:1294-1295 | The candidates are exactly the published revisions whose context, scope and usage equal the filters that are set, newest first. |
| SearchPaging.MatchesExactly | apps/api/service.ts:1290-1310 | A full scan at a checkpoint is exactly the digests of the published revisions that meet the filters and, for a query that is not empty, contain it, newest first. |
| SearchPaging.Search | apps/api/service.ts:1281-1322 | The endpoint over the cache object answers, and leaves the cache, as its specification says; it refuses exactly page sizes outside 1 to 50 and cursors of another binding or of a checkpoint that is not there. |
| SearchPaging.ReplyIsSlice | apps/api/service.ts:1286-1321 | In any run of requests and commits an answered request shows a slice of one uncached full scan, in the sense of MatchesExactly, at its checkpoint, whatever was cached or evicted. |
| SearchPaging.WalkIsFullScan | apps/api/service.ts:461-490 | Following cursors from a first page to the end, with any page sizes, evictions and new commits in between, shows exactly the full scan, in the sense of MatchesExactly, at the first page's checkpoint. |
| SearchPaging.WalkShowsFront | apps/api/service.ts:485-490 | An unfinished walk has shown exactly the front of that scan up to its next cursor. |
| SearchPaging.CursorStaysGood | apps/api/service.ts:461-482 | A returned cursor stays valid for its binding and its page shows at least one more match. |
| SearchMatchCache.Cache.Get | apps/api/search-matches.ts:29-35 | Over the concrete map and totals, a get answers and reorders as the two-pool specification does, and counts a hit or a miss. |
| SearchMatchCache.Cache.Put | apps/api/search-matches.ts:43-76 | Over the concrete map, totals and side set, a put does what the two independent pools do, and keeps the totals equal to recomputed sums. |
| SearchMatchCache.Cache.Remove | apps/api/search-matches.ts:78-83 | Removing a key keeps totals and side set exact and touches nothing else. |
| SearchMatchCache.Cache.EvictFor | apps/api/search-matches.ts:49-73 | Either eviction loop ends with its own pool evicted as specified and the other pool untouched. |
| SearchMatchCache.EvictIsLongest | apps/api/search-matches.ts:51-72 | What eviction keeps is the longest most-recent suffix with which the new entry fits; with maxEntries at least 1 it always fits, so the `break` is never reached. |
| SearchMatchCache.PutEvictsOwnPoolOnly | apps/api/search-matches.ts:49-75 | An accepted put leaves the other pool's other keys in place, and its own pool is that longest fitting suffix, then the new key. |
| SearchMatchCache.RunWellFormed | apps/api/search-matches.ts:29-83 | After every sequence of calls both pools are duplicate-free, correctly classified and within their own budgets. |
| SearchMatchCache.DefaultBudgets | apps/api/search-matches.ts:1-5 | With the service's limits a run never holds more than 8 lists of 20,000 ids and 2 MiB in all, and beside them 8 longer ones of 64 MiB in all. |
| SearchMatchCache.EntryWeighs | apps/api/search-matches.ts:45-45 | An entry is charged the length in UTF-8 of its key and ids together. |
| SearchMatchCache.RunIsRecencyOrdered | apps/api/search-matches.ts:29-83 | After every sequence of calls both pools are ordered by last use and hold only last-put results. |
| SearchMatchCache.GetReturnsLastPut | apps/api/search-matches.ts:29-75 | A get returns the ids last put under its key or nothing, and nothing after a rejected put. |
| VectorRanking.Ranking | apps/api/service.ts:1358-1371 | The loops produce a ranking: every verified in-scope candidate once, with its score, in comparator order, in both index modes; a required reference in scope is listed whatever the index proposes. |
| VectorRanking.RankingExactly | apps/api/service.ts:1395-1462 | A ranking lists exactly the verified revisions that meet the filters and are required, unscored, or are proposed by one of the first 200 well-formed rows, with the score of the first such row, or, without an index, all of them with their similarity. |
| VectorRanking.RankingIsUnique | apps/api/service.ts:1443-1444 | There is one such ranking for a ledger, input and index. |
| VectorRanking.RankingOrder | apps/api/service.ts:1431-1445 | Required references come first and are the unscored ones; then scores never increase; equal scores go by digest; nothing appears twice. |
| VectorRanking.DerivedScanIsComplete | apps/api/service.ts:1415-1424 | Without an index every verified revision in scope is listed, and nothing else. |
| VectorPaging.VectorSearch | apps/api/service.ts:1350-1383 | Page sizes and cursors of another actor or filter are refused exactly; otherwise the answer is the page, or the refusal of a changed digest list, of the one ranking at the request's checkpoint. |
| VectorPaging.WalkIsOneList | apps/api/service.ts:1373-1383 | Any finished walk of accepted pages, over a changing index and a growing ledger, shows exactly the digests of the first page's ranking. |
| VectorPaging.WalkIsSomeRankedListExactly | apps/api/service.ts:1373-1383 | What a finished walk shows, scores included, is a ranked list for some index if and only if, at the start of every page, its first item belongs behind the last item of the page before. |
| VectorPaging.SortedExactly | apps/api/service.ts:1443-1443 | A finished walk is in comparator order throughout if and only if it is at the page starts. |
| VectorPaging.WalkIsFirstListExactly | apps/api/service.ts:1373-1376 | It is the first page's ranked list if and only if, behind every page, the index gives the digests at that page's positions the scores they had at first. |
| VectorPaging.StableWalkIsRankedList | apps/api/service.ts:1373-1383 | Over an index that stays the same, or a derived scan whose similarities do, a walk is the ranked list. |
| VectorPaging.ScoresCanRise | apps/api/service.ts:1375-1376 | An accepted walk exists that shows a lower score before a higher one, and so is a ranked list of no index. |
| RevisionDiff.FillTable | apps/web/revision-diff.js:51-58 | Filled in place, every cell is the length of a longest common subsequence of its two suffixes. |
| RevisionDiff.Walk | apps/web/revision-diff.js:59-73 | The greedy loop emits the specified script. |
| RevisionDiff.ScriptRoundTrip | apps/web/revision-diff.js:59-73 | Dropping added entries reads back the old lines, dropping removed ones the new lines, both sides numbered from 1, with as many context lines as a longest common subsequence has. |
| RevisionDiff.ScriptIsMinimal | apps/web/revision-diff.js:59-73 | No edit script between the two texts is shorter. |
| RevisionDiff.ScriptRemovalsFirst | apps/web/revision-diff.js:66-72 | In every changed block the removals come first. |
| RevisionDiff.JoinLines | apps/web/revision-diff.js:32-34 | Joining the lines of a text gives the text with normalised line breaks; two texts have the same lines exactly when they agree after that. |
| RevisionDiff.LinesOfWoven | apps/web/revision-diff.js:32-34 | Lines without line breaks in them, put together with any mixture of LF, CR and CRLF between them in which no CR meets an LF, are the lines of the text. |
| RevisionDiff.TextIsWoven | apps/web/revision-diff.js:32-34 | And every text is its lines put together with such line breaks. |
| RevisionDiff.LineDiff | apps/web/revision-diff.js:36-75 | Fallback exactly above the cell limit; otherwise the script, with the line-ending flag set exactly when the raw texts differ and every entry is context. |
| RevisionDiff.EndingsMatchScript | apps/web/revision-diff.js:46-74 | The flag computed from joined lines is the one readable off the script, whose sides join to the normalised texts. |
| StrictJson.AcceptsExactly | apps/api/json.ts:2-56 | A text is accepted if and only if it is an RFC 8259 document in which every object's decoded names are pairwise distinct and allowed and no value lies deeper than 64. |
| JsonScan.ScanAcceptsExactly | apps/api/json.ts:53-54 | The scan alone accepts exactly such documents over the wider whitespace class. |
| JsonScan.DocumentScan | apps/api/json.ts:16-54 | Every rendering of a document, with any legal escapes and whitespace, is scanned to its last character exactly when names and depth keep the rules. |
| JsonScan.ValueExact | apps/api/json.ts:16-52 | From any offset the scanner consumes a rendered value to its end, or fails exactly when it breaks a rule. |
| JsonScan.ValueSound | apps/api/json.ts:16-52 | Whatever the scanner consumes is the rendering of some value of the grammar. |
| JsonScan.StringExact | apps/api/json.ts:6-15 | A string literal is consumed to its closing quote and decoded to the characters that its escapes denote. |
| JsonGrammar.CharactersAreStandard | apps/api/json.ts:4-51 | The literals, brackets, escapes, digits and whitespace are the characters of sections 2, 3, 6 and 7 of RFC 8259, and the forbidden names exactly __proto__, constructor and prototype. |
| JsonScan.NumberExact | apps/api/json.ts:49-51 | The regular expression takes exactly the number token. |
| StrictJson.Scanner.Value | apps/api/json.ts:16-52 | The recursive method with the shared offset ends on every input and computes the specified scan. |
| StrictJson.Scanner.ObjectMembers | apps/api/json.ts:24-36 | The member loop with its set of seen names computes the specified scan. |
| StrictJson.Scanner.String | apps/api/json.ts:6-15 | The string loop computes the specified scan and name. |
| StrictJson.Scan | apps/api/json.ts:53-54 | The scanning stage succeeds exactly on the documents described above. |
| StrictJson.WideSpaceIsRefused | apps/api/json.ts:4-55 | A no-break space before a value passes the scan and is refused by the final parse. |
| LeaseSchedule.Vault.Read | apps/api/confluence-sync.ts:47-55 | A stored record is readable exactly unless a time is no date, a lease is missing or out of place, or a count is negative. |
| LeaseSchedule.Vault.Claim | apps/api/confluence-sync.ts:69-75 | One atomic step: refused while leased or not due, otherwise the record of a new lease replaces the old. |
| LeaseSchedule.Vault.Settle | apps/api/confluence-sync.ts:102-106 | One atomic step: nothing unless the token is current, otherwise the settled record with its next due time. |
| LeaseSchedule.StepKeeps | apps/api/confluence-sync.ts:66-106 | Every step of every process keeps records bounded by the clock, tokens distinct, and each stored lease exactly as its holder claimed it. |
| LeaseSchedule.ReachableRecordsReadable | apps/api/confluence-sync.ts:47-55 | In every run every stored record passes the shape check while the clock is a day short of the last date. |
| LeaseSchedule.SettledReadableExactly | apps/api/confluence-sync.ts:50-53 | In every run, a settlement that applies leaves a record that readers accept exactly while its due time is a representable date. |
| LeaseSchedule.RoundExactly | apps/api/confluence-sync.ts:66-107 | A round of an idle process claims exactly a source that was never collected, whose lease has expired, that is due, or whose binding changed; the lease check of its guard passes exactly for the timeout and five seconds from the clock read of the claim; and its settlement leaves the outcome, the counts and the next due time. |
| LeaseSchedule.OneCurrentHolder | apps/api/confluence-sync.ts:102-103 | No two processes can both settle a source. |
| LeaseSchedule.GuardMeansAlone | apps/api/confluence-sync.ts:81-86 | When a guard passes, this process alone holds the unexpired lease, no other guard on the source passes and no claim of it succeeds, though the guard reads record and clock at different moments. |
| LeaseSchedule.LeaseBlocksUntilExpiry | apps/api/confluence-sync.ts:70-71 | A stored lease blocks a claim if and only if it has not expired, under any binding. |
| LeaseSchedule.LeaseIsExclusive | apps/api/confluence-sync.ts:66-106 | Over any run, a lease its holder does not settle keeps its record untouched until it expires, also when the holder crashed. |
| LeaseSchedule.ClaimSupersedes | apps/api/confluence-sync.ts:70-75 | Claiming over a lease happens only after its expiry and takes the former token out of every record. |
| LeaseSchedule.SupersededForever | apps/api/confluence-sync.ts:102-103 | Over any run a token out of the records never returns, so a superseded process's settle changes nothing. |
| LeaseSchedule.NotBeforeDue | apps/api/confluence-sync.ts:70-71 | Over any run under one binding, a settled record is untouched before its due time. |
| LeaseSchedule.IntervalIsKept | apps/api/confluence-sync.ts:102-106 | Two collections of an unchanged source are at least an interval apart. |
| AuditLog.Log.Audit | infra/fabric/signing-service.ts:422-450 | The write loop appends what lands of the line, tears the log exactly on a partial line, and reports success only for a flushed whole line. |
| AuditLog.Handle | infra/fabric/signing-service.ts:304-316 | The record is written before success is answered; a failed record is answered rejected after a best-effort failure record. |
| AuditLog.Open | infra/fabric/signing-service.ts:405-408 | A log opens exactly when nothing follows its last newline. |
| AuditLog.RunIsWhole | infra/fabric/signing-service.ts:405-453 | In every run with short writes, failures, kills, power losses and reopenings the file is whole submitted records in order and at most one fragment, and every success has its own flushed record. |
| AuditLog.AppendsFollowNewline | infra/fabric/signing-service.ts:422-450 | In every run the file grows only when nothing follows its last newline. |
| AuditLog.FragmentIsFinal | infra/fabric/signing-service.ts:405-430 | With a fragment at its end the file stays as it is, and no success is answered, over any requests, kills and reopenings. |
| AuditLog.RecordsOutlive | infra/fabric/signing-service.ts:436-441 | What was flushed and answered survives every later failure. |
| AuditLog.PowerLossExactly | infra/fabric/signing-service.ts:441-444 | What a flush is for: a power loss leaves any prefix of the file that holds what was flushed, and nothing else. |
| AuditLog.Log.Close | infra/fabric/signing-service.ts:453-453 | Closing keeps the file as it is, and the log closed. |
| AuditLog.RecordsRejoin | infra/fabric/signing-service.ts:430-430 | Lines and fragment of any file put together give the file. |
| Framing.Connection.OnData | infra/fabric/signing-service.ts:210-228 | The handler with its buffer, cached length and flag decides as the verdict on the bytes so far, once. |
| Framing.DecodedExactly | infra/fabric/signing-service.ts:215-228 | A body is decoded if and only if some first chunks spell out exactly its frame, of legal size. |
| Framing.AnyChunking | infra/fabric/signing-service.ts:215-228 | However a legal frame is cut, exactly its body is decoded, and nothing on any proper prefix. |
| Framing.IllegalLengthRefused | infra/fabric/signing-service.ts:219-222 | A length of zero or above the limit is refused however its bytes arrive. |
| Framing.AtMostOneRequest | infra/fabric/signing-service.ts:213-228 | A connection starts at most one request over its whole life. |
| Framing.OverlongDependsOnChunking | infra/fabric/signing-service.ts:225-225 | A frame followed by one byte is decoded or refused depending on the cut. |
| Framing.CutFreeExactly | infra/fabric/signing-service.ts:215-228 | All cuts of a stream have the same outcome if and only if the stream is not a legal frame with bytes behind it. |
| Framing.PrefixRoundTrip | infra/fabric/signing-service.ts:83-89 | The length field reads back as written, whatever follows. |
| Framing.SlotsAreAccounted | infra/fabric/signing-service.ts:477-497 | In every run over all connections the active count is the number of acquired and unreleased slots, between 0 and 16, with at most one acquire and one release each. |
| Framing.Server.Receive | infra/fabric/signing-service.ts:215-233 | Over the connection and slot objects, arriving bytes change the service as one step of its specification: the first decisive chunk decides, and a decoded request with a known key takes a slot only below the limit. |
| Framing.Server.Finish | infra/fabric/signing-service.ts:491-497 | A handler that ends gives its slot back, once, as in the specification. |
| CertificateApply.Files.AtomicWrite | infra/fabric/certificates.ts:485-494 | A target changes exactly when the rename took place, whatever fails around it. |
| CertificateApply.Files.ApplyRenewal | infra/fabric/certificates.ts:715-749 | Classification, installing loop, plan write and reverse rollback end in the specified state with the specified result. |
| CertificateApply.AppliedExactly | infra/fabric/certificates.ts:719-749 | Success if and only if the plan is sound and undrifted, every target is old or new and no write of this attempt fails; then every target is new. |
| CertificateApply.FailureRestores | infra/fabric/certificates.ts:730-741 | A failure other than ROLLBACK_FAILED leaves every target byte-equal to its start. |
| CertificateApply.NeverTorn | infra/fabric/certificates.ts:485-741 | After any fault or crash before or after any rename, rollback included, each target is wholly old or new. |
| CertificateApply.RerunCompletes | infra/fabric/certificates.ts:709-729 | After any history of faulty attempts and crashes the classification accepts and a faultless attempt completes, for any number of profiles. |
| CertificateApply.PlanAheadExactly | infra/fabric/certificates.ts:728-741 | Exactly when a failed attempt leaves the plan marked applied over restored targets. |
| CertificateApply.PlanCanRunAhead | infra/fabric/certificates.ts:728-741 | A prepared plan and a fault exist with that outcome. |
| GraphDepth.DepthExactly | tools/validate_design.py:327-334 | The recursion ends on every finite graph, fails if and only if a cycle is reachable, and otherwise returns the number of nodes on a longest path. |
| GraphDepth.AllDependenciesOk | tools/validate_design.py:336-339 | The limit of eight is met everywhere if and only if no path has nine nodes. |
| GraphDepth.Validate | tools/validate_design.py:336-341 | The loop passes if and only if history is acyclic, no dependency path has nine nodes, and there are at most 256 revisions. |
| CanonicalJson.JcsExactly | tools/validate_design.py:38-94 | Two accepted values have the same canonical bytes if and only if they are equal as JSON. |
| CanonicalForm.JcsIsCanonical | tools/validate_design.py:62-77 | The canonical bytes are UTF-8 of a compact document with names in ascending order, unit by unit, at every level, that denotes a value equal to the given one; and there is only one such document. |
| CanonicalJson.FailsExactly | tools/validate_design.py:38-60 | A value is refused if and only if somewhere inside it is a float or another type, an integer beyond 2^53 - 1, a lone surrogate, or a property name outside ASCII. |
| CanonicalJson.EqualIsEquivalence | tools/validate_design.py:84-94 | The equality is reflexive, symmetric and transitive on accepted values, through nested arrays and objects. |
| CanonicalJson.CanonExactly | tools/validate_design.py:73-94 | Sorting names at every level gives one form per equality class. |
| CanonicalJson.CanonIsSorted | tools/validate_design.py:74-74 | Canonical members are in strictly ascending name order. |
| JsonText.DumpPrefix | tools/validate_design.py:74-74 | Compact text determines the value it starts with and where that value ends. |
| JsonText.Utf8Reads | tools/validate_design.py:77-77 | A reader of the byte layout of section 3 of RFC 3629, which accepts no longer forms, reads the bytes back as the text. |
| JsonReading.DumpExactly | tools/validate_design.py:62-77 | The compact text of an accepted value is an RFC 8259 document, in UTF-16, that denotes the value, without whitespace and with every character of a string as section 3.2.2.2 of RFC 8785 has it; and it is the only such document. |
| JsonReading.ReadsOnce | tools/validate_design.py:38-60 | A document denotes at most one accepted value. |
| Sorting.SortedIsUnique | apps/api/service.ts:856-857 | A set has one listing in a strict order, so the library's sort is determined by its comparator. |

## Left out

- Cryptography, certificate parsing and encodings (SHA-256, HMAC, ECDSA, X.509, base64url): digests, signatures and cursors are tokens, and certificate checks are one flag per profile.
- HTTP routing, sessions, sign-in and static files (`apps/api/server.ts`, `packages/auth`): plumbing around libraries.
- The browser interface, the Slack and review delivery runtimes, smoke tests, drills and templates.
- `dependencyDiff` of the revision comparison: set expressions over two lists, which would add easy members only.
- The Fabric gateway and projection; of the ledger's domain code only the resolver and the transitions that move eligibility are modelled.
- Eligibility.EligibleExactly: records are well-formed where they exist, so the reasons CORRUPT_CONFIG, CORRUPT_ACTIVE_POINTER, CORRUPT_AGREEMENT and CORRUPT_REVISION do not occur.
- EligibilityFence.EpochGuardsEligibility: authorization refusals of a command are not told apart; a refused command is a history without it, and every command is allowed wherever its effect is defined, which only adds runs.
- EligibilityFence.ProvidedExactly: the 30-second wall-clock limit, model egress and the model adapter binding are left out; they only withhold more.
- CommandProtocol.ReceiptsAgree: the ledger's answers are arbitrary, so a transport that rejects, commits late or never answers is included, but why it does so is not modelled.
- SearchPaging.Scan: the case-insensitive substring rule is a parameter; lower-casing is not modelled.
- VectorRanking.Ranking: embeddings and cosine similarity are a parameter, which may differ from page to page, a score is a real number, and annotation in batches of 1000 is one lookup.
- LeaseSchedule.GuardMeansAlone: the abort timer and authorization of a guard are left out; they only make it fail more often.
- AuditLog.RunIsWhole: two processes appending to one log at once are not modelled, and the log starts empty.
- Framing.SlotsAreAccounted: the limit of 64 connections, timeouts and the drain on close are left out.
- CertificateApply.AppliedExactly: a temporary file left behind by a crash is not modelled; only the targets and the plan are.
- GraphDepth.Validate: that every reference names a known revision is checked before and is required here.
- CanonicalJson.JcsExactly: floating point numbers and other types are outside the accepted subset, where equality is not described.
