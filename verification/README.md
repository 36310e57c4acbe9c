# Verified model of the MIAS core

MIAS collects market news and market data, condenses them into sealed artifacts and alerts, and delivers alerts. This
project models the parts of it whose correctness depends on interleavings, crashes, time, or agreement between two
independent computations, and proves their promises with Dafny 4.11.

| Part | Modules | Question answered |
|---|---|---|
| Alert state and its cache | `AlertState`, `AlertHistory`, `AlertStore`, `AlertOutcomes`, `RedisAlertStore` | What does a history of alerts leave stored, and does the concurrent compare-and-set cache equal its pure replay? |
| Collectors | `ExpiringKeys`, `Delivery`, `DeliveryOutcomes`, `Processing`, `ProcessingOutcomes`, `Collector` | With expiring leases and markers, is an event sent and cached once, and what explains each outcome? |
| Policy aliases | `AliasRegistry`, `PolicyIdentity` | Do aliases keep their policy, and does a policy's record tell the events resolved to it? |
| Delivery receipts | `Receipts`, `ReceiptOutcomes`, `ReceiptHistory` | Do concurrent appenders keep a gap-free history that every reader accepts? |
| Artifact store | `ArtifactPublish`, `IndexBuild`, `IndexLifetime`, `ArtifactIndex`, `Base64Url` | Is publishing no-clobber and complete, does the index always build, and is pagination exact while the store grows? |
| Bars and freshness | `Calendar`, `Aggregation`, `AggregationLaws`, `Completion`, `AggregationMeaning`, `Freshness` | Is a derived series never repainted, do intervals compose, is the lag exact? |
| Evidence | `Assembler`, `NewsSelection`, `EvidenceRules`, `EvidenceSynthesis`, `EvidenceMeaning`, `SynthesisMeaning`, `SynthesisValidation`, `AcceptedSynthesis` | Is the assembler order independent, what does a synthesis say of its packet, and when does its independent validator accept it? |
| Nulls and symbols | `CircularRuns`, `RunLengths`, `OccSymbol` | Is the null rotation invariant, and do printing and parsing undo each other? |
| HTTP client | `HttpClient` | Are requests paced, bounded and budgeted over any calls and replies? |
| Shared | `Results`, `Lists`, `Sorting`, `Texts`, `Numerals`, `Dates`, `Arithmetic` | |

How the concurrent parts are modelled: a protocol is a deterministic machine `Next(system, action)` whose actions are single
commands of single actors, time passing, errors and crashes (an actor that is never scheduled again); `Run` folds any list of
actions, so a statement about `Run` is about every interleaving of any number of actors. Each machine has a class whose methods
follow the source command by command, with any rival actions in between; its `Valid()` says that the object's history is a run
of the machine, so everything proved about runs holds of the calls.

What a computation yields is stated twice. A method equals a function of its inputs, and the function is characterized by
theorems that do not use it: over runs, histories and lists (`AlertHistory`, `PolicyIdentity`, `DeliveryOutcomes`,
`ProcessingOutcomes`, `ReceiptOutcomes`, `RunLengths`), or in terms of the input's own fields (`AggregationMeaning`,
`NewsSelection`, `EvidenceMeaning`, `SynthesisMeaning`, `AcceptedSynthesis`).

Conventions. A content id, digest or canonical JSON text is an injective function of what it seals. A Lua script and a single
Redis command are atomic. A TTL is an expiry instant. A directory maps names to contents; a hard link fails if the name exists.
Decimals are exact numbers. Instants are integers: microseconds for artifacts, packets and the collectors, seconds for bars.

Where the code and its own text differ, the model follows the code:

- `alert_engine/state_store.py:60` says that nothing was recorded when the state is unavailable. That holds exactly unless the
  commit's reply was lost after its script had committed (`AlertOutcomes.FailedCallWroteExactly`, with the failing run in
  `AlertOutcomes.LostReplyRecords`).
- `alert_engine/state_store.py:79-89` reads in two commands, so an already seen alert can be answered `terminal_suppressed`:
  exactly when it was committed between the two reads (`AlertOutcomes.SuppressedExactlyWhenCommittedBetween`).
- An event can be sent twice when a later document of it carries a later date. The macro identity leaves the date out
  (`collector/macro_normalizer.py:149-153`) and each call uses its own document's date; the geopolitical record keeps the earliest
  date, but expires. `Delivery.AtMostOnceExactly` gives the exact limits. Under the default settings (`shared/config.py:22-51`)
  the marker outlives freshness by one second, so a macro release re-dated by a second after its send, less the gap of the
  collector's two reads (`collector/macro_collector.py:155`), can be sent again once its marker has expired.
- A synthesis of a valid packet can fail its validator: on an empty text that the packet checks accept and the synthesis checks
  do not, on two item identities whose source names coincide, or on publication dates in different ISO forms, which the builder
  sorts as texts and the validator compares as dates. `SynthesisValidation.BuilderMeetsValidator` gives the exact condition.
- `append_receipt` can report an error for a receipt that it has linked, exactly when only the removal of the temporary file
  failed (`Receipts.ErrorLinkedExactly`).
- `contract_id` prints two digits of the year and `parse` adds 2000, so the round trip holds for 2000 to 2099 only.

## Model

| member | source | states |
|---|---|---|
| AlertState.Decide | alert_engine/state.py:109-121 | the decision field by field: which state is refused, `duplicate` exactly for a seen id, `terminal_suppressed` exactly for an unseen one on a terminal subject, both leaving the subject as it was; a `new` alert stores its id, source and as_of, the pattern of a pattern alert, and an invalidation as terminal under its own id |
| AlertState.Replay | alert_engine/state.py:142-156 | the replay loop computes the fold of the decisions; it stops at exactly the first alert whose stored subject cannot be used, and none before it was refused |
| AlertState.FoldValid | alert_engine/state.py:75-121 | from a well-formed store no alert is ever refused, and the store stays well formed |
| AlertState.TerminalIsFinal | alert_engine/state.py:117-121 | a terminal subject never changes again and an accepted id is never forgotten, over any further alerts |
| AlertState.ReplayOfNewSubsequence | alert_engine/state.py:142-156 | replaying only the alerts that were new gives the same store, and all of them are new again |
| AlertState.AllNewDistinct | alert_engine/state.py:117-118 | accepted ids never repeat, and the seen set is exactly the initial one plus these ids |
| AlertState.TerminalExactlyWhenInvalidated | alert_engine/state.py:102-103 | a subject is terminal if and only if the history holds an invalidation of it |
| AlertState.NewExactlyWhenUnopposed | alert_engine/state.py:109-156 | closed form of the replay: an alert is new if and only if no earlier alert has its id and none invalidated its setup |
| AlertHistory.StoredExactly | alert_engine/state.py:91-156 | over any sealed history a subject is stored if and only if one of its alerts was accepted (no earlier alert of its id, no earlier invalidation of its setup); it holds the symbol of the first accepted alert, id, source, as_of and pattern of the last, and is terminal under the id of its accepted invalidation, if there is one |
| AlertStore.CacheRefinesReplay | alert_engine/state_store.py:41-49 | in every interleaving of any number of recorders, the cache equals the replay of the committed alerts in commit order; each is new there and no id commits twice |
| AlertStore.TerminalNeverChanges | alert_engine/state_store.py:102-118 | once a subject is terminal in the cache, no further run changes it |
| AlertStore.AnswersAreTrue | alert_engine/state_store.py:106-118 | every answer is true at the end of the run: `new` is the replay's decision at its place, `duplicate` means the id is seen, `terminal_suppressed` means the subject is terminal with that state |
| AlertStore.OnlyCommitsWrite | alert_engine/state_store.py:79-118 | a step changes the cache only by committing one alert that is new there, exactly as the pure fold does |
| AlertStore.OneWinnerPerAlert | alert_engine/state_store.py:41-49 | two recorders never both report the same alert id as new |
| AlertStore.GivesUpOnlyUnderContention | alert_engine/state_store.py:106-118 | a call gives up only if at least three alerts about its subject were committed after it started |
| AlertStore.UncontendedRecord | alert_engine/state_store.py:102-118 | a call whose commands meet no other commit answers the pure decision and leaves the pure next store |
| AlertOutcomes.FailedCallWroteExactly | alert_engine/state_store.py:60-118 | "nothing was recorded" holds of an unavailable call if and only if its commit did not lose its reply after the script had committed; a call that gave up has written nothing, and a deciding one has written exactly if it answered `new` |
| AlertOutcomes.LostReplyRecords | alert_engine/state_store.py:60 | for every new alert a run whose call ends unavailable although the alert was recorded |
| AlertOutcomes.SuppressedExactlyWhenCommittedBetween | alert_engine/state_store.py:79-110 | a call that finds its subject terminal and its alert seen answers `terminal_suppressed` instead of `duplicate` if and only if the alert was committed between its marker read and its subject read |
| AlertOutcomes.SplitReadSuppresses | alert_engine/state_store.py:79-89 | for every new invalidation a run of two recorders in which the loser answers so |
| RedisAlertStore.RecorderClient.Record | alert_engine/state_store.py:102-118 | one `record` call, with rivals before every command and a possible connection fault at each: it is one recorder of the machine and ends with that recorder's outcome; a decided outcome is true; with usable stored states it is unavailable only after a fault; it gives up only after three more commits on its subject; without rivals and faults it answers the pure decision and leaves the pure next store |
| RedisAlertStore.RecorderClient.TryToCommit | alert_engine/state_store.py:111-118 | the commit is unavailable exactly after a fault, and otherwise decides the call or starts the next of at most three attempts |
| RedisAlertStore.RecorderClient.ReadAndDecide | alert_engine/state_store.py:82-110 | the subject read and the pure decision: a decision that is not `new` ends the call, a fault makes it unavailable, and with usable states nothing else does |
| RedisAlertStore.AlertCache.Restore | alert_engine/state_store.py:120-141 | a disagreement writes nothing; a failure leaves only missing keys filled in; success leaves exactly the merge of cache and replay, with the number of keys written |
| RedisAlertStore.AlertCache.CheckAll | alert_engine/state_store.py:127-131 | the check phase passes exactly when no cached subject disagrees with the replay |
| RedisAlertStore.AlertCache.RestoreSubject | alert_engine/state_store.py:51-56 | the script answers 1, 0 or -1 and writes only a missing key |
| RedisAlertStore.ResumeCompletes | alert_engine/state_store.py:120-141 | a crash anywhere in a restore leaves a cache that a second restore completes to the same result |
| RedisAlertStore.RestoreContinuesHistory | alert_engine/state_store.py:120-141 | restoring a replay into an empty cache rebuilds it, and recording later alerts continues exactly as if the cache had never been lost |
| Delivery.AtMostOnce | collector/geopolitical_collector.py:148-169 | over an unbounded run whose sends are made and marked under their live leases, an event whose later documents are dated less than `Reach` after its first confirmed send is never sent again, even after the marker expired; `Reach` is what the marker outlives freshness, for the macro collector less the gap of its two reads, for the geopolitical one at least the rest of its record's life |
| Delivery.AtMostOnceExactly | collector/macro_collector.py:144-169 | these limits are exact: among all runs within given limits on timeliness, read gap and re-dating none sends twice if and only if sends are timely and re-dating stays below `Reach` |
| Delivery.ReachSpelledOut | collector/macro_collector.py:93-94 | `Reach` in hours, days and seconds of the settings |
| Delivery.ArrivalMeaning | collector/geopolitical_identity.py:11-86 | what a document of the event leaves: the policy record with the earliest date its live record knew, renewed for its whole lifetime, and a process that carries this date; a macro process carries the document's own |
| Delivery.RedatedEventSendsTwice | collector/macro_collector.py:144-169 | for either collector and any limits that reach `Reach`, a run within them with two confirmed sends |
| Delivery.LateMarkSendsTwice | collector/geopolitical_collector.py:158-167 | without timely sends there is a run with two sends, whatever the other limits |
| Delivery.LiveLeaseIsSafe | collector/geopolitical_collector.py:29-32 | no step of another worker removes or replaces a live delivery lease |
| Delivery.OutcomesAreTrue | collector/geopolitical_collector.py:148-169 | on every run a call ends `Delivered` exactly if it has a confirmed send and then wrote the marker; a call that ended otherwise did neither |
| Collector.DeliveryClient.Deliver | collector/geopolitical_collector.py:148-169 | one `_deliver` call among rivals ends as its worker of the machine does; it is `Delivered` exactly if this worker has a confirmed send and wrote the marker; any other outcome is explained by what it found at its own steps; without rivals the window, the lease, the marker and the provider decide, and what is left is written out; a lease it took is released on every path and the counters count the outcomes |
| Collector.DeliveryClient.Recheck | collector/macro_collector.py:153-156 | the second eligibility check in each collector's own order of reads |
| Collector.DeliveryClient.SendAndMark | collector/geopolitical_collector.py:158-167 | afterwards this worker has a confirmed send, and has written the marker, exactly if the provider confirmed; otherwise an error is counted |
| DeliveryOutcomes.OutcomesAreExplained | collector/geopolitical_collector.py:148-169 | on every run a call ends not eligible only if it found the event out of its window, busy only behind another live lease, withheld only if its second check found the marker or the event out of the window, and sends only if both checks and the lease let it |
| DeliveryOutcomes.UndisturbedDelivery | collector/macro_collector.py:144-169 | a call whose steps follow one another ends, in the one way that window, lease, marker and provider decide, and leaves exactly the confirmed send and its marker, or nothing |
| Processing.CacheCommitsOnce | collector/geopolitical_collector.py:202-215 | whatever leases expire, of two successful cache writes of an event the later happens only when the earlier entry has expired |
| Processing.OutcomesAreTrue | collector/macro_collector.py:171-212 | on every run a process has written the cache exactly if it ends `Processed`, and made a failed or successful API call exactly where its outcome says so |
| Processing.OnlyTheOwnerActs | collector/macro_collector.py:29-41 | no process deletes or replaces a live lease that is not its own, and none writes the cache without owning the lease |
| Processing.FailedCallsCoolDown | collector/macro_collector.py:195-205 | when API calls are made and recorded under the lease, no call follows a failed one within four hours |
| Collector.ProcessingClient.Process | collector/macro_collector.py:171-212 | one `_process` call among rivals ends as its process of the machine does: `Processed` exactly if it wrote the cache, `ApiFailed` exactly if its API call failed, `Duplicate` only if it found the cache live at a look-up or another live lease, `CoolingDown` only if it found the cool-down; without rivals cache, lease, cool-down and API call decide, and a call that finds none in its way leaves its own cache entry; the lease is released on every path that took it, and the counters count the outcomes |
| ProcessingOutcomes.OutcomesAreExplained | collector/macro_collector.py:171-212 | on every run each outcome is explained by what the process found at its own steps: cache, another's lease, cache again, cool-down, its own lease at the write |
| ProcessingOutcomes.UndisturbedProcess | collector/macro_collector.py:171-212 | a call whose steps follow one another ends, in the one way that cache, lease, cool-down and API call decide; with none in its way it leaves its own cache entry for the cache's lifetime, after a failed API call the four-hour cool-down |
| Collector.ProcessingClient.Cache | collector/macro_collector.py:207-209 | it reports a write exactly if it wrote; a write happens under the live own lease and leaves exactly the entry with its expiry |
| AliasRegistry.FindRootMeaning | collector/geopolitical_identity.py:12-20 | the key loop conflicts exactly when two live aliases disagree, and otherwise finds the common live root if there is one |
| AliasRegistry.RegistryInvariant | collector/geopolitical_identity.py:11-39 | in every run each live alias has a live policy record of its root, and that record holds the minimum known publication time and exactly one provenance entry per document resolved to it, the newest |
| AliasRegistry.MergeSumsUp | collector/geopolitical_identity.py:24-35 | merging a record keeps the minimum publication time and one entry per document |
| AliasRegistry.ResolveNeverRebinds | collector/geopolitical_identity.py:13-20 | a live alias keeps its root through any resolution, and a conflict writes nothing |
| AliasRegistry.LiveAliasKeepsRoot | collector/geopolitical_identity.py:11-39 | an alias that stays live keeps its root over any run |
| AliasRegistry.RootsNeverMerge | collector/geopolitical_identity.py:15-20 | a resolution to one root changes no record of another |
| AliasRegistry.Registry.Eval | collector/geopolitical_identity.py:11-39 | the script conflicts without a write, or binds every alias to one root and rewrites the merged record with its expiry |
| AliasRegistry.Registry.AgreedRoot | collector/geopolitical_identity.py:12-20 | the key loop ends with the one root that all live aliases share, or a conflict when two of them differ |
| AliasRegistry.Registry.MergeProvenance | collector/geopolitical_identity.py:30-34 | the provenance loop appends exactly the stored entries of other documents |
| PolicyIdentity.PoliciesTellTheirEvents | collector/geopolitical_identity.py:11-86 | over any run of events, a live policy's publication is the earliest known one of the events resolved to it since its record was created, and it has exactly one provenance entry per document of theirs, that of its newest event |
| PolicyIdentity.SharedAliases | collector/geopolitical_identity.py:64-73 | two events share an anchor's alias exactly if they are of one stage and have an anchor in common, and a document's alias exactly if document, stage and the set of anchors are the same |
| PolicyIdentity.AnchorsMeaning | collector/geopolitical_identity.py:64 | the anchors of an event, each once, in text order |
| PolicyIdentity.ResolveIdentity | collector/geopolitical_identity.py:63-86 | an event without anchors is unresolved; one whose live aliases disagree is refused and nothing is written; otherwise the answer is the root of its live aliases, or, without one, the durable root if no alias was live at the look-up and else the digest of its least anchor, with other processes at work in between; afterwards every alias leads to that root and its record counts the event's document and publication in |
| PolicyIdentity.SharedAnchorSharesPolicy | collector/geopolitical_identity.py:63-86 | two events of one stage that share an anchor resolve to one policy while the first one's aliases live, or the second is refused |
| Receipts.MaxOfMeaning | alert_engine/receipts.py:106 | the next number is one more than the greatest listed, or one |
| Receipts.SequencesStayGapFree | alert_engine/receipts.py:100-128 | with any number of concurrent appenders, races, non-atomic listings and crashes, the linked sequences of each pair are always exactly 1..n |
| Receipts.LinkedReceiptIsPermanent | alert_engine/receipts.py:117-120 | no linked receipt is ever overwritten or removed |
| Receipts.SuccessfulAppendsAreDistinct | alert_engine/receipts.py:105-125 | two successful appends never get the same number for one pair |
| Receipts.GivesUpOnlyAfterFiveReceipts | alert_engine/receipts.py:105-126 | a call gives up only if at least five receipts of its pair were linked while it ran |
| Receipts.ErrorLinkedExactly | alert_engine/receipts.py:117-128 | a call that reports an operating-system error has linked its receipt nevertheless if and only if only the removal of its temporary file failed |
| ReceiptOutcomes.RefusalsAreJustified | alert_engine/receipts.py:66-110 | on every run a call is refused only if its receipt has no attempt, ends before it begins or is delivered without a message id, or if the pair's last number is taken |
| ReceiptOutcomes.NoLeftovers | alert_engine/receipts.py:111-124 | on every run a call that ended without reporting an operating-system error, lost races included, has left no temporary file |
| ReceiptHistory.ReceiptDirectory.Append | alert_engine/receipts.py:100-128 | one append call among rivals, with a possible error at each command, is one appender of the machine; a written receipt is in the directory under its own name; an error is reported only after one, racing only after five more receipts of the pair, a malformed receipt only if no number makes it valid, exhaustion only if number 999999 is taken |
| ReceiptHistory.ReceiptDirectory.Choose | alert_engine/receipts.py:105-110 | the chosen number is one more than the greatest in the listing the call was shown, which holds all that was linked when it began; past the limit or without a valid receipt the call ends |
| ReceiptHistory.LargestListed | alert_engine/receipts.py:90-97 | the listing loop returns the greatest listed sequence, zero if none |
| ReceiptHistory.ReadReceipts | alert_engine/receipts.py:151-180 | reading succeeds if and only if the directory is one that appenders can leave behind, and then returns every receipt once, by alert, channel and number; otherwise it names the error of the first listed bad file, or a gap |
| ReceiptHistory.Collect | alert_engine/receipts.py:159-173 | the first loop succeeds exactly when every file is acceptable on its own |
| ReceiptHistory.FileErrorMeaning | alert_engine/receipts.py:159-172 | a file is skipped, accepted, or refused with the error that says what is wrong with it |
| ReceiptHistory.HasGap | alert_engine/receipts.py:175-179 | the grouping loop finds a gap exactly when some pair's sequences are not 1..n |
| ReceiptHistory.AllGroupsDecide | alert_engine/receipts.py:175-180 | the group check decides whether the directory is gap-free |
| ReceiptHistory.DeliveredMarkers | alert_engine/receipts.py:183-189 | the loop collects exactly the delivered message ids of each pair in sequence order |
| ReceiptHistory.DeliveredIdsAreProven | alert_engine/receipts.py:183-189 | a marker id is one that a delivered receipt of the pair proves, and conversely |
| ReceiptHistory.LastIdIsNewest | alert_engine/receipts.py:183-189 | the last marker id of a pair is that of its delivered receipt with the greatest number |
| ReceiptHistory.RestoreDeliveryResumes | alert_engine/runner.py:278-301 | rerunning a delivery restore after any number of written keys ends as an uninterrupted one |
| ReceiptHistory.MarkerCache.RestoreDelivery | alert_engine/runner.py:278-301 | a disagreement writes nothing; a lost connection leaves exactly a first part written; success keeps what was there, gives every missing marker the last proven id of its pair, and counts the writes |
| ReceiptHistory.MarkerCache.CheckMarkers | alert_engine/runner.py:289-293 | the check phase passes exactly when every cached marker is a proven id |
| ArtifactPublish.FinalNamesAreComplete | artifact_store/store.py:115-155 | in every run, with partial writes, errors and crashes anywhere, a final name holds the complete canonical bytes of its id |
| ArtifactPublish.FinalNameIsPermanent | artifact_store/store.py:136-141 | a bound final name keeps its bytes for ever |
| ArtifactPublish.OutcomesAreTrue | artifact_store/store.py:103-155 | no publisher reports a conflict, and one that reports `published` or `already_present` is right |
| ArtifactPublish.PublishedOnce | artifact_store/store.py:136-141 | at most one publisher per id reports `published` |
| ArtifactPublish.StoredMeansPublished | artifact_store/store.py:103-155 | in every run an artifact is stored if and only if some call of it reports, or will report, `published`; by the row above only one does |
| ArtifactPublish.UnavailableAfterAnError | artifact_store/store.py:115-155 | a call ends unavailable only after an operating-system error of its own |
| ArtifactPublish.NoLeftovers | artifact_store/store.py:126-155 | on every run a call that ended without an error of its own has left no temporary file |
| ArtifactPublish.OtherBytesConflict | artifact_store/store.py:103-112 | on any disk, a call that finds its name taken reports `already_present` for its own bytes and a conflict for others, and touches nothing |
| ArtifactPublish.Store.Publish | artifact_store/store.py:115-155 | one publish call among rivals, with a possible error at each command, ends `published` or `already_present` with the artifact stored, or unavailable, and that only after an error |
| ArtifactPublish.Store.WriteAll | artifact_store/store.py:130-133 | the write loop over the shrinking view writes all bytes, whatever each write takes, or fails after an error of a write |
| ArtifactPublish.Store.Link | artifact_store/store.py:136-147 | without an error the link ends `published`, only if the name was free, or `already_present`, with the artifact stored; an error of the link makes it unavailable |
| ArtifactPublish.Store.Look | artifact_store/store.py:119-122 | the first look finds the name free, or ends the call, as unavailable exactly after an error |
| Base64Url.RoundTrip | artifact_store/index.py:234-248 | unpadded URL-safe base64 decodes to the encoded bytes (section 5 of RFC 4648), with ceil(4n/3) letters of the alphabet |
| Base64Url.LetterAt | artifact_store/index.py:237 | the k-th letter is that of the k-th six bits of the bytes (table 2 of RFC 4648) |
| Base64Url.DecodesByLength | artifact_store/index.py:247 | a text of the alphabet decodes exactly if its length is not one more than a multiple of four |
| ArtifactIndex.CursorRoundTrip | artifact_store/index.py:234-258 | a cursor decodes to the position of its entry, under its own query only |
| ArtifactIndex.AcceptedCursor | artifact_store/index.py:240-258 | a well-formed cursor is accepted exactly if it is of version 1 and of this query, and then means the position in its body |
| ArtifactIndex.LatestMeaning | artifact_store/index.py:179-189 | `latest` finds an entry exactly when it is the only one of the greatest as_of at or before the cut-off, is ambiguous exactly when two tie there, and finds nothing exactly when every as_of is after the cut-off |
| ArtifactIndex.Previous | artifact_store/index.py:215-225 | `_previous` returns the only latest entry strictly before the given one, is ambiguous only on a tie there, and none exactly when nothing is earlier |
| ArtifactIndex.ReadPage | artifact_store/index.py:201-212 | the page loop returns the first matching entries after the position, and a next position exactly when more match |
| ArtifactIndex.History | artifact_store/index.py:191-212 | a query is refused for a limit outside 1 to 200, a reversed window or an unacceptable cursor, in this order; otherwise it gets the newest entries from the lower to the upper bound after the cursor, at most the limit or 50, and a cursor exactly if more are left, all of them after the page |
| ArtifactIndex.CursorsFollowPositions | artifact_store/index.py:191-258 | every cursor that `history` returns is accepted when it is fed back, and the calls follow the positions, whatever the limits and however the store grows |
| ArtifactIndex.CallsAreExact | artifact_store/index.py:191-258 | calling `history` with its own cursors ends and returns exactly the entries with low <= as_of <= high, each once, newest first and then by id |
| ArtifactIndex.PagingIsExact | artifact_store/index.py:191-212 | following the positions with any limits yields exactly the entries of the window after the start, each once, newest first and then by id, and ends |
| ArtifactIndex.PagingOverAGrowingStore | artifact_store/index.py:191-212 | when the index is replaced by supersets between pages there are no duplicates, and no old entry before the cursor is missing |
| ArtifactIndex.PagingEnds | artifact_store/index.py:191-212 | the pages end after at most one more page than there are matching entries |
| IndexBuild.Entries | artifact_store/index.py:114-137 | the directory loop returns the entries of all names, or the first failure |
| IndexBuild.ReadAllMeaning | artifact_store/index.py:114-137 | a directory is readable exactly when each of its names is, and its entries are those of its artifact files |
| IndexBuild.ReadEntryMeaning | artifact_store/index.py:121-137 | a name is skipped exactly if it is a leftover temporary file, gives the entry of its artifact exactly if the file holds that artifact canonically under its own id, and otherwise names the first thing wrong |
| IndexBuild.Group | artifact_store/index.py:143-150 | the first pass fails exactly on a repeated id, and files every entry by id and kind |
| IndexBuild.MakeIndex | artifact_store/index.py:143-163 | the snapshot's views by id, by kind and by symbol all show exactly the given entries, ordered, with the table of prior reports; it fails exactly on a repeated id |
| IndexBuild.PriorReports | artifact_store/index.py:159-163 | the loop tells every summarized report its prior one in its symbol's list |
| IndexBuild.PriorReportMeaning | artifact_store/index.py:165-168 | `prior` is the only latest report of the same kind and symbol strictly before the given one, none, or a tie |
| IndexBuild.IndexSays | artifact_store/index.py:139-168 | every list of the snapshot is newest first and has exactly the entries of its kind and symbol; options reports know their prior one, other kinds have none |
| IndexBuild.ListingOrderIsForgotten | artifact_store/index.py:114-158 | the order of the directory listing leaves no trace in the index |
| IndexBuild.BuildIndex | artifact_store/index.py:261-267 | a complete index or a failure, never a partial index |
| IndexBuild.ArtifactStore.Refresh | artifact_store/service.py:38-47 | a refresh swaps in a complete snapshot of what it read, or keeps the previous one and marks the store not healthy |
| IndexBuild.ArtifactStore.Snapshot | artifact_store/service.py:32-36 | after any refreshes the snapshot is an index of exactly what the last successful one read; it is an error exactly as long as none has succeeded |
| IndexLifetime.BuildSucceedsOnEveryRun | artifact_store/index.py:114-151 | on every run of the publishers, also while they work and after crashes, the build succeeds; its entries are exactly kind, id, symbol and as_of of the artifacts whose names it listed, and it misses none published before it began |
| IndexLifetime.SnapshotsGrow | artifact_store/service.py:38-47 | a later build holds every entry of an earlier one, so cursors may be followed across refreshes |
| Calendar.SegmentsAreDisjoint | market_data/calendar.py:114-126 | segments of one or of different trading days do not overlap |
| Calendar.SegmentIsOneSession | market_data/calendar.py:114-126 | classification is constant on a segment |
| Aggregation.ValidateSeries | market_data/validation.py:5-22 | the series check: one symbol and interval, strictly increasing |
| Aggregation.Group | market_data/aggregation.py:33-49 | the grouping loop: every bar in its bucket in order, keys in order of appearance; it fails exactly on a bar outside every session |
| Aggregation.Aggregate | market_data/aggregation.py:23-57 | the loops compute one combined bar per occupied bucket, and fail exactly on what the source rejects |
| AggregationLaws.BucketByDivision | market_data/aggregation.py:44-45 | the bucket start is the segment start plus the floor division of the offset |
| AggregationLaws.StreamAgrees | market_data/aggregation.py:33-57 | grouping by dictionary equals the incremental form that extends the last bar or starts a new one |
| AggregationLaws.OutputIsValid | market_data/aggregation.py:50-57 | the output is a strictly increasing series of the target interval that keeps the OHLC inequalities |
| AggregationLaws.VolumeIsConserved | market_data/aggregation.py:50-57 | the output has the total volume of the bars it groups: all for an intraday target, the regular session's for a daily one |
| AggregationMeaning.AggregateSays | market_data/aggregation.py:33-57 | every output bar has the open of the first and the close of the last source bar in its bucket, the highest high, the lowest low, the volumes together, their symbol and session; no tradable source bar is left out; bars rise |
| AggregationMeaning.PlaceMeaning | market_data/aggregation.py:39-46 | the bucket of an instant: whole steps from the start of its session segment, or the regular session of the day at midnight |
| AggregationMeaning.EndMeaning | market_data/calendar.py:128-139 | a bar ends a step later but not after its segment, a daily bar at the close |
| AggregationMeaning.AcceptsMeaning | market_data/aggregation.py:24-38 | the accepted series: one symbol, one intraday interval that divides the target, strictly rising, every bar in a session |
| AggregationLaws.AggregationComposes | market_data/aggregation.py:23-57 | aggregating to m and then to T is accepted and equals aggregating straight to T, also for a daily T |
| Completion.SplitCompleted | market_data/completion.py:11-18 | the split keeps order in both parts and fails exactly on a bar with no end |
| Completion.DeriveCompleted | market_data/aggregation.py:61-75 | the method computes the specified filter, and its final filter never fails |
| AggregationMeaning.DerivedSays | market_data/aggregation.py:61-75 | the derived bars are exactly the aggregated bars of the completed source that end by the cut-off and by the end of some completed source bar |
| Completion.NoRepainting | market_data/aggregation.py:61-75 | when the grid-aligned source grows and time passes, the derived series only grows, for intraday and daily targets and truncated buckets |
| Freshness.GridEnds | market_context/freshness.py:36-45 | the loop lists the day's bar ends, the last one truncated to the close |
| Freshness.DayEndsMeaning | market_context/freshness.py:36-45 | these are exactly the grid ends that fall on the day, in increasing order |
| Freshness.NextMeaning | market_data/calendar.py:99-103 | the nearest trading day after a date, or none left in the calendar |
| Freshness.PreviousMeaning | market_data/calendar.py:92-97 | the nearest trading day before a date, or none left in the calendar |
| Freshness.FindNext | market_data/calendar.py:99-103 | the forward search stops at the nearest later trading day, or at the end of the calendar |
| Freshness.FindPrevious | market_data/calendar.py:92-97 | the backward search stops at the nearest earlier trading day, or at the start of the calendar |
| Freshness.ExpectedLatestBarEnd | market_context/freshness.py:48-55 | the backward scan of at most 40 days returns the greatest end of the first day that has one at or before the cut-off |
| Freshness.ExpectedIsGreatest | market_context/freshness.py:48-55 | the result is the greatest grid end at or before the cut-off; the scan fails exactly outside the calendar or when there is none, and never gives up |
| Freshness.CountLag | market_context/freshness.py:58-67 | the forward scan adds up the ends in (latest, expected] day by day, and gives up after 40 trading days |
| Freshness.CountLagIsExact | market_context/freshness.py:58-67 | the count is exactly the number of grid ends in (latest, expected], and None exactly when the span exceeds 40 trading days |
| Freshness.LagLaws | market_context/freshness.py:58-67 | the lag adds up over an intermediate instant and is zero exactly when the ends coincide |
| Freshness.Assess | market_context/freshness.py:70-86 | `current` and `market_closed` mean the series ends at the greatest expected end, `lagging` carries the exact positive lag, `unknown` means off the grid, ahead of it, or beyond the scan |
| CircularRuns.CircularRunLengths | evaluation/nulls.py:64-78 | the loop computes the sorted run lengths read circularly from the first run start |
| CircularRuns.ShiftKeepsRuns | evaluation/nulls.py:59-78 | every circular shift by any offset keeps the run lengths |
| CircularRuns.LengthsAddUp | evaluation/nulls.py:64-78 | the run lengths add up to the sequence length and are positive |
| CircularRuns.OneRunPerChange | evaluation/nulls.py:64-78 | there is one run per position where the state changes, or a single run |
| RunLengths.LengthsSay | evaluation/nulls.py:64-78 | the lengths are sorted, and each occurs as often as the circle has maximal runs of it; a sequence that never changes has its whole length alone |
| Assembler.NewsSection | evidence_packet/assembler.py:149-176 | the loops compute the section by definition: the earliest record of each identity whose records agree, in order, and the number of inputs each reason excludes |
| NewsSelection.NewsSays | evidence_packet/assembler.py:105-176 | the section in terms of the inputs' fields: which inputs each reason excludes, which record of an identity is kept, the order by known date, day, time, family and identity, and every count |
| Assembler.NewsOf | evidence_packet/assembler.py:141-148 | a collection that was not supplied or failed contributes nothing |
| Assembler.InputOrderIsForgotten | evidence_packet/assembler.py:141-176 | permuting the inputs changes neither items nor exclusions, hence not the packet |
| Assembler.NothingIsLost | evidence_packet/assembler.py:149-176 | kept items plus all exclusion counts equal the number of inputs |
| Assembler.KeptItemsAreSound | evidence_packet/assembler.py:105-117 | kept identities are unique, each is about the symbol, and nothing kept is later than the cut-off, date-only publications included |
| Assembler.SortOrderIsTotal | evidence_packet/assembler.py:126-138 | the order key is a total preorder |
| Assembler.TechnicalSection | evidence_packet/assembler.py:77-102 | one timeframe per interval: present exactly with evidence that ends by the cut-off, otherwise with its reason; complete, partial or without any; nothing is supplied without rows |
| EvidenceRules.ShapeIsTotal | market_intelligence/rules.py:86-102 | the opposition shape is defined for all directions with their derived relations, and is the one shape that fits the three directions |
| EvidenceSynthesis.Timeframes | evidence_synthesis/builder.py:38-57 | the loop builds one set of facts per interval, in interval order, an absent one with its gap (what they say is the row on `FramesMeaning`) |
| EvidenceSynthesis.Relations | evidence_synthesis/builder.py:60-68 | one relation for each pair of intervals, in the fixed pair order |
| EvidenceSynthesis.MarketContext | evidence_synthesis/builder.py:78-104 | both self references and every comparison, sorted, then each timeframe related to each of them in product order; nothing without a market context |
| EvidenceSynthesis.Contradictions | evidence_synthesis/builder.py:132-164 | every gap, opposing pair, opposing reference and news fault is reported once, in the sorted order |
| EvidenceSynthesis.Synthesize | evidence_synthesis/builder.py:167-190 | the sections of a synthesis, each built from the same packet and the same timeframe facts |
| SynthesisMeaning.SynthesisSays | evidence_synthesis/builder.py:38-190 | the whole synthesis in terms of the packet's states, returns and items: completeness, frames, relations, alignment, market, news and contradictions |
| EvidenceMeaning.FramesMeaning | evidence_synthesis/rules.py:35-64 | a frame is bullish exactly in the states bullish_setup, bullish_momentum and breakout_watch, bearish exactly in bearish_setup, bearish_momentum and breakdown_watch, unavailable exactly without a row or with insufficient data; its facts are the row's, its age in whole seconds |
| EvidenceMeaning.RelationsMeaning | evidence_synthesis/rules.py:67-73 | two frames oppose exactly if one is in a bullish and the other in a bearish state, agree exactly if both are in one of these, and are unknown exactly if one is unavailable |
| EvidenceMeaning.AlignmentMeaning | evidence_synthesis/rules.py:76-90 | what each pattern says of the three states, and the four counts |
| EvidenceMeaning.MarketMeaning | evidence_synthesis/builder.py:78-104 | the references are the two own returns and the comparisons with the signs of their values; a frame opposes a reference exactly if state and non-zero return point opposite ways; every frame is related to every reference |
| EvidenceMeaning.FoundMeaning | evidence_synthesis/builder.py:132-164 | what is reported, kind by kind, in terms of the packet: gaps, opposed frames, returns against a state, misaligned comparisons, the latest bar on another session's day, missing context and news |
| SynthesisMeaning.NewsMeaning | evidence_synthesis/builder.py:107-129 | the news facts: every tally counts its values, first and last publication with the age of the last, relevance counts, exclusions and sources |
| SynthesisValidation.BuilderMeetsValidator | market_intelligence/validation.py:124-330 | for every valid packet the synthesis passes all re-derived checks if and only if no copied text is empty where the validator demands one, no two items share a source name, and the publication dates that sort first and last as texts are in date order |
| SynthesisValidation.CollidingSources | evidence_synthesis/builder.py:129 | a valid packet with two identities and one source name, whose synthesis is rejected |
| SynthesisValidation.MixedDateForms | evidence_synthesis/builder.py:112-126 | a valid packet with the dates "2024-01-05" and "20240101", whose synthesis is rejected because texts are sorted and dates compared |
| SynthesisValidation.ExtendedDatesAreInOrder | evidence_synthesis/builder.py:112-126 | dates that are all written YYYY-MM-DD never make a packet fail |
| SynthesisValidation.AcceptedHasShape | market_intelligence/rules.py:86-102 | on an accepted synthesis the opposition shape never raises |
| AcceptedSynthesis.AcceptedSays | market_intelligence/validation.py:124-330 | whatever the validator accepts is consistent: directions, ages, relations, pattern, counts, market relations and coverage follow from the shown rows and signs, and its contradictions are exactly those these facts call for, each once, in order |
| SynthesisValidation.FoundIsExpected | market_intelligence/validation.py:295-315 | the contradictions found are exactly the independently re-derived ones |
| SynthesisValidation.FoundDiffers | evidence_synthesis/builder.py:132-164 | no contradiction key is found twice |
| SynthesisValidation.SortedContradictions | market_intelligence/validation.py:318-330 | the sorted list is strictly increasing by (code, subjects) |
| SynthesisValidation.RelationsInProductOrder | market_intelligence/validation.py:213-229 | the market relations cover every timeframe and reference in product order |
| SynthesisValidation.SelfReferences | market_intelligence/validation.py:216-217 | both self references are there, once each and in basis order |
| SynthesisValidation.CountsMeet | market_intelligence/validation.py:110-121 | a tally is sorted, unique, positive and adds up to the number of values |
| SynthesisValidation.LatestMeaning | market_intelligence/validation.py:307-311 | the builder's latest frame is the validator's |
| HttpClient.JsonHttpClient.GetJson | market_data/http.py:63-103 | at most max_retries + 1 requests per call; only lost connections, timeouts, 429 and four server errors are retried, each after a wait of the doubling backoff or the server's wish, up to the cap; the outcome says what the last reply was, or, exactly then, that the budget is used up; the final assertion is unreachable |
| HttpClient.JsonHttpClient.Request | market_data/http.py:68-81 | one paced request: a new spaced instant, counted once, its status counted |
| HttpClient.JsonHttpClient.Pace | market_data/http.py:105-111 | the recorded instant is at least the interval after the previous one, and the pause is exactly what was missing |
| HttpClient.JsonHttpClient.Wait | market_data/http.py:113-126 | one wait: the doubled backoff, after a rate limit the server's wish or the fallback if longer, up to the cap |
| HttpClient.BurstsAreSlow | market_data/http.py:105-111 | n requests take at least n - 1 intervals |
| Dates.ExtendedOrder | evidence_synthesis/builder.py:112 | dates written YYYY-MM-DD sort as texts as they do as dates |
| Dates.DaysAreNumbered | evidence_synthesis/builder.py:126 | each day has the number after that of the day before |
| Dates.ParseMeaning | evidence_synthesis/builder.py:126 | what a date text is read as, digit by digit |
| OccSymbol.ParseUndoesPrint | options_data/identity.py:24-44 | parsing a printed id returns the contract if and only if the expiration year is 2000 to 2099 |
| OccSymbol.PrintUndoesParse | options_data/identity.py:24-44 | printing a parsed symbol gives its normalized text back, unless the strike is zero, which cannot be printed |
| OccSymbol.ParseMeaning | options_data/identity.py:24-36 | a text is read exactly if it is laid out as a symbol with a real date, and then as what its characters say: root, date, type, and strike in thousandths |

## Left out

- Delivery.AtMostOnceExactly: a send that the provider made but did not confirm is not counted as a send; which event a document resolves to is the subject of `PolicyIdentity`, so here every resolution is one of the same event.
- AliasRegistry.RegistryInvariant: the script compares publication times as texts and the model as instants; the normalizer writes all of them in UTC with one function (collector/geopolitical_normalizer.py:45-53), for which the two orders agree.
- PolicyIdentity.ResolveIdentity: the durable lookup is a given answer, and the counter of its Redis hits is left out; an event's provenance is its own single entry, as the normalizer makes it.
- RedisAlertStore.AlertCache.Restore: the documented single writer, without recorders at work beside it.
- ReceiptHistory.ReadReceipts: the reader sees one state of the directory; receipts linked while it reads are not modelled. Appenders' listings are not atomic.
- IndexLifetime.BuildSucceedsOnEveryRun: assumes that the canonical bytes of a validated object validate to the same object, and that ids do not collide.
- ArtifactIndex.CursorRoundTrip: the cursor's JSON text is a given faithful encoding of at most 384 bytes; dates of the ISO text are instants.
- ArtifactIndex.History: symbols and instants are taken as already parsed.
- Completion.NoRepainting: for grid-aligned source series, as the calendar validation demands; unaligned bars may overlap.
- Calendar.SegmentsAreDisjoint: the local day is abstract; time-zone conversion, daylight saving and the exchange's holiday data are not modelled.
- Aggregation.Aggregate: volumes are exact sums; the decimal context's 28 digits are not modelled, and all rejections are one error.
- Assembler.TechnicalSection: the adapters' answer for each row is given; the sorted list of reasons repeats those of the timeframes. The market section is a single comparison of symbol and as_of.
- Assembler.NewsSection: the adapters' answer for each input is given; only their refusal reason and the adapted fields matter.
- SynthesisValidation.BuilderMeetsValidator: what a date text means is any function of the text (`Dates.ParseDate` gives its calendar forms; the week forms of ISO dates are not spelled out); instants are numbers; the closed vocabularies trend, breakout state and confidence, and the versions and ids copied unchanged, are left out; provenance pointers are kept only for contradictions.
- HttpClient.JsonHttpClient.GetJson: a Retry-After that is not a number of seconds (NaN) and the recorded header texts are not modelled; redirects, bodies and TLS are replies.
- OccSymbol.ParseUndoesPrint: ASCII digits and ASCII white space only.
- CircularRuns.ShiftKeepsRuns: the overlap share, the seeded draws and the percentile arithmetic of the null are not modelled.
- Receipts.ErrorLinkedExactly: a directory that cannot be synchronized after the link is ignored by the source and here.
- The treasury collector runs the macro collector's lease protocol; the Fed collector and the headline deduplicator have no lease.
- Network fetching, HTML, RSS and PDF parsing, relevance rules, scoring, AI enrichment, message formatting and Telegram.
- Shadow persistence, the durable registry, databases and the API server.
- File permissions, symbolic links and fsync.
