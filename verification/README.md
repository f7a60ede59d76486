# Verification of the OAN storage, security and identity core

A Dafny model of six connected parts of the OAN crates and proofs of what they promise.

- **Leased job queue** (`JobTable`, `JobStore`, `LeaseRuns`). `JobTable` holds the rows and the SQL statements as
  functions on a map from job key to row. `JobStore.JobStore` is the store object whose methods update that map in
  place, a lease call being one transaction. `LeaseRuns` takes the transaction apart: a lease call selects, then updates
  row by row, and the statements of any other worker may come in between.
- **Cursor paging** (`Keyset`, `JsonRecords`, `JsonDirectory`, `PagingRuns`, `DirectoryRuns`). `Keyset` says what a page of an ascending
  listing is; the record table and the directory of `.json` files are shown to return such pages; `PagingRuns` lets
  other writers upsert and delete between the page query, its probe for more, and the next page, and `DirectoryRuns`
  lets files come, change and go between the pages of a directory scan.
- **Nonce store** (`NonceStore`, `NonceThreads`). Freshness in whole seconds, expiry, replay check, capped eviction; then
  many threads on one nonce file under its lock, in any interleaving.
- **Canonical JSON and what rests on it** (`CanonicalJson`, `KeyOrder`, `Crypto`, `Bulletin`, `Package`). Digests and
  signatures are function parameters about which nothing is known. Every integrity result has the form "equal, or two
  named texts that these very chains or packages hash are different and have one digest".
- **Domain taxonomy** (`Taxonomy`, `TaxonomyTree`). Flattening, the parent walk with its set of seen parents, coverage.
- **Base58 suffixes and weighted matching** (`Suffix`, `Matching`).

`Order` defines sorting by a position (a sequence of integers compared lexicographically, `Order.LessExactly`), which every
ORDER BY and every sort here uses; `Utf8` is the encoding the byte bounds count; `StructKeys` is about the serialized
structs; `Wrappers` holds `Option` and `Result`.

## What turned out to need a condition

- **Lease exclusivity.** Two grants of one key with no enqueue and no mark of it in between: the later `now` has reached
  the earlier `lease_expires_at`, provided that either the workers granted that key read clocks that do not go back
  (`LeaseRuns.ExclusivityInOrder`), or the grants of it between the two asked for leases that do not end before their own
  `now` (`LeaseRuns.LeaseExclusivity`). `LeaseRuns.BackdatedExactly`: where clocks may go back, a call stands between two
  overlapping leases, in some run from the empty queue, if and only if its `lease_expires_at` is less than its `now`.
- **What is handed out.** A grant hands out the payload its call's select read. If the key is enqueued again between select
  and update, that is no longer the row's payload (`LeaseRuns.GrantHandsOutSelected`); inside one transaction nothing comes
  in between.
- **Draining.** A lease call leaves exactly the unselected jobs ready if and only if nothing was selected, or every
  selected payload decodes and `now < lease_expires_at` (`JobTable.LeaseLeavesTheRest`). A payload that does not decode
  rolls the call back: while one is among the first `limit` ready jobs, no call with that limit grants anything, however
  often it is made (`JobTable.UndecodableBlocks`, `JobTable.NothingIsEverGranted`). Bounded waiting therefore counts only
  the calls that commit (`JobTable.BoundedWaiting`).
- **Set-based retry.** One joined UPDATE agrees with the single marks if and only if no key that has a row is listed twice
  in it (`JobStore.JoinIsEachExactly`); the whole call, in state and in count, if and only if no such key is listed twice
  within one chunk of 500 (`JobStore.ChunkedRetryExactly`, `JobStore.ChunkHitsExactly`).
- **Replay bound.** With clock readings out of order by at most `lag` nanoseconds, and no accepted request evicted while it
  is live, no fresh request is accepted twice if and only if `(skew + 1)s + lag - 1ns <= ttl`; for clocks in order that is
  `ttl > skew` (`NonceStore.ReplaySafeExactly`). An access keeps a live entry if and only if it is rejected or fewer than
  10 000 live entries sort after that entry (`NonceStore.RememberedExactly`); a store with room for every nonce it accepts
  evicts none. Without the condition on eviction the guard is not replay safe for any skew and longer time to live: the
  request, 10 000 newer fresh requests, and the request again (`NonceStore.CrowdedOut`). On the requests alone: from a missing file, fresh and with clocks in order, histories of at most n accesses are replay safe if and only
  if n <= 10 001 (`NonceStore.SafeLengthExactly`), and longer ones are while fewer than 10 000 requests fall into each
  access's window (`NonceStore.NoReplayAtThisRate`). The nonce step comes before the signature check
  (crates/oan-service-security/src/lib.rs:279-300).
- **Coverage.** `covers_authorized_domains` is transitive over a taxonomy if and only if no name other than `*` covers `*`
  in it (`Taxonomy.CoverageComposesExactly`); in particular if `*` is no id or alias.
- **Paging under writers.** A finished scan can miss a record that was stored at u, never deleted, and upserted meanwhile
  at the readings t1, t2, ... if and only if some reading is behind the one before it, or t1 behind u
  (`PagingRuns.MissesExactly`). Clocks of other records do not matter. File names never move, so a directory scan that ends
  misses no file that is there throughout and returns none twice, whatever else changes (`DirectoryRuns.PresentIsReturnedOnce`).
- **Printers.** The key-sorting printer and the plain one agree on exactly the values whose objects iterate in key order
  (`KeyOrder.PrintersAgreeExactly`).
- **Appending.** A signed event keeps a bulletin accepted if and only if it is numbered and linked in sequence, its key is
  of the root key's suite, and the root key verifies what that key signs (`Bulletin.AppendSignedExactly`).

## Model

| member | source | states |
|---|---|---|
| LeaseRuns.LeaseExclusivity | crates/oan-storage/src/lib.rs:341-410 | over every interleaved run: two grants of a key with no enqueue or mark of it between them never overlap, by the guard in the update alone, given that grants in between end no earlier than their own now |
| LeaseRuns.ExclusivityInOrder | crates/oan-storage/src/lib.rs:364-379 | the same without that proviso, where the workers granted the key read clocks that do not go back |
| LeaseRuns.BackdatedExactly | crates/oan-storage/src/lib.rs:364-379 | that condition is exact: some run from the empty queue puts a call between two overlapping leases iff the call's expiry is before its now |
| LeaseRuns.BackdatedRun | crates/oan-storage/src/lib.rs:341-410 | such a run: three workers select one ready job, and all three updates go through |
| LeaseRuns.LeaseIsHeld | crates/oan-storage/src/lib.rs:364-379 | from a grant until the next enqueue or mark the row stays leased to at least the granted expiry |
| LeaseRuns.StepOnRow | crates/oan-storage/src/lib.rs:308-540 | a row changes only by an enqueue, a mark or a grant of its own key, a grant found it eligible, and no step removes a row |
| LeaseRuns.UndisturbedCallIsAtomic | crates/oan-storage/src/lib.rs:382-409 | with nothing in between, every update of a call grants its row and the table after them is that of the one-transaction form |
| LeaseRuns.RunKeepsRows | crates/oan-storage/src/lib.rs:317-331 | in every run a row is leased exactly when owner and expiry are set, otherwise neither is, and rows never vanish |
| LeaseRuns.AttemptsCountRetries | crates/oan-storage/src/lib.rs:480-492 | attempt_count grows by exactly the retry marks that found the row; enqueue, lease, reclaim and success leave it alone |
| LeaseRuns.MarksHoldBackGrants | crates/oan-storage/src/lib.rs:412-501 | the next grant after a retry mark waits for next_attempt_at, and after a success mark there is none, unless another enqueue or mark of the key comes first |
| LeaseRuns.RowKeeps | crates/oan-storage/src/lib.rs:308-540 | over any stretch of a run: the payload changes only by an enqueue, the next attempt only by an enqueue or a retry mark, the last error only by an enqueue or a mark, and the creation time never |
| LeaseRuns.LastEventDecides | crates/oan-storage/src/lib.rs:317-331 | a row's payload is that of the last enqueue, its next attempt that of the last enqueue or retry mark, its last error that of the last touch, its creation time that of the step that made it |
| LeaseRuns.LastTouchOrGrantDecides | crates/oan-storage/src/lib.rs:364-379 | status, owner, expiry and update time are those of the last touch or grant: after a grant the row is leased to that worker until that expiry |
| LeaseRuns.PendingWasSelected | crates/oan-storage/src/lib.rs:382-390 | what a call has left to update are rows of its select, as they were then |
| LeaseRuns.GrantHandsOutSelected | crates/oan-storage/src/lib.rs:390-407 | a grant hands out the payload and attempts the row had at the call's select, which is the row's payload still unless the key was enqueued again |
| LeaseRuns.GrantHandsOutLastEnqueued | crates/oan-storage/src/lib.rs:390-407 | that payload is the one of the last enqueue before the select |
| JobStore.RecheckHolds | crates/oan-storage/src/lib.rs:390-401 | inside the transaction the update's re-check never fails, and updating one by one is updating the set |
| JobStore.LeaseAll | crates/oan-storage/src/lib.rs:389-407 | the update loop leases and returns exactly the selected jobs in order, or fails if some payload does not decode |
| JobStore.JobStore.LeaseReadyJobs | crates/oan-storage/src/lib.rs:341-410 | returns the selected jobs with the attempts they had and leases exactly those rows, or returns an error and changes nothing |
| JobStore.JobStore.MarkLeasedJobsSucceeded | crates/oan-storage/src/lib.rs:437-470 | the chunked update reaches the state of marking the keys one by one, repeats included, and counts the keys present in each chunk, which without repeats is the keys present |
| JobStore.JobStore.MarkLeasedJobsRetry | crates/oan-storage/src/lib.rs:503-540 | the looped update reaches the state of marking the jobs one by one and counts every hit, which without repeats is the keys present |
| JobStore.JobStore.MarkLeasedJobsRetrySetBased | crates/oan-storage/src/lib.rs:978-1026 | the state and the count are those of the single marks iff no key with a row is listed twice within one chunk |
| JobStore.SucceedEachIsOneUpdate | crates/oan-storage/src/lib.rs:919-945 | one UPDATE over a key list equals the single marks one after the other, repeats included |
| JobStore.JoinIsEachExactly | crates/oan-storage/src/lib.rs:987-1006 | whichever match the database picks, the joined UPDATE equals the single marks iff no key with a row is listed twice |
| JobStore.ChunkedRetryExactly | crates/oan-storage/src/lib.rs:1007-1025 | whichever match the database picks in each chunk, the whole call equals the single marks iff no key with a row is listed twice within one chunk of 500 |
| JobStore.ChunkHitsExactly | crates/oan-storage/src/lib.rs:1018-1023 | the chunks report at most the hits of the single marks, and all of them under the same condition |
| JobStore.ChunkHitsArePresent | crates/oan-storage/src/lib.rs:437-470 | without repeated keys the chunks report the keys present, so where the list is cut does not show |
| JobStore.PresentAgainstHits | crates/oan-storage/src/lib.rs:987-1006 | one joined UPDATE reports every hit iff no key with a row is repeated in it |
| JobStore.HitsArePresent | crates/oan-storage/src/lib.rs:503-540 | without repeated keys, the hits of the single updates are the keys present |
| JobStore.RetryInTwo | crates/oan-storage/src/lib.rs:512-538 | retrying a list in two parts is retrying it whole |
| JobTable.ReadReady | crates/oan-storage/src/lib.rs:563-588 | the ready list is ascending by next attempt, creation time and key, and holds exactly the eligible rows |
| JobTable.ReadyOrder | crates/oan-storage/src/lib.rs:563-588 | the ready list goes by next attempt, then creation, then key |
| JobTable.EnqueuedIsReady | crates/oan-storage/src/lib.rs:317-331 | an enqueued job is on every ready list with its new payload and time and its old attempts; other keys keep their places |
| JobTable.SucceededIsNotReady | crates/oan-storage/src/lib.rs:412-435 | a success mark takes the job off every ready list and touches no other |
| JobTable.RetriedIsReadyLater | crates/oan-storage/src/lib.rs:472-501 | a job marked for retry is ready exactly from its next attempt time on; others keep their places |
| JobTable.LeaseLeavesTheRest | crates/oan-storage/src/lib.rs:349-409 | a call selects the first min(limit, n) ready jobs and leaves exactly the others ready, in order, iff nothing was selected, or all selected payloads decode and its leases outlive now |
| JobTable.OneRoundServesThoseAhead | crates/oan-storage/src/lib.rs:349-379 | when a call commits, a ready job that is not selected has a full batch of the jobs ahead of it served |
| JobTable.BoundedWaiting | crates/oan-storage/src/lib.rs:341-410 | with limits of at least `least`, unexpired leases and no overtaking, a job with r ready jobs ahead is granted by a call before which at most r / least calls committed, however many were rolled back |
| JobTable.SelectedWhenFewAhead | crates/oan-storage/src/lib.rs:349-363 | a ready job with fewer jobs ahead than the limit is selected |
| JobTable.UndecodableBlocks | crates/oan-storage/src/lib.rs:402-408 | a payload that does not decode among the first `limit` ready jobs makes the call grant nothing and change nothing |
| JobTable.NothingIsEverGranted | crates/oan-storage/src/lib.rs:389-409 | however many such calls follow each other, none of them grants any job |
| Keyset.NormalizeLimit | crates/oan-storage/src/lib.rs:69-118 | an accepted page size is the one asked for, or the default for none or zero, and between 1 and the maximum; refused exactly for invalid limits or a request over the maximum, with that error |
| Keyset.Validate | crates/oan-storage/src/lib.rs:70-102 | limits are valid iff all are positive and the default page is no larger than the largest |
| Keyset.DecodeExactly | crates/oan-storage/src/lib.rs:623-625 | reading a listing succeeds iff every text decodes, and gives what they decode to, in order |
| Utf8.LengthIsByteCount | crates/oan-storage/src/lib.rs:145-173 | the length the byte bounds go by is the number of bytes of the UTF-8 form (section 3 of RFC 3629) |
| Utf8.EncodeIsInjective | crates/oan-storage/src/lib.rs:145-173 | that form tells texts apart, character by character |
| Keyset.PageIsBounded | crates/oan-storage/src/lib.rs:145-173 | a page decodes the first rows past the cursor, within the item, record and page bounds, and says whether more remain |
| Keyset.CollectExactly | crates/oan-storage/src/lib.rs:145-173 | the row loop succeeds for exactly the rows that are each within the record bound, decode, and are together within the page bound; checking the running saturating total row by row is the same |
| Keyset.NextCursorContinues | crates/oan-storage/src/lib.rs:636-653 | what lies past the last row of a page is exactly what lay past the cursor and was not on the page |
| Keyset.PageShrinks | crates/oan-storage/src/lib.rs:668-693 | after a page that has more, the rows past its cursor are fewer, and are just the rest |
| Keyset.ScanIsFullRead | crates/oan-storage/src/lib.rs:628-694 | from any cursor, pages of whatever sizes put together are the full read past that cursor |
| Keyset.ScanFromStart | crates/oan-storage/src/lib.rs:613-694 | from no cursor an error-free scan is read_namespace's sequence, without gap or repeat |
| JsonRecords.Query | crates/oan-storage/src/lib.rs:636-653 | the page query's rows: ascending, and exactly the namespace's rows past the cursor |
| JsonRecords.QueryOrder | crates/oan-storage/src/lib.rs:636-653 | the rows go by updated_at, then key |
| JsonRecords.QueryIsBeyond | crates/oan-storage/src/lib.rs:636-653 | the WHERE clause on the cursor and cutting the ordered full listing at it give the same rows |
| JsonRecords.QueryPage | crates/oan-storage/src/lib.rs:661-688 | the limited rows and the EXISTS probe past the last one are those of a page of the listing |
| JsonRecords.RecordStore.ReadNamespace | crates/oan-storage/src/lib.rs:613-626 | returns the decoded listing, or an error if some payload does not decode |
| JsonRecords.RecordStore.ReadNamespacePage | crates/oan-storage/src/lib.rs:628-694 | returns the page of the listing at the cursor: items, more flag, next cursor and errors |
| JsonRecords.UpsertMovesItsRowOnly | crates/oan-storage/src/lib.rs:590-611 | an upsert puts its row where its clock and key belong, no earlier than it was iff the clock is not behind the row; all other rows keep their order, past any cursor and in any namespace |
| JsonRecords.DeleteRemovesItsRowOnly | crates/oan-storage/src/lib.rs:712-719 | a delete takes its row off the listing and leaves the others in order |
| JsonRecords.CollectRows | crates/oan-storage/src/lib.rs:662-667 | the row loop collects all items or stops with the first refused row's error, and leaves the last row as cursor |
| JsonDirectory.ScanDirectory | crates/oan-storage/src/lib.rs:1353-1367 | whatever order the directory is read in: all .json files, or the scan error exactly when there are more than the limit |
| JsonDirectory.ExtensionExactly | crates/oan-storage/src/lib.rs:1355-1359 | a file counts iff its name is something followed by .json |
| JsonDirectory.PageFromNames | crates/oan-storage/src/lib.rs:1368-1416 | the names past the cursor make the page of the sorted listing |
| JsonDirectory.CollectFiles | crates/oan-storage/src/lib.rs:1376-1405 | the file loop reads up to the limit, notices one more, or stops with the first refused file's error |
| JsonDirectory.ReadDirectoryPage | crates/oan-storage/src/lib.rs:1344-1416 | the page by file name is the page of the sorted listing, after the limit and scan errors |
| JsonDirectory.DirectoryScanIsFullRead | crates/oan-storage/src/lib.rs:1344-1416 | page by page, an unchanged directory's .json files are read in name order, each once |
| DirectoryRuns.PresentIsReturnedOnce | crates/oan-storage/src/lib.rs:1344-1416 | while other files are added, rewritten and removed between pages, a scan returns names in ascending order, none twice, and when it ends every .json file that was there throughout |
| DirectoryRuns.TakenOrPast | crates/oan-storage/src/lib.rs:1368-1405 | of the files past the cursor, those a page does not take are past its last one |
| DirectoryRuns.RunKeepsCovered | crates/oan-storage/src/lib.rs:1376-1409 | in every run such a file has been returned or lies past the cursor, unless the scan failed |
| PagingRuns.TakenOrAhead | crates/oan-storage/src/lib.rs:636-667 | of the rows past the cursor, those not past the page's last row are on the page and the others are still ahead |
| PagingRuns.RunKeepsCovered | crates/oan-storage/src/lib.rs:590-694 | in every run, a record of the start that is never deleted and not moved back by its own upserts has been returned or lies past the cursor, unless the scan failed |
| PagingRuns.ScanMissesNothing | crates/oan-storage/src/lib.rs:590-694 | a scan that ends returns every such record, however upserts and deletes of others interleave and whatever clocks they read |
| PagingRuns.MissesExactly | crates/oan-storage/src/lib.rs:590-694 | a finished scan can miss a record stored at u and upserted at a list of readings iff some reading is behind the one before it, or the first behind u |
| PagingRuns.MissesOnceExactly | crates/oan-storage/src/lib.rs:590-694 | for a single upsert at t: iff t < u |
| PagingRuns.StoredIsLastReading | crates/oan-storage/src/lib.rs:597-604 | a record that is not deleted holds the last reading of its upserts, or its first stamp |
| PagingRuns.UntouchedIsSeenOnce | crates/oan-storage/src/lib.rs:628-694 | a record nobody touches is returned exactly once, as stored, whatever the clock does |
| PagingRuns.StepBackLosesARecord | crates/oan-storage/src/lib.rs:597-604 | for every list of readings with a step back, such a scan |
| NonceStore.FreshExactly | crates/oan-service-security/src/lib.rs:325-336 | the whole-second test admits exactly the requests less than skew + 1 seconds away |
| NonceStore.PruneKeepsNewest | crates/oan-service-security/src/lib.rs:386-407 | after pruning: within the cap, unexpired, values unchanged, only the overflow evicted, and nothing evicted is newer than what is kept |
| NonceStore.PruneNonceStore | crates/oan-service-security/src/lib.rs:386-407 | retain, sort and removal loop compute that store |
| NonceStore.RemoveAll | crates/oan-service-security/src/lib.rs:403-406 | the loop removes exactly the stale names |
| NonceStore.OldestOrder | crates/oan-service-security/src/lib.rs:397-402 | entries are sorted by the instant they were seen at, and within one instant stay in name order |
| NonceStore.NonceFile.VerifyAndStoreNonce | crates/oan-service-security/src/lib.rs:338-373 | the verdict and the whole new file: a corrupt file or a live nonce leaves the file unchanged |
| NonceStore.SurvivesExactly | crates/oan-service-security/src/lib.rs:397-406 | eviction keeps an entry iff fewer than the cap of live entries sort after it |
| NonceStore.RememberedExactly | crates/oan-service-security/src/lib.rs:357-372 | a live entry is in the file after an access iff the access is rejected or fewer than the cap of live entries sort after it |
| NonceStore.FileAfterExactly | crates/oan-service-security/src/lib.rs:345-372 | the whole file after an access: unchanged if rejected, otherwise the live entries and the new one less those with the cap of live entries after them, values as given |
| NonceStore.UnderTheCapNothingIsEvicted | crates/oan-service-security/src/lib.rs:386-407 | a store that has room for every nonce it accepts evicts none of them |
| NonceStore.AcceptedIsRemembered | crates/oan-service-security/src/lib.rs:345-372 | an accepted timestamp stays in the file while no cutoff passes it and no access evicts it |
| NonceStore.NoReplay | crates/oan-service-security/src/lib.rs:273-285 | a fresh request is not accepted twice when (skew + 1) seconds plus the clock lag fit in the time to live and no live request is evicted |
| NonceStore.ReplaySafeExactly | crates/oan-service-security/src/lib.rs:325-373 | that bound is exact over all histories that evict no live request; for clocks in order it is ttl > skew |
| NonceStore.ReplayedHistory | crates/oan-service-security/src/lib.rs:357-362 | beyond the bound, a history of three fresh requests in which the same one is accepted twice |
| NonceStore.CrowdedOut | crates/oan-service-security/src/lib.rs:362-372 | for every skew and ttl > skew, with clocks in order: a request, as many newer fresh ones as the cap, and the request again, accepted both times |
| NonceStore.LiveAreInWindow | crates/oan-service-security/src/lib.rs:345-362 | from a missing file, the live entries an access finds are at most the earlier requests its cutoff has not passed |
| NonceStore.NoReplayAtThisRate | crates/oan-service-security/src/lib.rs:273-285 | a condition on the requests alone: no fresh request is accepted twice while fewer than the cap of requests fall into each access's window |
| NonceStore.SafeLengthExactly | crates/oan-service-security/src/lib.rs:325-407 | from a missing file, fresh and with clocks in order, all histories of at most n accesses are replay safe iff n is at most the cap plus one |
| NonceThreads.RunInvariant | crates/oan-service-security/src/lib.rs:338-384 | in every interleaving only the holder is past waiting, what it read is still what the file holds, and the verdicts are those of the accesses run one after the other |
| NonceThreads.NoInterleavingReplays | crates/oan-service-security/src/lib.rs:273-285 | however threads interleave, no request passes freshness and the nonce step twice, where none is evicted while live |
| NonceThreads.LockRegistry.NonceStoreLock | crates/oan-service-security/src/lib.rs:375-384 | one path always gets the same lock, different paths different ones, and no lock is ever replaced |
| CanonicalJson.ReadsBack | crates/oan-crypto/src/lib.rs:937-968 | by the grammar of RFC 8259, a printed value in front of anything not starting with a digit reads back as itself and leaves just that |
| CanonicalJson.PrintIsShortest | crates/oan-crypto/src/lib.rs:937-968 | whatever text reads as a value, the canonical text of that value is no longer: no leading zero, no needless escape |
| CanonicalJson.ControlEscapes | crates/oan-crypto/src/lib.rs:942-944 | the remaining choice, the case of hex digits in control escapes, is lower case |
| CanonicalJson.NumberReadsBack | crates/oan-crypto/src/lib.rs:941 | decimal integers read back, negative ones included |
| CanonicalJson.CharsReadBack | crates/oan-crypto/src/lib.rs:942-944 | escaped text up to its quote reads back as the text; escapes follow section 7 of RFC 8259 |
| CanonicalJson.PrintIsInjective | crates/oan-crypto/src/lib.rs:764-767 | equal canonical texts come from equal values |
| KeyOrder.OanPrintIsPrintOfCanon | crates/oan-core/src/lib.rs:269-301 | the key-sorting printer prints the value with every object put in key order |
| KeyOrder.OanPrintExactly | crates/oan-core/src/lib.rs:269-301 | two values get one text iff they are equal with objects taken as maps |
| KeyOrder.PrintersAgreeExactly | crates/oan-crypto/src/lib.rs:953-966 | the two printers agree on a value iff all its objects iterate in key order |
| Crypto.EqualHashes | crates/oan-crypto/src/lib.rs:769-774 | equal hashes come from equal values or exhibit two texts with one digest |
| Crypto.SignatureInputBinds | crates/oan-crypto/src/lib.rs:780-789 | under every suite, one text to sign comes from one value, or its two prints collide |
| Crypto.ProofsDescribeThemselves | crates/oan-crypto/src/lib.rs:916-935 | a proof's type, suite and algorithm name are those of the key and digest that made it |
| Bulletin.VerifyHashChain | crates/oan-bulletin/src/lib.rs:146-207 | accepts exactly the chains without a fault and reports the first fault |
| Bulletin.ChainsAgreeBelow | crates/oan-bulletin/src/lib.rs:159-171 | two accepted chains with one hash in place n have equal cores up to n, or the cores of two events in one place collide |
| Bulletin.LastHashFixesTheChain | crates/oan-bulletin/src/lib.rs:146-207 | two accepted non-empty chains with one last event hash have equal length and equal cores, or the cores of two events in one place, or of the two last ones, are different texts with one digest |
| Bulletin.LastHashFixesTheChainStrictly | crates/oan-bulletin/src/lib.rs:132-143 | where all events are hashed by one algorithm, both texts went through it |
| Bulletin.AcceptedInTwo | crates/oan-bulletin/src/lib.rs:146-207 | a chain with one more event is accepted iff the chain before it is and the new event has no fault |
| Bulletin.PrefixIsAccepted | crates/oan-bulletin/src/lib.rs:146-207 | every prefix of an accepted bulletin is accepted |
| Bulletin.AppendSignedExactly | crates/oan-bulletin/src/lib.rs:102-119 | appending a signed event keeps acceptance iff it is numbered and linked in sequence under a key of the root's suite and the root verifies that key's signature over the canonical event hash object (its SHA-256 digest for legacy keys) |
| Bulletin.AppendHistoricalExactly | crates/oan-bulletin/src/lib.rs:146-207 | an event without suite fields is accepted iff numbered, linked, hashed with SHA-256, and the root verifies its bare signature or its proof over the digest of its hash |
| Bulletin.AppendDescribedExactly | crates/oan-bulletin/src/lib.rs:146-207 | an event that names a suite is accepted iff numbered, linked, hashed under it, and its proof is of the root's suite and verified over the text that suite signs |
| Bulletin.SignedEventsDescribeThemselves | crates/oan-bulletin/src/lib.rs:102-119 | a signed event carries the suite, algorithm name, bare signature and proof it was made with |
| Bulletin.OneSignatureOneHash | crates/oan-bulletin/src/lib.rs:173-201 | events that pass with one signature in one form have one event hash, or the root verified it over two different texts, or two named texts collide |
| Bulletin.OneTextOneCore | crates/oan-bulletin/src/lib.rs:165-201 | accepted events of one suite whose signatures were verified over one text have equal cores, or texts of theirs collide |
| Package.MatchFixesDigest | crates/oan-package/src/lib.rs:293-295 | a stored hash in either spelling fits one colon-free digest only |
| Package.OneHashOneValue | crates/oan-package/src/lib.rs:154-171 | two values matching one stored hash are equal or collide |
| Package.EncodeDocumentIsInjective | crates/oan-package/src/lib.rs:154-161 | the serialized document, skipped fields included, determines the document |
| Package.EncodeMetadataIsInjective | crates/oan-package/src/lib.rs:283-291 | the serialized metadata determines the metadata |
| Package.PackageHashBinds | crates/oan-package/src/lib.rs:154-227 | verified packages with one package hash and algorithm have equal documents and full metadata, cleared hash fields included, or their own summaries, documents or metadata are different texts with one digest, of one algorithm if their suites use the same |
| Package.ClaimsBindContent | crates/oan-package/src/lib.rs:154-250 | the same for verified packages bound to equal root claims |
| Package.ClaimsMatchExactly | crates/oan-package/src/lib.rs:229-250 | the claim binding holds iff the root proof carries parsable claims and every claimed field but the bulletin reference is the package's own |
| Package.HashesPassExactly | crates/oan-package/src/lib.rs:154-190 | each stored hash passes iff it is the digest of the canonical text, bare or after the algorithm's name, SM3 for the SM2 suite and SHA-256 otherwise |
| Package.EffectiveSuiteExactly | crates/oan-package/src/lib.rs:141-152 | the suite is the root proof's, or its proof's, or Ed25519 with SHA-256 |
| StructKeys.DocumentByName | crates/oan-core/src/lib.rs:855-880 | every field of a document is serialized under its own name, in key order |
| StructKeys.MetadataByName | crates/oan-package/src/lib.rs:32-67 | every field of the metadata is serialized under its own name, in key order |
| StructKeys.SummaryByName | crates/oan-package/src/lib.rs:173-190 | so is what the package hash digests |
| StructKeys.CoreByName | crates/oan-bulletin/src/lib.rs:56-71 | so is what the event hash digests |
| StructKeys.CoreTextIsKeySorted | crates/oan-bulletin/src/lib.rs:98-100 | the event text is the same from both printers when its payload is in key order |
| Package.SealedVerifiesExactly | crates/oan-package/src/lib.rs:154-250 | filling the hashes in from the content, in either spelling, with matching claims makes a package that verifies, exactly when the metadata repeats the package's identity and domains: the cleared fields leave no circularity |
| Taxonomy.IndexById | crates/oan-core/src/lib.rs:1183-1187 | the index gives the parent of the last record with an id |
| Taxonomy.ParentIsLastRecords | crates/oan-core/src/lib.rs:1183-1187 | the parent of an id is that of the last record with it |
| Taxonomy.IsDescendantOrSame | crates/oan-core/src/lib.rs:1178-1206 | the walk ends on cyclic data and decides exactly the transitive closure of the parent relation |
| Taxonomy.CycleMeetsNothingNew | crates/oan-core/src/lib.rs:1197-1199 | once a parent repeats, nothing not yet met lies further up |
| Taxonomy.Normalize | crates/oan-core/src/lib.rs:1075-1083 | the id of the first domain with this id or alias, and there is one iff some domain has it |
| Taxonomy.DomainFault | crates/oan-core/src/lib.rs:1102-1113 | a single name passes iff it is not empty, resolves to itself and has at most one dot; empty and unknown names are reported as such |
| Taxonomy.ValidateAuthorizedDomains | crates/oan-core/src/lib.rs:1085-1122 | accepts exactly the valid lists, unchanged, and otherwise reports the wildcard, the first faulty name or the order |
| Taxonomy.CoversAuthorizedDomains | crates/oan-core/src/lib.rs:1124-1150 | the early returns and nested search decide coverage as defined by descent |
| Taxonomy.AnyCovers | crates/oan-core/src/lib.rs:1139-1149 | one requested domain is covered iff it resolves and some granted domain that resolves is at or above it |
| Taxonomy.CoverageGoesByDomains | crates/oan-core/src/lib.rs:1139-1149 | names of the same domains are covered alike, and a grant for a domain's parent covers the domain |
| Taxonomy.CoverageComposesExactly | crates/oan-core/src/lib.rs:1124-1150 | coverage is transitive over a taxonomy iff no name other than * covers * in it |
| Taxonomy.CoverageIsTransitive | crates/oan-core/src/lib.rs:1124-1150 | in particular where * is no id or alias |
| Taxonomy.StarBreaksTransitivity | crates/oan-core/src/lib.rs:1132-1134 | any other name that covers * gives three lists that break the chain |
| Taxonomy.CoverageIsReflexiveAndMonotone | crates/oan-core/src/lib.rs:1124-1150 | lists of known names cover themselves; coverage grows with grants and shrinks with requests |
| TaxonomyTree.TaxonomyIndex.FlattenTree | crates/oan-core/src/lib.rs:1152-1176 | fills an empty domain list with the flattened forest and leaves any other list alone |
| TaxonomyTree.TaxonomyIndex.Walk | crates/oan-core/src/lib.rs:1157-1171 | appends the node and all below it |
| TaxonomyTree.FlatIsPreOrder | crates/oan-core/src/lib.rs:1157-1175 | for the places of the forest (paths of child positions) in lexicographic order, the flat list holds the node of each place, with its id and caption and the id of the node one place up |
| TaxonomyTree.PlacesExactly | crates/oan-core/src/lib.rs:1168-1175 | the listing of places has exactly the places that hold a node |
| TaxonomyTree.UniqueIdsExactly | crates/oan-core/src/lib.rs:1152-1176 | a forest's ids are unique iff its flat list names no id twice |
| TaxonomyTree.ClimbIsPath | crates/oan-core/src/lib.rs:1188-1203 | climbing the flat list goes up the tree path one id at a time |
| TaxonomyTree.FlatAgreesWithTree | crates/oan-core/src/lib.rs:1152-1206 | for every forest with unique ids, the walk over the flat list answers yes for (x, y), y not *, iff y is x or an ancestor of x |
| TaxonomyTree.CoverageFollowsTheTree | crates/oan-core/src/lib.rs:1124-1176 | over a forest with unique ids, none *, coverage holds iff nothing is requested, * is granted, or each requested id has itself or an ancestor granted |
| TaxonomyTree.GrantsGoDown | crates/oan-core/src/lib.rs:1139-1149 | a grant for a domain gives those below it, and a grant for one below does not give it |
| Suffix.SamplingIsUnbiased | crates/oan-did-oan/src/lib.rs:172-176 | for any alphabet of 1 to 255 characters the rejection zone is the largest whole number of alphabets up to 255 and every character has zone / n accepted bytes |
| Suffix.EveryCharacterHasFourBytes | crates/oan-did-oan/src/lib.rs:171-182 | the character in place i comes from exactly the bytes i, i + 58, i + 116 and i + 174 |
| Suffix.PushUnbiasedBase58Chars | crates/oan-did-oan/src/lib.rs:171-182 | appends the mapped accepted bytes, stopping when a shorter output reaches 32 characters |
| Suffix.SampleSuffix | crates/oan-did-oan/src/lib.rs:147-169 | ends once enough blocks hold 32 accepted bytes, with the first 32 characters of the mapped stream |
| Suffix.BlockSizeIsInvisible | crates/oan-did-oan/src/lib.rs:147-169 | how the stream is cut into blocks does not change the suffix |
| Suffix.ClassIsAlphabet | crates/oan-did-oan/src/lib.rs:21-27 | the regex's character class is the base58 alphabet |
| Suffix.ParseOfIdentifier | crates/oan-did-oan/src/lib.rs:52-73 | an identifier put together from valid codes parses back to them |
| Suffix.ParseExactly | crates/oan-did-oan/src/lib.rs:52-73 | parse accepts exactly those identifiers, and its final regex check never is what fails |
| Suffix.ParseOfParts | crates/oan-did-oan/src/lib.rs:58-64 | two parts without a colon are refused for the routing code first, then for the suffix |
| Suffix.ParseRefusesExactly | crates/oan-did-oan/src/lib.rs:54-60 | before that, a missing prefix and a number of colons other than three are what is refused |
| Suffix.Generate | crates/oan-did-oan/src/lib.rs:75-98 | a valid routing code always yields an identifier with the sampled suffix that parses to its own parts |
| Matching.JaccardIsSimilarity | crates/oan-semantic-recommender/src/lib.rs:769-790 | the score from two totals and the smaller map is the sum of minima over the sum of maxima |
| Matching.JaccardIsSymmetricAndBounded | crates/oan-semantic-recommender/src/lib.rs:769-790 | it is symmetric and in [0, 1] |
| Matching.JaccardIsOneExactly | crates/oan-semantic-recommender/src/lib.rs:769-790 | for positive weights, not both empty, it is 1 iff the maps are equal |
| Matching.TotalsAreMinPlusMax | crates/oan-semantic-recommender/src/lib.rs:701-705 | the two totals add up to the sum of minima plus the sum of maxima |
| Matching.PostingsExactly | crates/oan-semantic-recommender/src/lib.rs:599-609 | a term's posting list is ascending and holds exactly the profiles with the term |
| Matching.BuildTagTokenIndex | crates/oan-semantic-recommender/src/lib.rs:599-609 | the index has the posting list of every term of three or more characters and of no other |
| Matching.AddProfile | crates/oan-semantic-recommender/src/lib.rs:602-606 | one profile is appended to exactly the lists of its useful terms |
| Matching.CandidateTagProfileIndexes | crates/oan-semantic-recommender/src/lib.rs:467-475 | the result is ascending and holds exactly the profiles a full scan would find |
| Matching.SharesExactly | crates/oan-semantic-recommender/src/lib.rs:467-475 | the full scan's test: some term of three or more characters is in both |

## Left out

- Real cryptography and encodings (Ed25519, SM2, SHA-256, SM3, base58, multibase, base64, JSON-LD proofs): `Crypto.Primitives`
  holds arbitrary functions. The only things ever required of them are digests without a colon and, for appending, that
  the root key verifies the new signature; their error results are not modelled.
- The SQL engines, connection pools, identifier validation, environment variables, file reads and writes. Tables and files
  are maps; a failed statement or write is not modelled, nor is a poisoned lock.
- Timestamps are integers, compared as numbers; the columns are text in one fixed-width format. One call reads one
  CURRENT_TIMESTAMP.
- The Postgres `lease_ready_jobs` (crates/oan-storage/src/lib.rs:840-893): it skips locked rows, and its leases stay when a
  payload does not decode.
- The Postgres `read_namespace_page` (crates/oan-storage/src/lib.rs:1154-1170 binds four values to three placeholders), its
  time zones, and its handling of a negative LIMIT.
- `read_active_leased_jobs`, `count_namespace`, `delete_namespace`, `read_json`: single reads, counts and deletes of what is modelled.
- Lease owner checks on marks: the code has none, so marks match on the key alone.
- `attempt_count`, sequence numbers and the block counter are unbounded; the code uses 64-bit integers.
- JobTable.BoundedWaiting: stated over consecutive lease calls with other steps in between, under the condition that no
  job sorting earlier becomes ready meanwhile and every lease outlives its `now`.
- DirectoryRuns.PresentIsReturnedOnce: one page is one step; changes between its directory listing and its file reads are
  not modelled.
- JsonDirectory.ReadDirectoryPage: file names are valid Unicode; the source compares others lossily.
- JobStore.JobStore.MarkLeasedJobsRetrySetBased: the chunks, which are transactions of their own, are taken to run one
  after the other.
- NonceStore.NonceFile.VerifyAndStoreNonce: a path is taken to be spelled one way; two spellings of one file would get
  two locks. Overflow of `Duration::seconds` is not modelled.
- The other checks of `verify_signed_request_envelope` (method, path, purpose, audience, signature, body hash): one branch
  each. They come before freshness or after the nonce step and do not touch the nonce file.
- JSON floats; numbers are integers. Texts are sequences of Unicode characters, ordered by code point.
- CanonicalJson.Print: prints an object's members in the order they are given. Structs are given as their serialized
  members in key order; nested structs, free-form payloads and timestamps stand as already serialized values.
- `verify_resource_type_consistency`, the credential and shape validators, publication events, JWK checks: one branch each.
- `CapabilityTagTree`: its flattening and walk are those of the taxonomy.
- Rounding of `f32` scores: weights are reals. Ranking, phrase scores, tokenization, `normalize_text`,
  `normalize_capability_tags`, locale detection and explanations are not modelled.
- The HTTP client, URL parsing, embedded data files and the offline tree generator.
