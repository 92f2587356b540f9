# MusicBee Remote core: a verified model

This project models the parts of the MusicBee Remote plugin whose correctness
rests on more than one function, and proves what they promise. `dafny verify
dfyconfig.toml` checks all of it.

The change log (`LibraryChanges`, `ChangeLogStore`, `LibrarySync`) is a
replication protocol. Class `ChangeLog` holds the two tables and the counters
and is proved, loop by loop, to do what the functions of `LibraryChanges` say;
`LibrarySync` puts a client and a server next to each other and proves
convergence over every run, with passes and library switches between pages.

The metadata cache is four protocols and three refinements. `TagRows`,
`NavLists` and `GenreMemo` are step systems: every interleaving of their
atomic steps is a run, atomics are sequentially consistent and write
transactions are serialised. `Reconcile` is the stamp-based invalidation as a
class over its tables and `AlbumStamps` its invariant over runs against a host
that changes; `Fingerprint` says what the reconcile's trigger notices.
`SortFields`, `SortOrders`, `TrackListing` and `GenreCounts` relate stored
orders, pages, filtered listings and counts to plain sorts and scans
(`Sorting`).

`UpdateApply` is the elevated update, from the staged bundle to the outcome,
with a target only the helper writes, and everything it can meet as an input:
what each read of the bundle finds while others rewrite it, links, reads and
writes that fail, and what a failed write leaves in its one file.

The smaller modules are the artist credits (`Credits`), multi-value fields
(`MultiValue`), calendar arithmetic (`Calendar`), the JPEG header walk
(`JpegHeader`) and the pseudonymizer of captures (`Scrubber`). `Order`, `Text`
and `CachedTags` are shared.

## Where the code does not do what it says

For each, one lemma gives the exact condition under which the promise holds and
another a concrete case where it does not.

- The edit path skips the patch of the kept tag rows while none are kept, also
  when a read is under way, which may have the rows from before the edit. The
  skip is harmless exactly when it has none of them for a track that no other
  change is on its way to
  (`TagRows.SkippedPatchIsHarmlessIff`, `TagRows.SkippedPatchDuringRead`; a run:
  `TagRows.UnpatchedEditLeavesAStaleRow`).
- Genre counts are documented as absent while some track's tags are missing. From
  any reachable state, answers stay exact until the next commit exactly when the
  memo is exact and no reader has passed a check that no longer holds (`GenreMemo.AnswersAreExactIff`; a run
  from the start: `GenreMemo.IncompleteAnswerWhileDropping`).
- Tag rows put after a reconcile but read before it leave a stale row after the
  next one exactly when that does not drop their album, which the stored
  fingerprint, versions and stamps decide (`AlbumStamps.ReconciledRunIsSoundIff`
  over whole runs, `AlbumStamps.LatePutIsHarmlessIffDropped` for one put,
  `AlbumStamps.LateRowIsNotCorrected`; a run:
  `AlbumStamps.LateRowFromTheStart`).
- Albums are compared by a key that joins artist and title with a blank, so two
  albums can have one key. A moved stamp is hidden exactly when a later album of
  the listing has the same key (`AlbumStamps.MoveIsHiddenIffKeyIsShared`,
  `AlbumStamps.KeysCanBeShared`).
- A rebuild of the sort orders with no cached tags leaves the old orders in
  place. In a validated store the rebuilt orders are those of the tags exactly
  when there are tags or no order was stored (`SortOrders.RebuildHoldsIffTagged`,
  `SortOrders.EmptiedTableKeepsItsOrders`).
- A genre's count includes cached tracks the index does not list; it is the
  length of the genre's listing exactly when there are none
  (`GenreCounts.EntryIsItsListing`, `GenreCounts.StrayIsCounted`).
- The count mixed into the fingerprint tells apart only listings of different
  sizes: an album replaced by another is missed exactly when their terms are
  equal, and two changes at once exactly when their terms' sums are
  (`Fingerprint.ReplacementIsMissedIff`, `Fingerprint.TwoChangesAreMissedIff`;
  `Fingerprint.SomeReplacementIsMissed`, `Fingerprint.TwoMovedStampsCanBeMissed`).
- Credits read and stored again read differently exactly when a name uncovered a
  control character or a bracket was empty
  (`Credits.RereadIsStable`, `Credits.SomeValuesChangeWhenRestored`).
- The artist filter reads a track's credits only if the stored text holds the
  name. It misses a stored lead with a byte order mark inside the name, and a
  display artist with blanks around it, and nobody else
  (`TrackListing.GuardIsExactIff`, `TrackListing.GuardMissesMarkedNames`,
  `TrackListing.GuardMissesUntrimmedArtists`).
- A capture's metadata is renamed only where the field itself is a string. A list
  or an object under a metadata key keeps its strings unless they look like
  paths, and a path field that is a list or an object keeps everything. Nothing
  escapes a frame exactly when neither holds something to rename
  (`Scrubber.NothingEscapesIff`; `Scrubber.ArtistListEscapes`,
  `Scrubber.ListOfNamesIsLeftAlone`, `Scrubber.NestedPathFieldIsLeftAlone`).
- An installed file whose metadata cannot be read looks absent to the backup and
  is replaced with nothing kept of it. Rollbacks restore every installed file of
  the manifest exactly when there is no such file among them
  (`UpdateApply.RollbackRestoresIff`, `UpdateApply.UnseenFileIsLost`).
- A dangling link looks absent when the files are written, so its write lands
  where it points. Nothing is written outside the directory exactly when no file
  of the manifest has the name of such a link
  (`UpdateApply.NothingLandsOutsideIff`, `UpdateApply.LinkedFileLandsOutside`).

## Model

| member | source | states |
|---|---|---|
| LibraryChanges.RecordKeepsInv | packages/mbrc-core/src/library_changes.rs:277-357 | a pass from any log in the invariant leaves one in it (filings and floor at or below the head, tombstones within the bound, every tombstone at or above the floor), never lowers the floor, and drops a filing only as a tombstone at or below the new floor |
| LibraryChanges.RecordFilesTheListing | packages/mbrc-core/src/library_changes.rs:294-344 | after a listing pass the live paths are exactly those listed; after any other pass the live paths are those of before |
| LibraryChanges.RecordMovesExactly | packages/mbrc-core/src/library_changes.rs:294-344 | whatever a pass leaves filed carries the new generation if and only if its path is newly listed, no longer listed, or live and updated; then it is live if and only if listed, and otherwise it is filed as it was; every listed path is filed |
| LibraryChanges.RecordMovesOn | packages/mbrc-core/src/library_changes.rs:277-357 | the generation and the answer move on by one if and only if a path moved, an epoch is drawn if and only if there was none, and a first pass without a listing changes nothing |
| LibraryChanges.RecordForgetsTheOldest | packages/mbrc-core/src/library_changes.rs:346-356 | a pass forgets only paths that are not listed, nothing unless the bound is exceeded, then down to exactly the bound; the new floor is the newest generation forgotten and no newer than any tombstone kept |
| LibraryChanges.RecordResultIsMovement | packages/mbrc-core/src/library_changes.rs:297-318 | a pass returns no generation if and only if the live set already matched the listing and no updated path is live |
| LibraryChanges.OldestTombstonesAreOldest | packages/mbrc-core/src/library_changes.rs:409-431 | what is forgotten is tombstones only, none newer than the last forgotten, which is no newer than any kept |
| LibraryChanges.ForgettingCounts | packages/mbrc-core/src/library_changes.rs:346-352 | forgetting keeps every live path and takes exactly as many tombstones as asked when there are that many |
| LibraryChanges.RangeIsTheWindow | packages/mbrc-core/src/library_changes.rs:178-197 | the key range a read walks is exactly the filings after its lower bound and up to its upper generation |
| LibraryChanges.ReadIsAnsweredIff | packages/mbrc-core/src/library_changes.rs:165-191 | a full read is always answered with changes, a read since a cursor if and only if the cursor is of the live epoch and from the floor to the head, a resumed read likewise; any other request gets a resync at the head, and none an answer before the first listing |
| ChangeLogStore.Diff | packages/mbrc-core/src/library_changes.rs:363-398 | the merge of an unsorted list with repeats against the path table gives the two set differences, sorted and without repeats |
| ChangeLogStore.CountsCannotSaturate | packages/mbrc-core/src/library_changes.rs:323-338 | whenever a counter is decremented it counts at least one path, so no saturating subtraction saturates |
| ChangeLogStore.WalkIsAPrefix | packages/mbrc-core/src/library_changes.rs:219-237 | what a walk over the log has kept so far is a prefix of all it wants, and all of it exactly when no wanted row is left |
| ChangeLogStore.CollectOldest | packages/mbrc-core/src/library_changes.rs:414-425 | walking the log in order and stopping at the count collects exactly the oldest tombstones |
| ChangeLogStore.Range | packages/mbrc-core/src/library_changes.rs:193-221 | the range over the log table is the window of the path table, in order, with its count |
| ChangeLogStore.TakeChanges | packages/mbrc-core/src/library_changes.rs:219-237 | the page is the first `limit` wanted changes of the window and says whether more follow |
| ChangeLogStore.ChangeLog.constructor | packages/mbrc-core/src/library_changes.rs:108-110 | a new log is the empty one, within the invariant |
| ChangeLogStore.ChangeLog.Record | packages/mbrc-core/src/library_changes.rs:277-357 | the two tables stay exact inverses, the counters stay the true counts, and the new state and result are those of the pass function |
| ChangeLogStore.ChangeLog.EditedOf | packages/mbrc-core/src/library_changes.rs:299-307 | the updated paths that are live and not just added, sorted and without repeats |
| ChangeLogStore.ChangeLog.FileMoved | packages/mbrc-core/src/library_changes.rs:318-344 | every added or edited path is filed as live and every removed one as a tombstone under the new generation, tables and counters in step |
| ChangeLogStore.ChangeLog.FileOne | packages/mbrc-core/src/library_changes.rs:323-344 | one filing replaces the path's row in both tables and moves the counters by exactly its change |
| ChangeLogStore.ChangeLog.ForgetOldest | packages/mbrc-core/src/library_changes.rs:409-431 | exactly the oldest tombstones leave both tables; returns the newest generation among them |
| ChangeLogStore.ChangeLog.Read | packages/mbrc-core/src/library_changes.rs:165-260 | the page, resync or absence that the reading function of the state gives, for every request |
| ChangeLogStore.ChangeLog.Reset | packages/mbrc-core/src/library_changes.rs:263-273 | the log is the empty one again |
| LibrarySync.StepKeepsInv | packages/mbrc-core/src/library_changes.rs:165-357 | every step of client or server keeps the invariant tying a half-read copy to its window, total and last key served |
| LibrarySync.SyncConverges | packages/mbrc-core/src/library_changes.rs:165-260 | over every run, a client whose stored cursor is in the live epoch and at or above the floor holds every live path filed up to it, at its latest filing, no path deleted by then and none the log does not know; at the head its copy is the library |
| LibrarySync.TotalsAreUpperBounds | packages/mbrc-core/src/library_changes.rs:214-249 | over every run, no read serves more than the total of its first page, and every page repeats it |
| LibrarySync.PagesServeTheWindowInOrder | packages/mbrc-core/src/library_changes.rs:178-237 | each page's changes strictly increase by (generation, path), inside the window and after everything served before |
| LibrarySync.PageIsTheWanted | packages/mbrc-core/src/library_changes.rs:178-250 | for every log and request, a page is as many of the wanted filings as fit, in order and none passed over, each as filed; the first page's total is their number, and it goes on from its last change if and only if some are left |
| LibrarySync.PageProgress | packages/mbrc-core/src/library_changes.rs:207-257 | a page ends its read with the cursor and copy of its window, or leaves strictly less; served and left always add up |
| LibrarySync.ReadsAreFinite | packages/mbrc-core/src/library_changes.rs:178-257 | under any interleaving of passes a read takes no more pages than it had changes left |
| LibrarySync.QuietLibraryIsReached | packages/mbrc-core/src/library_changes.rs:165-260 | once nothing is filed, a client that keeps asking from any reachable state ends with exactly the live library |
| LibrarySync.QuietReadIsExact | packages/mbrc-core/src/library_changes.rs:207-257 | a read nothing is filed during serves exactly its total and ends with exactly the live library |
| LibrarySync.AtHeadStays | packages/mbrc-core/src/library_changes.rs:165-191 | a client that has the library is answered with an empty page, not a resync, and stays where it is |
| LibrarySync.ResyncedIff | packages/mbrc-core/src/library_changes.rs:182-191 | after any run, a client is told to start over if and only if its cursor or its read is of another epoch, or the floor is above its cursor |
| LibrarySync.KeepingUpIsEnough | packages/mbrc-core/src/library_changes.rs:182-191 | over any run in which the cursor stays in the live epoch, at or above the floor, no page is a resync |
| UpdateApply.Helper.VerifyStaged | packages/mbrc-helper/src/update.rs:239-270 | succeeds if and only if the manifest as read is signed and valid and each file as read is no link and has the digest it names, and returns those very bytes; otherwise the error is that of the first thing wrong |
| UpdateApply.Helper.BackUp | packages/mbrc-helper/src/update.rs:290-325 | succeeds if and only if the backup has a place and no installed file it sees stops it; the bytes kept are those of exactly these files; otherwise the error is that of the first stop; the target is untouched |
| UpdateApply.Helper.WriteAll | packages/mbrc-helper/src/update.rs:328-341 | succeeds if and only if no file is an installed link and no write fails, and then every file holds its bytes; otherwise it stopped at the first failing file, those before it written, a link as it was; nothing but the files is changed either way, save where a dangling link among them points |
| UpdateApply.Helper.Restore | packages/mbrc-helper/src/update.rs:348-380 | a file is named as unrestored if and only if it is a link by then, or its write fails and it cannot be read back with its bytes; every other kept file has its original bytes, from memory and not from the backup directory; nothing else changes |
| UpdateApply.Helper.AlreadyRestored | packages/mbrc-helper/src/update.rs:385-387 | says yes if and only if the file can be read and holds the backup's bytes |
| UpdateApply.Helper.Apply | packages/mbrc-helper/src/update.rs:199-224 | which outcome what is met leads to, and what it says of the target: applied if and only if the bundle verifies, the program exits, the backup succeeds and no swap write fails, with every manifest file installed and nothing else changed; still running if and only if the bundle verifies and the program stays; rolled back if and only if the swap failed and every file kept came back, and otherwise exactly those that did not are named; refused, still running and failed leave everything as it was; outside the directory nothing changes but where a manifest file is a dangling link |
| UpdateApply.RollbackRestoresIff | packages/mbrc-helper/src/update.rs:290-380 | every possible result of a failed swap and its rollback restores every installed manifest file if and only if the backup could see the metadata of each of them |
| UpdateApply.UnseenFileIsLost | packages/mbrc-helper/src/update.rs:290-380 | with one installed file the backup cannot see, a rollback that leaves other bytes in it |
| UpdateApply.NothingLandsOutsideIff | packages/mbrc-helper/src/update.rs:328-341 | no swap, finished or not, writes outside the directory if and only if no manifest file has the name of a dangling link |
| UpdateApply.LinkedFileLandsOutside | packages/mbrc-helper/src/update.rs:328-341 | one manifest file over a dangling link: after a finished swap its bytes are where the link points |
| TagRows.StepKeepsInv | packages/mbrc-core/src/metadata_cache.rs:1091-1128 | every step of readers, edits and index changes keeps the kept rows current wherever no change is on its way |
| TagRows.KeptRowsAreCurrent | packages/mbrc-core/src/metadata_cache.rs:1091-1128 | over every run with one edit in flight per path in which each patch left out is harmless, every kept row with no change on its way is the host's row; with none on its way at all, every kept row is |
| TagRows.HandedRowsNeverChange | packages/mbrc-core/src/metadata_cache.rs:1117-1128 | over every run, a row table somebody holds never changes |
| TagRows.ReadIsKeptIff | packages/mbrc-core/src/metadata_cache.rs:1093-1113 | a read is kept, with the rows it has, if and only if nothing was patched or dropped while it went on, whatever else ran; its reader has the rows either way |
| TagRows.QuietReadKeepsTheHost | packages/mbrc-core/src/metadata_cache.rs:1093-1113 | a full read in any order that nothing comes between keeps exactly the host's rows |
| TagRows.PatchReplacesTheEdited | packages/mbrc-core/src/metadata_cache.rs:1117-1128 | a patch replaces the edited rows the table has by those read back, keeps all others and adds none |
| TagRows.SkippedPatchIsHarmlessIff | packages/mbrc-core/src/server/commands_v6/tags.rs:414-425 | from any state in the invariant, an edit that ends unpatched, rows kept or not, keeps every disciplined run after it coherent if and only if the rows kept, and those of a read that can still be kept, are at that moment the host's for each edited track no other change is on its way to |
| TagRows.SkippedPatchDuringRead | packages/mbrc-core/src/server/commands_v6/tags.rs:414-425 | with no rows kept, an edit that ends unpatched keeps every disciplined run after it coherent if and only if the read under way, if it can still be kept, has the host's present row of each edited track no other change is on its way to |
| TagRows.UnpatchedEditLeavesAStaleRow | packages/mbrc-core/src/server/commands_v6/tags.rs:414-425 | a run of five steps in which the skipped patch leaves a stale row nothing will correct |
| TagRows.OverlappingEditsLeaveAStaleRow | packages/mbrc-core/src/metadata_cache.rs:1117-1128 | a run from the start in which two edits of one track at once patch in the wrong order, so one edit in flight per path is needed |
| NavLists.StepKeepsInv | packages/mbrc-core/src/metadata_cache.rs:906-940 | every step of loads, fetches, puts and drops keeps the invariant on generations |
| NavLists.DropOutlivesNothing | packages/mbrc-core/src/metadata_cache.rs:906-940 | over every run, once a drop has returned no stored drill-down was fetched under a generation loaded before it began, then or ever after, and none holds the library as it was before |
| NavLists.PutGoesAheadIff | packages/mbrc-core/src/metadata_cache.rs:918-940 | a fetched drill-down is written if and only if no drop has begun since its generation was loaded, whatever else ran in between |
| NavLists.StoredUntilDropped | packages/mbrc-core/src/metadata_cache.rs:927-940 | what is written is stored as it was fetched, and stays while no drop finishes and nothing else is stored |
| GenreMemo.StepKeepsInv | packages/mbrc-core/src/metadata_cache.rs:502-526 | every look, commit, keep and return keeps the memo's invariant |
| GenreMemo.MemoIsCoherent | packages/mbrc-core/src/metadata_cache.rs:1135-1151 | over every run, with no writer between commit and return a kept memo is the rows of the committed tags, and every track has its tags |
| GenreMemo.AnswersAreFresh | packages/mbrc-core/src/metadata_cache.rs:1135-1151 | every answer is the rows of one committed state no older than any write that has returned; of the newest one when no writer is in flight |
| GenreMemo.ReturnedWritesAreSeen | packages/mbrc-core/src/metadata_cache.rs:507-526 | once a write has returned no later answer is older than it, whatever runs in between |
| GenreMemo.CompleteCacheIsAnswered | packages/mbrc-core/src/metadata_cache.rs:1135-1151 | from any state with a complete cache, a reader left alone is answered with the rows of the cached tags, and they are kept |
| GenreMemo.AnswersAreExactIff | packages/mbrc-core/src/metadata_cache.rs:1135-1151 | from any reachable state, every answer is the newest committed rows of a complete cache until the next commit if and only if the memo is and the reader under way has passed no check that no longer holds |
| GenreMemo.IncompleteAnswerWhileDropping | packages/mbrc-core/src/metadata_cache.rs:1001-1003 | for any complete and any thinned table, a run from the start that fills the cache with the one and in which a reader answers with the rows of the other |
| Reconcile.MetadataCache.constructor | packages/mbrc-core/src/metadata_cache.rs:551-563 | nothing stored, not validated |
| Reconcile.MetadataCache.Clear | packages/mbrc-core/src/metadata_cache.rs:680-691 | index, rows, orders, stamps and lists go; fingerprint, versions and the validated flag stay |
| Reconcile.MetadataCache.Invalidate | packages/mbrc-core/src/metadata_cache.rs:696-699 | not validated and cleared |
| Reconcile.MetadataCache.Reconcile | packages/mbrc-core/src/metadata_cache.rs:878-900 | returns whether the library moved and leaves the whole store as the reconcile function says |
| Reconcile.MetadataCache.DropMovedAlbums | packages/mbrc-core/src/metadata_cache.rs:1411-1439 | with no stamps everything is cleared, else exactly the rows of moved, vanished and new albums go |
| Reconcile.MetadataCache.StaleAlbums | packages/mbrc-core/src/metadata_cache.rs:1418-1433 | the two passes over stored and listed albums find every album whose stamp differs, repeats in the listing included |
| Reconcile.MetadataCache.DropTagsOf | packages/mbrc-core/src/metadata_cache.rs:1444-1480 | the rows of the named albums go, and with any of them the orders and the album years |
| Reconcile.MetadataCache.StoreAlbumStamps | packages/mbrc-core/src/metadata_cache.rs:1504-1513 | the stamps are those of the listing and nothing else changes |
| Reconcile.MetadataCache.DropNavLists | packages/mbrc-core/src/metadata_cache.rs:906-915 | exactly the drill-down lists go |
| Reconcile.MetadataCache.PutTrackTags | packages/mbrc-core/src/metadata_cache.rs:811-825 | once validated, each row is stored under its path, the last of a repeated path |
| Reconcile.MetadataCache.DropTrackTags | packages/mbrc-core/src/metadata_cache.rs:830-842 | once validated, exactly the rows of the paths go |
| Reconcile.MetadataCache.ReplaceTrackIndex | packages/mbrc-core/src/metadata_cache.rs:762-789 | once validated, the index is the listing and the rows of exactly the unlisted paths go |
| AlbumStamps.ReconcileLeaves | packages/mbrc-core/src/metadata_cache.rs:878-900 | which rows and stamps a reconcile leaves, in each of its cases |
| AlbumStamps.ReconcileLeavesTheRest | packages/mbrc-core/src/metadata_cache.rs:878-915 | what a reconcile leaves of the index, the orders and each list: all of it goes when the record's shape changed or nothing tells what moved; else the index stays, the orders and album years go with any row, and the drill-downs go if anything moved or they are of an older kind |
| AlbumStamps.ReconcileIsSoundIff | packages/mbrc-core/src/metadata_cache.rs:1411-1439 | one reconcile with any listing leaves no row older than it if and only if the late rows of its albums are all dropped |
| AlbumStamps.StepKeepsInv | packages/mbrc-core/src/metadata_cache.rs:762-900 | every event, late puts and outdated listings included, keeps each row one the host once gave and the stored stamps those of the last listing or none |
| AlbumStamps.RowIsTheLastPut | packages/mbrc-core/src/metadata_cache.rs:762-900 | after any run, the row cached at a path is the one last put there in a validated cache, unless a later event has put another, dropped it, unlisted it, or cleared it, or a reconcile found its album moved |
| AlbumStamps.DropIsSoundIff | packages/mbrc-core/src/metadata_cache.rs:830-842 | in a validated cache a drop takes exactly the rows of its paths, so it leaves no late row if and only if it names every one |
| AlbumStamps.ReconciledRunIsSoundIff | packages/mbrc-core/src/metadata_cache.rs:878-900 | after any run, however late rows were put and however old the listing, a reconcile leaves no row older than its listing if and only if it drops every late row of a listed album; with a listing that still is the host's, if and only if it does is every row of a listed album current |
| AlbumStamps.ReconciledRowsAreCurrent | packages/mbrc-core/src/metadata_cache.rs:878-900 | after any run without late puts, a reconcile with what the host lists leaves every row of a listed album read at its present stamp |
| AlbumStamps.UnmovedRowsSurvive | packages/mbrc-core/src/metadata_cache.rs:1411-1439 | with stamps stored and the record's shape unchanged, exactly the rows of albums whose stamp did not move in the listing survive, unchanged |
| AlbumStamps.ReconcileTwice | packages/mbrc-core/src/metadata_cache.rs:878-900 | a second reconcile with the same listing reports nothing moved and changes nothing |
| AlbumStamps.OrdersSurviveWithTheirRows | packages/mbrc-core/src/metadata_cache.rs:1441-1480 | a sort order standing after a reconcile means no row went |
| AlbumStamps.YearsSurviveWithTheirRows | packages/mbrc-core/src/metadata_cache.rs:1441-1480 | album years standing after a reconcile mean no row went |
| AlbumStamps.NavListsSurviveIffUnmoved | packages/mbrc-core/src/metadata_cache.rs:895-897 | a drill-down survives a reconcile if and only if nothing moved and the lists' version is current |
| AlbumStamps.LatePutIsHarmlessIffDropped | packages/mbrc-core/src/metadata_cache.rs:811-900 | after a put of any host-read rows and a reconcile with what the host lists, every row of a listed album is current if and only if the reconcile finds the library moved and drops the album of every late row put |
| AlbumStamps.LateRowIsNotCorrected | packages/mbrc-core/src/metadata_cache.rs:811-900 | a row put late is still there, stale, after every reconcile with an unchanged host |
| AlbumStamps.LateRowFromTheStart | packages/mbrc-core/src/metadata_cache.rs:811-900 | a run from the start in which one late row is stale after the next reconcile |
| AlbumStamps.MoveIsHiddenIffKeyIsShared | packages/mbrc-core/src/metadata_cache.rs:1504-1513 | in any listing, an album's moved stamp leaves the stored stamps as they were if and only if a later album has the same key |
| AlbumStamps.KeysCanBeShared | packages/mbrc-core/src/metadata_cache.rs:210-220 | two albums of different artists and titles with one key |
| AlbumStamps.KeyNamesTheAlbum | packages/mbrc-core/src/metadata_cache.rs:210-220 | albums filed under one artist share a key if and only if they have one title, ignoring case |
| Fingerprint.ComputeFingerprint | packages/mbrc-core/src/metadata_cache.rs:1553-1565 | the loop computes the wrapping sum of the albums' terms mixed with their count |
| Fingerprint.Fnv1a64 | packages/mbrc-core/src/metadata_cache.rs:1581-1590 | the loop is the byte-by-byte recursion |
| Fingerprint.OneChangedByteIsNoticed | packages/mbrc-core/src/metadata_cache.rs:1581-1590 | from any state of the hash, a key with one byte changed has another hash |
| Fingerprint.HashOfOneLetter | packages/mbrc-core/src/metadata_cache.rs:1581-1590 | the hash of a one-letter text is the published one |
| Fingerprint.OrderDoesNotMatter | packages/mbrc-core/src/metadata_cache.rs:1545-1565 | any two listings of the same albums have the same fingerprint |
| Fingerprint.OneMovedStampIsNoticed | packages/mbrc-core/src/metadata_cache.rs:1553-1565 | moving any one album's stamp changes the fingerprint of any listing |
| Fingerprint.OneRenamedAlbumIsNoticed | packages/mbrc-core/src/metadata_cache.rs:1553-1590 | changing any one byte of any one album's key changes the fingerprint of any listing |
| Fingerprint.SizeAloneIsNoticed | packages/mbrc-core/src/metadata_cache.rs:1562-1564 | listings whose sums are equal share a fingerprint if and only if they are of one size |
| Fingerprint.SameCountIsMissedIff | packages/mbrc-core/src/metadata_cache.rs:1562-1564 | two listings of as many albums have one fingerprint if and only if their terms have one sum |
| Fingerprint.ReplacementIsMissedIff | packages/mbrc-core/src/metadata_cache.rs:1562-1564 | an album removed and another added in its place is missed if and only if their terms are equal |
| Fingerprint.SomeReplacementIsMissed | packages/mbrc-core/src/metadata_cache.rs:1562-1564 | for any album of any listing and any key there is a replacement under that key that is missed |
| Fingerprint.TwoChangesAreMissedIff | packages/mbrc-core/src/metadata_cache.rs:1553-1565 | two albums changing at once, stamps or keys, are missed if and only if their terms' sums are equal |
| Fingerprint.TwoMovedStampsCanBeMissed | packages/mbrc-core/src/metadata_cache.rs:1553-1565 | for any two albums whose terms differ there are new stamps for both that leave the fingerprint as it was |
| Sorting.StableSortRefines | packages/mbrc-core/src/metadata_cache.rs:1217-1226 | stable sorting of a list ranked by one order ranks it by the sort's order and then by that one, so two stable sorts compose |
| Sorting.SortKeepsElements | packages/mbrc-core/src/metadata_cache.rs:1254-1255 | sorting keeps every element as often as it was |
| Sorting.RankedIsUnique | packages/mbrc-core/src/metadata_cache.rs:1217-1226 | a list has one ranking, so any stable sort gives this result |
| SortFields.OrderIsTotal | packages/mbrc-core/src/metadata_cache.rs:315-367 | each of the nine orders, in both directions, is a total preorder on all rows |
| SortFields.OrderMeans | packages/mbrc-core/src/metadata_cache.rs:315-367 | for every field and direction, two rows may stand one after the other if and only if the field's own tag ascends, or descends when asked, rows it cannot tell apart standing by disc, track and title; by release year undated rows stand last either way |
| SortFields.CollateDropsOneArticle | packages/mbrc-core/src/metadata_cache.rs:223-231 | a name with an article in front, whatever the case and the blanks around either, sorts by exactly what stands behind it |
| SortFields.CollateKeepsOtherNames | packages/mbrc-core/src/metadata_cache.rs:223-231 | any other name sorts by the whole of it, trimmed and folded |
| SortFields.MirrorsIffPlaced | packages/mbrc-core/src/metadata_cache.rs:344-367 | descending is ascending read backwards if and only if both rows can be placed, or neither can and they tie |
| SortFields.UndatedComeLast | packages/mbrc-core/src/metadata_cache.rs:354-367 | in any list in order, in either direction, no undated row precedes a dated one |
| SortOrders.SortStore.RebuildSortOrders | packages/mbrc-core/src/metadata_cache.rs:1236-1264 | with cached tags every order is stored of exactly those rows and nothing else is; without, nothing changes |
| SortOrders.SortStore.StoreOrder | packages/mbrc-core/src/metadata_cache.rs:1256-1262 | the key holds exactly the rows, from position zero, and no other key changes |
| SortOrders.SortStore.StoredOrderRows | packages/mbrc-core/src/metadata_cache.rs:1278-1296 | counts the rows of one key, none until validated |
| SortOrders.SortStore.SortedTrackCount | packages/mbrc-core/src/metadata_cache.rs:1270-1276 | the shorter half of an order kept in both directions |
| SortOrders.SortStore.SortedTrackPage | packages/mbrc-core/src/metadata_cache.rs:1303-1356 | for any offset, limit and direction, the page is that window of the listing of the tags the orders were built from |
| SortOrders.MirrorWindow | packages/mbrc-core/src/metadata_cache.rs:1324-1341 | the clamped mirror window read backwards is the window of the mirrored order |
| SortOrders.ListedInOrder | packages/mbrc-core/src/metadata_cache.rs:1298-1356 | what is paged, in either direction, is a permutation of the cached rows, in order |
| SortOrders.ListedByItsTag | packages/mbrc-core/src/metadata_cache.rs:1298-1356 | of any two rows paged, the earlier stands before the later by the field's own tag in the asked direction |
| SortOrders.TiesStandInPathOrder | packages/mbrc-core/src/metadata_cache.rs:1254-1255 | rows nothing tells apart stand in path order, mirrored with the rest |
| SortOrders.WindowIs | packages/mbrc-core/src/metadata_cache.rs:1324-1341 | a page starts at its offset, or at the first row if that is before it, and runs for its limit or, without one, to the end |
| SortOrders.PagingRefinesSorting | packages/mbrc-core/src/metadata_cache.rs:1236-1356 | pages at successive offsets concatenate to every cached path once, standing by the field's own tag in the asked direction, undated rows last |
| SortOrders.RebuildHoldsIffTagged | packages/mbrc-core/src/metadata_cache.rs:1236-1240 | after a rebuild of a validated store the orders are those of the cached tags if and only if there are tags or no order was stored; in any other store nothing changes |
| SortOrders.EmptiedTableKeepsItsOrders | packages/mbrc-core/src/metadata_cache.rs:1236-1240 | orders built from any tags are left by a rebuild once the tags are gone, and do not hold |
| SortOrders.EmptyOrdersAreEmpty | packages/mbrc-core/src/metadata_cache.rs:1236-1240 | with no cached tags the orders hold if and only if none is stored |
| TrackListing.TrackPathsWhere | packages/mbrc-core/src/metadata_cache.rs:1184-1229 | the scan and the two sorts give the paths of the listing; none until validated |
| TrackListing.ListingIsLexicographic | packages/mbrc-core/src/metadata_cache.rs:1184-1229 | the listing is exactly the admitted tracks, each once, in lexicographic order of tagged first, the field's own tag in the asked direction, relevance and index position |
| TrackListing.ListedBeforeIsStrict | packages/mbrc-core/src/metadata_cache.rs:1217-1226 | no two matches come before each other |
| TrackListing.ListingIsTheOnlyOne | packages/mbrc-core/src/metadata_cache.rs:1217-1226 | any list of the same matches in that order is the listing |
| TrackListing.ScopesAreIndependent | packages/mbrc-core/src/metadata_cache.rs:448-463 | a tagged track is admitted if and only if each part of the filter alone admits it |
| TrackListing.ScopesMean | packages/mbrc-core/src/metadata_cache.rs:448-463 | what each part asks: the query stands in title or artist, the album is the scope's, ignoring case; the empty artist means neither artist tag; a track without tags answers only to a query its file name holds |
| TrackListing.RelevanceMeans | packages/mbrc-core/src/metadata_cache.rs:416-431 | the five ranks, best first: the name itself, its beginning, its beginning less an article, the beginning of one of its words, anything else |
| TrackListing.TracksRankByTheirBest | packages/mbrc-core/src/metadata_cache.rs:440-446 | a track ranks by the better of title and artist, one without tags by its file name, and without a query all rank alike |
| TrackListing.FileNameIsTheLastPart | packages/mbrc-core/src/metadata_cache.rs:407-410 | the file name is what stands behind the last separator of either kind |
| TrackListing.GuardIsExactIff | packages/mbrc-core/src/metadata_cache.rs:387-397 | for every track and name, skipping the credits of tracks whose stored text lacks the name gives the answer of all credits if and only if it is not so that neither artist tag nor stored text holds the name and it is a stored lead with a mark inside or the display artist with blanks around it |
| TrackListing.GuardMissesNobody | packages/mbrc-core/src/metadata_cache.rs:387-397 | on tracks with no mark inside a stored name, padding around names allowed, and a trimmed or unused display artist, the guard misses nobody |
| TrackListing.GuardMissesMarkedNames | packages/mbrc-core/src/metadata_cache.rs:387-397 | with a byte order mark inside the name the guard rejects a credited guest |
| TrackListing.GuardMissesUntrimmedArtists | packages/mbrc-core/src/metadata_cache.rs:387-397 | with a blank in front of the display artist the guard rejects the credited name |
| GenreCounts.GenreCounts | packages/mbrc-core/src/metadata_cache.rs:1009-1014 | every entry counts the rows a filter on its name admits, all values covered, names in strict order |
| GenreCounts.CountIsListingAndStrays | packages/mbrc-core/src/metadata_cache.rs:1009-1014 | a genre's count is the length of its filtered listing plus the unindexed cached tracks that hold it |
| GenreCounts.EntryIsItsListing | packages/mbrc-core/src/metadata_cache.rs:448-463 | an entry is the length of its listing if and only if no unindexed cached track holds it |
| GenreCounts.StrayIsCounted | packages/mbrc-core/src/metadata_cache.rs:1009-1014 | with one cached track and an empty index its genre counts one and lists none |
| GenreCounts.CountsAgreeWithListings | packages/mbrc-core/src/metadata_cache.rs:1009-1014 | with no writer in flight and exactly the indexed tracks cached, every count a reader is given is the length of that genre's listing |
| MultiValue.HoldsIsCounted | packages/mbrc-core/src/multi_value.rs:30-36 | a filter by a trimmed name admits exactly the fields that count under it, the empty name included |
| MultiValue.ValuesAreBetweenSeparators | packages/mbrc-core/src/multi_value.rs:14-18 | what stands before a semicolon or a NUL is a value, trimmed, unless it is blank, and the rest reads on by itself |
| MultiValue.TallyCounts | packages/mbrc-core/src/multi_value.rs:43-63 | a tally counts the fields the filter admits and, per spelling, the fields that spell it so |
| MultiValue.AddField | packages/mbrc-core/src/multi_value.rs:45-63 | one field adds each of its folded values once, under its first spelling |
| MultiValue.SpellingIsTheFirst | packages/mbrc-core/src/multi_value.rs:45-63 | a field that names a value in several spellings spells it the way it first does |
| MultiValue.BestSpelling | packages/mbrc-core/src/multi_value.rs:67-71 | the most used spelling, the first in order among the most used, whatever order the table is walked in |
| MultiValue.Counts | packages/mbrc-core/src/multi_value.rs:43-79 | names strictly ascend by folded key, every value of every field is under exactly one of them, and each count is the number of fields its filter admits |
| Credits.Encode | packages/mbrc-core/src/credits.rs:130-143 | the loop writes the entries one after another |
| Credits.EntrySurvivesIffWellFormed | packages/mbrc-core/src/credits.rs:98-143 | one credit reads back as itself if and only if it is well formed |
| Credits.RoundTrip | packages/mbrc-core/src/credits.rs:94-143 | a list of credits reads back as itself if and only if every credit in it is well formed |
| Credits.ParsedIsReadable | packages/mbrc-core/src/credits.rs:94-128 | what any stored value reads as: trimmed names, details on performers only and free of an opening bracket, no separator or byte order mark |
| Credits.RereadIsStable | packages/mbrc-core/src/credits.rs:94-143 | a value read and stored again reads the same if and only if no artist name uncovered a control character and no bracket was empty |
| Credits.SomeValuesChangeWhenRestored | packages/mbrc-core/src/credits.rs:94-143 | both exceptions, on concrete values |
| Credits.StoredForms | packages/mbrc-core/src/credits.rs:94-143 | each role is stored, and read back from, its own form: an artist as the name alone, the others behind their mark, a performer's part in brackets |
| Credits.UnknownRolesAreSkipped | packages/mbrc-core/src/credits.rs:98-104 | an entry behind any other control character is no credit |
| Credits.JoinedSplits | packages/mbrc-core/src/credits.rs:120-128 | a performer's name and part, joined as stored, split into the same two |
| Credits.PaddedNameReads | packages/mbrc-core/src/credits.rs:88-117 | marks and blanks around a name, in any order and number, come off |
| Credits.UnmarkedNamesAreInside | packages/mbrc-core/src/credits.rs:94-128 | a stored value contains the name of every entry that has no byte order mark inside its name |
| Credits.LeadsAreRead | packages/mbrc-core/src/credits.rs:94-173 | a name is browsed under if and only if an entry reads as a lead of that name |
| Credits.LeadsAreArtistsAndGuests | packages/mbrc-core/src/credits.rs:153-173 | a name is browsed under if and only if an artist or a guest of that name is among the credits |
| Credits.SplitIff | packages/mbrc-core/src/credits.rs:145-164 | a track keeps to its stored credits if and only if two of them lead it or one is a guest |
| Credits.DisplayNamesTheArtist | packages/mbrc-core/src/credits.rs:153-164 | a split track is browsed under its own leads and any other under what it shows; all other credits are kept in order |
| Credits.EditKeepsTheRest | packages/mbrc-core/src/credits.rs:181-204 | an edit makes the leads the trimmed non-blank names in order, keeps every performer and remixer in order, and a name is a guest if and only if it was one |
| Credits.EditRoundTrip | packages/mbrc-core/src/credits.rs:130-204 | edited credits survive storing and reading if and only if every kept credit is well formed and every name can be stored |
| Calendar.CivilIsValid | packages/mbrc-helper/src/log.rs:170-181 | every integer day has a valid date and day 0 is 1970-01-01 |
| Calendar.DateHasItsDay | packages/mbrc-helper/src/log.rs:170-181 | every valid date is the date of exactly one day |
| Calendar.CivilOfNextDay | packages/mbrc-helper/src/log.rs:170-181 | the day after any day has the calendar's next date |
| Calendar.CivilIsDayByDay | packages/mbrc-helper/src/log.rs:170-181 | the arithmetic equals the calendar counted day by day from the epoch, forwards and backwards |
| Calendar.YearIsTheDates | packages/mbrc-buildinfo/src/resource.rs:109-122 | the year alone is always that date's year |
| JpegHeader.JpegFrame | packages/mbrc-core/src/cover.rs:204-226 | for every byte string the loop ends within bounds with what the walk gives |
| JpegHeader.DeclaredFrameIsRead | packages/mbrc-core/src/cover.rs:204-226 | any sequence of segments and bare markers, each behind any number of fill bytes, then a frame header reads as that header's frame |
| JpegHeader.ReadIffDeclared | packages/mbrc-core/src/cover.rs:204-226 | a frame is read if and only if the bytes are such a sequence declaring it |
| JpegHeader.MarkersAreListed | packages/mbrc-core/src/cover.rs:213-218 | the markers that head a frame, a progressive one, or have no segment are those table B.1 lists, the first and last marker of a file aside |
| JpegHeader.SofBodyReads | packages/mbrc-core/src/cover.rs:230-252 | a header body laid out by the standard reads as its width, height and components' sampling |
| JpegHeader.MaxOfEqual | packages/mbrc-core/src/cover.rs:240-241 | with equal factors the maxima are those factors |
| JpegHeader.FullSampling | packages/mbrc-core/src/cover.rs:242-245 | with no component subsampled the samples are one full plane per component |
| JpegHeader.SubsampledComponent | packages/mbrc-core/src/cover.rs:242-245 | a component sampled at one in so many columns and rows has exactly that share of the plane, rounded down |
| JpegHeader.QuarterChroma | packages/mbrc-core/src/cover.rs:230-252 | twice the luminance sampling both ways makes the plane and two quarters of it |
| JpegHeader.SamplesFit | packages/mbrc-core/src/cover.rs:230-252 | the samples never exceed components times width times height, and doubled fit 64 bits |
| JpegHeader.ScaleIsTheCoarsestThatCovers | packages/mbrc-core/src/cover.rs:267-273 | a reduction covers the target if and only if it is no coarser than the chosen one, which itself covers exactly the targets no larger than the image |
| JpegHeader.ReducedSideReachesOver | packages/mbrc-core/src/cover.rs:267-273 | a reduced side is the least number of pixels of that size that reach over the side |
| Scrubber.Scrubber.Label | packages/mbrc-capture/src/trim.rs:109-122 | a known original keeps its label, a new one gets the next, nothing gets nothing |
| Scrubber.Scrubber.PathToken | packages/mbrc-capture/src/trim.rs:125-135 | a known path keeps its token, a new one gets the next |
| Scrubber.Scrubber.ScrubValue | packages/mbrc-capture/src/trim.rs:378-420 | the rewritten tree and the new state are those of the scrubbing function |
| Scrubber.Scrubber.RebuildPaths | packages/mbrc-capture/src/trim.rs:439-473 | the path fields rebuilt kind by kind from the siblings' pseudonyms |
| Scrubber.NthAreDistinct | packages/mbrc-capture/src/trim.rs:109-135 | names given under different numbers of a category differ, path tokens included |
| Scrubber.ScrubMaps | packages/mbrc-capture/src/trim.rs:378-420 | scrubbing any tree renames every metadata string and path through the state's mapping, rebuilds path fields, leaves the rest, and only adds names |
| Scrubber.BucketIsOneMapping | packages/mbrc-capture/src/trim.rs:378-420 | all frames of a bucket go through one mapping in which no two originals of a category share a name |
| Scrubber.SameNameIffSameString | packages/mbrc-capture/src/trim.rs:107-136 | anywhere in a bucket two metadata strings of one category get equal names if and only if they are equal |
| Scrubber.NamesNeverChange | packages/mbrc-capture/src/trim.rs:107-136 | no later frame changes a name once given |
| Scrubber.NamesAreConsecutive | packages/mbrc-capture/src/trim.rs:109-135 | in a bucket the names of a category are numbered from one without a gap, one for each original |
| Scrubber.TrackIsRewritten | packages/mbrc-capture/src/trim.rs:378-473 | a track's frame, whatever its tags, comes out with the first name of each kind and its path rebuilt from them |
| Scrubber.LooksLikePathIff | packages/mbrc-capture/src/trim.rs:426-433 | a path is anything with a backslash or a scheme's mark in it and what starts at a drive's root |
| Scrubber.ExtensionIsBehindTheLastDot | packages/mbrc-capture/src/trim.rs:476-481 | the extension kept is what stands behind the last dot where that is short and no directory, and a stock one otherwise |
| Scrubber.NestedPathFieldIsLeftAlone | packages/mbrc-capture/src/trim.rs:403-404 | in any object, a path field holding anything but a string is left as it is |
| Scrubber.FullyRenamedIff | packages/mbrc-capture/src/trim.rs:371-420 | a scrubbed tree is renamed throughout, strings below a metadata key included, if and only if no path field the walk reaches holds a non-string value that is not its own renaming and no list or object under a metadata key a string that is neither a path nor its own name |
| Scrubber.NothingEscapesIff | packages/mbrc-capture/src/trim.rs:371-420 | for every frame of a bucket: it is renamed throughout if no path field reached is a list or object with something to rename and no list or object under a metadata key holds a string that is not empty and does not look like a path, and, where no name is the text it stands for, only if |
| Scrubber.ListOfNamesIsLeftAlone | packages/mbrc-capture/src/trim.rs:387-405 | in any state, a list of a name under any metadata key comes out as it went in, and counts as not renamed |
| Scrubber.ArtistListEscapes | packages/mbrc-capture/src/trim.rs:387-405 | an artist given as a list of one is left as it is in the first frame of a bucket |

## Left out

- LibrarySync.SyncConverges: an epoch is a number never drawn before, where the code draws 64 random bits; generations are unbounded, where the code counts in 64 bits.
- ChangeLogStore.ChangeLog.Read: a limit of zero, which the server never asks for, is excluded.
- TagRows.KeptRowsAreCurrent: assumes one edit in flight per path (`TagRows.OverlappingEditsLeaveAStaleRow` shows why); patches left out are harmless exactly as `TagRows.SkippedPatchIsHarmlessIff` says.
- AlbumStamps.ReconciledRunIsSoundIff: assumes that stamps never go back within a library, that equal fingerprints mean equal listings (`Fingerprint` says when they do not), that tracks keep their album and that a key names one album (`AlbumStamps.MoveIsHiddenIffKeyIsShared` says when it matters); a reconcile is one step, though its read and write of the tag rows are two transactions.
- AlbumStamps.ReconciledRowsAreCurrent: the same assumptions.
- GenreCounts.CountIsListingAndStrays: assumes the index lists no path twice.
- SortFields.OrderIsTotal: ratings are reals, so a rating that is not a number is not modelled.
- SortOrders.SortStore.SortedTrackPage: positions are unbounded, where the table keys them in 32 bits.
- Scrubber.Scrubber.ScrubValue: works on values, returning the rewritten tree instead of changing it in place; an object is a list of fields, and a path field is rebuilt wherever its key stands.
- JpegHeader.ScaleIsTheCoarsestThatCovers: takes the target size as a parameter, which the code computes in floating point.
- Scrubber.NothingEscapesIff: the converse is stated in terms of the syntax only where no original was given its own text for a name; without that, in terms of the mapping.
- TrackListing.TrackPathsWhere: folds ASCII only, as `Text.Lower` does.
- Text.Lower: folds ASCII only, where the code lower-cases Unicode in searches, collation and album keys.
- Signatures, digests, the manifest parser and the bare-filename check are parameters of `UpdateApply.Helper`; the checks of its arguments, pruning old backups, links that do not dangle other than as a failure, and names that differ only in case on Windows are not modelled.
- The database itself, its encoding and its missing-table and disabled-store paths: tables are maps and decoding is total.
- The drill-down values themselves: `NavLists` keeps the generation and library version a value stands for.
- Credited artist, album and genre-artist counts, distinct tag values, album years, and parsing of years, ratings and durations: they add no harder property.
- The media categories, staging of a bundle, log rotation, settings, discovery, sockets and the host interface.
- Capture trimming apart from the pseudonymizer: grouping, repeats, placeholders and caps.
