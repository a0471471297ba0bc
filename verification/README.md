# Verified model of gpb, the Google Photos backup

gpb lists a Google Photos account, records what it finds in a SQLite store, downloads what the user
follows into a pool of files on disk, and notices what has gone from Google. This project models the
engine of one backup run in Dafny and proves what it promises its user: never write off a photo that
is still there, never publish or destroy wrong bytes, never lose work.

Three things make that hard, and the model has all three.

- **The store is shared.** A lister and several download workers write the same rows. The store has a
  single connection (`internal/store/store.go:38-40`), so each statement or transaction is one atomic
  step; `StoreState` gives each its meaning as a function on tables, `StoreClass.Store` performs it in
  place the way the code does (chunked, conditional, counting), and `Run`, `Listing` and `Workers` let
  the steps interleave.
- **The disk can stop at any moment.** `FileSystem` is names for inodes and bytes in inodes, with what
  has been flushed and every namespace a crash may leave. `rename()` is that of POSIX.1-2017: between
  two names of one file it does nothing. `Downloads` is all workers at once, with the power going
  between any two steps; `PoolDisk`, `Fetching`, `Linking` and `Twins` are the code's own loops over
  system calls, any of which may fail.
- **No single function decides anything.** That an item still in the timeline is never written off
  depends on the paging loop, the known-ground rule, the 48-hour wobble, the membership read before
  the walk, the reconciliation and the workers' guarded updates agreeing with each other.

## Where things are

| file | what it models |
|---|---|
| `Basics`, `StoreState`, `Lifecycle`, `Store` | the tables, every statement, what statements keep |
| `LibraryWalk`, `Listing`, `AlbumWalks`, `Run`, `LibraryMemory` | the walks of a run and all runs interleaved |
| `SilentLoss` | the review flag over whole histories of write-offs |
| `FileSystem`, `Downloads`, `PoolDisk`, `Fetching` | the crash-safe write protocol |
| `HeldCopies`, `Linking`, `Twins`, `Verify` | deduplication, removal of written-off twins, re-reading |
| `Workers`, `Feeder`, `Breaker` | the work list, the feeder and failure accounting |
| `Thumbs`, `TimelineGrid`, `AlbumView`, `StoredTimes`, `GridSelection` | caches, indexes and orders |

## Where the code promises less

- A library date bound of exactly 48 hours before Go's zero time makes the floor of a walk "no date",
  which reads as a walk that vouches for everything; then a photo still in the timeline departs.
  `LibraryWalk.AFloorOfNoDateDepartsTheLiving` is such a walk, and
  `LibraryWalk.SafeExactlyWhenTheFloorIsADate` shows which others have one: no other bound alone, and
  known ground at that moment under any earlier bound.
- A walk that fails after its reconciliation has already written items off. Only one kind of failure
  comes that late: the statement that dates the walk. Every earlier failure loses nothing.
- "The last holder of some bytes goes only with a question" is not so when a row of other bytes, the
  same name, the same second and no smaller size is backed up. `SilentLoss.TheLastCopyAsks` has the
  exact condition and `SilentLoss.ANamesakeKeepsItQuiet` the input. What holds without one is
  `SilentLoss.NoSilentLoss`.
- A body of unannounced length is accepted wherever it ends (`internal/gphotos/download.go:195`). It
  is the whole file exactly if its length was announced or nothing is missing.
- The memory of whole walks can be of another reach than the one asked for now, in exactly two ways:
  the library's mode is set on its own (`SetAlbumSyncMode`, as `gpb unfollow` and `gpb follow` and the
  album list do), which forgets nothing; or mode or date is saved in the middle of a walk.
- A stored time reads back as itself exactly for the years 0 to 9999; the order of stored times is the
  order of time on the years -1 to 9999 and on no wider span that reaches into them.
- The comment on `prune` (`internal/links/links.go:217-222`) says a directory with a real file in it
  is left alone entirely; the code still removes the symlinks beside that file, and so does the model.
- The comment on `Departures.Copies` speaks of bytes still held; the code counts every row written off
  at that moment without a question (`internal/store/items.go:382-386`), and so does the model.

## Model

| member | source | states |
|---|---|---|
| StoreClass.Store.UpsertItem | internal/store/items.go:75-104 | the conditional update leaves the same tables as an unconditional one: what the listing says is recorded, a file and its history stay, a written-off row comes back as done or discovered |
| StoreClass.Store.LinkItemToAlbum | internal/store/items.go:110-119 | a link is added once, and refused unless both its ends exist |
| StoreClass.Store.SetItemState | internal/store/items.go:229-236 | the state changes unless the item is written off; a missing row is reported |
| StoreClass.Store.MarkDownloaded | internal/store/items.go:238-252 | path, size, hash, name and time are on record and the failures cleared, a written-off row staying so |
| StoreClass.Store.MarkFailed | internal/store/items.go:254-265 | one failure more with its cause, a written-off row staying so |
| StoreClass.Store.SetReviewFlag | internal/store/review.go:174-225 | the flag of exactly these keys is raised or lowered, a statement to a key |
| StoreClass.Store.SetLibrary | internal/store/albums.go:166-185 | the row carries the new instruction; a whole walk stays remembered if and only if neither mode nor date moved |
| StoreClass.Store.AlbumMembers | internal/store/items.go:426-446 | exactly the linked keys, each with the date of its row, and no date for a row undated or gone |
| StoreClass.Store.WriteOffChunk | internal/store/items.go:356-369 | one chunk's UPDATE, row by row, and how many rows it affects |
| StoreClass.Store.UnlinkChunk | internal/store/items.go:371-379 | the row-by-row DELETE leaves what the set-level one would and counts the links it removed, a key listed twice once |
| StoreClass.Store.ReconcileChunk | internal/store/items.go:352-380 | a chunk after the chunks before it is the longer reconciliation, and the counts add up |
| StoreClass.Store.Reconcile | internal/store/items.go:340-392 | chunks of 500 equal the whole at once; the counts are those written off, those unlinked besides, and those dated at this moment without a question, which are the newly written off unless something was dated so before |
| StoreClass.OneMore | internal/store/items.go:356-369 | a row is written off at most once however often its key is listed |
| StoreClass.WritesOffLater | internal/store/items.go:352-380 | what an earlier chunk did changes the fate of no later key |
| StoreClass.CountsAdd | internal/store/items.go:352-392 | the numbers written off by two chunks add up to those of both together |
| Lifecycle.WriteOffMeaning | internal/store/items.go:356-369 | the row-at-a-time UPDATE writes off exactly the departed, unlinked, not yet missing rows |
| Lifecycle.ReconcileMeaning | internal/store/items.go:309-392 | written off if and only if departed and in no other album; other albums' links and other rows untouched |
| Lifecycle.ReconcileInTwo | internal/store/items.go:352-380 | reconciling a list in two parts is reconciling it whole, review flags and links included |
| Lifecycle.OwnLinksDoNotMatter | internal/store/items.go:356-369 | the album's own links, already deleted or not, do not affect what is written off |
| Lifecycle.SoundRowsKept | internal/store/items.go:75-307 | every statement keeps missing_since set exactly on written-off rows, and a path on done ones |
| Lifecycle.LinksResolveKept | internal/store/items.go:110-119 | every statement keeps every link between an album and an item that exist |
| Lifecycle.RelistingRestores | internal/store/items.go:75-104 | a re-listed item is never left missing, keeps its file and history, and a broken legacy row is repaired |
| Lifecycle.WorkersNeverDecide | internal/store/items.go:222-265 | a worker's older word never undoes a write-off and never makes one |
| Lifecycle.FailCountIsItsHistory | internal/store/items.go:240-265 | fail_count is the failures recorded since the last success, whatever else was written |
| LibraryWalk.FindKnownGround | internal/syncer/library.go:121-132 | known ground is a page all held, with its oldest date, and needs a date |
| LibraryWalk.Departures | internal/syncer/library.go:192-201 | the loop returns each member the walk had to see and did not, once |
| LibraryWalk.OldestIsOldest | internal/syncer/library.go:121-132 | the date kept along a page is the oldest of its dated items and one of theirs |
| LibraryWalk.BelowTheStop | internal/syncer/library.go:164-227 | what a walk never reached lies below what it vouches for, however it ended |
| LibraryWalk.WalkDepartsExactly | internal/syncer/library.go:21-92 | no item still in the timeline departs, and below the floor nothing does: exactly the members gone from it |
| LibraryWalk.WhatABoundedWalkDeparts | internal/syncer/library.go:164-220 | of the members gone from the timeline those depart whose date is at the bound or later, two days above it, or two days above bound and known ground, as the walk ended; undated ones only with an unbounded whole walk |
| LibraryWalk.WhereAPageEndsAWalk | internal/syncer/library.go:60-70 | no next page; a last item dated before the bound; or, looking only for what is new, a page all held, with its earliest date |
| LibraryWalk.WhatAWalkRecords | internal/syncer/library.go:45-58 | every item but those dated before the bound |
| LibraryWalk.WhenAWalkLooksOnlyForNew | internal/syncer/library.go:94-115 | told to, and a whole walk remembered, of under six and a half days ago where one a week is asked for |
| LibraryWalk.WholeWalkDepartsTheRest | internal/syncer/library.go:21-92 | an unbounded whole walk departs exactly the members less the timeline |
| LibraryWalk.AFloorOfNoDateDepartsTheLiving | internal/syncer/library.go:174-220 | a bound whose floor is Go's zero time departs a photo that is still there |
| LibraryWalk.KnownGroundOfNoDateDepartsTheLiving | internal/syncer/library.go:73-80 | so does known ground with such a floor |
| LibraryWalk.SafeExactlyWhenTheFloorIsADate | internal/syncer/library.go:164-227 | a walk ending this way never departs the living if and only if bound and known ground leave the floor a date |
| Listing.Lister.Interlude | internal/syncer/queue.go:53-117 | what workers may have written between two of the lister's statements |
| Listing.Lister.RecordItem | internal/syncer/listing.go:293-309 | an item is recorded and linked, or the walk stops having lost nothing, which it does only if a statement fails |
| Listing.Lister.RecordPage | internal/syncer/library.go:45-58 | a page records exactly what no date bound leaves out and tells arrivals from members, and fails only if a statement does |
| Listing.Lister.WalkPages | internal/syncer/listing.go:286-311 | paging sees every item up to the page that names no next; where no statement fails it fails exactly as Google answered |
| Listing.Lister.Settle | internal/store/items.go:340-392 | after it the album is as a completed walk leaves it; it fails only if its statement does, and then nothing was lost |
| Listing.Lister.ListAlbum | internal/syncer/listing.go:272-331 | a walk that fails on the way removes no link, writes nothing off and leaves the row alone; where no statement fails it reconciles exactly if the album is known, the pages are served to the last and the count is not contradicted; and then exactly what is new to a picked album walked before is put up for review |
| Listing.Lister.CheckAgainstTheCount | internal/syncer/listing.go:361-373 | an empty walk is refused exactly if the count says the album is not empty |
| Listing.Lister.FlagArrivals | internal/syncer/listing.go:432-441 | the arrivals are up for review and nothing else is that was not |
| Listing.WalkPutsUpForReview | internal/syncer/listing.go:293-317 | an item seen is up for review if it was, not as one written off, or if it is an arrival in an album picked from and walked before; every other row keeps its flag |
| Listing.Lister.WalkTimeline | internal/syncer/library.go:38-71 | the pages read end as the rules say and everything in range on them was recorded; where no statement fails it fails exactly as Google answered |
| Listing.Lister.DateTheWalk | internal/syncer/library.go:86-91 | only a walk that did not stop at known ground is remembered as whole |
| Listing.Lister.ListLibrary | internal/syncer/library.go:21-92 | the walk reconciles exactly the departures of what it read, and none if it listed nothing; where no statement fails it reconciles exactly if some page ends the walk before one is refused |
| Listing.CompletedLibraryWalk | internal/syncer/library.go:21-92 | after such a walk of an honest timeline no photo still there was written off by it or left the library; written off is exactly what no other album links, the timeline no longer holds and the dates oblige the walk to have seen |
| Listing.CompletedAlbumWalk | internal/syncer/listing.go:272-331 | afterwards the album holds exactly what was seen and the missing items it already held |
| Listing.ReconcileConcludes | internal/store/items.go:340-392 | reconciling after recording, beside the workers, leaves what a completed walk promises |
| AlbumWalks.WalkAlbums | internal/syncer/listing.go:176-230 | each followed album is walked, stepped over or unlisted and only albums read to the end are reconciled; where no statement fails each fares as Google answered for it, and the walk stops at the first that neither reads nor fails to decode; it fails in the end exactly if something would not decode and nothing was read, or an album was passed by on a listing of none |
| AlbumWalks.CompletedWalkKeeps | internal/syncer/listing.go:176-206 | a completed walk adds its album to those that can have lost a link and no other |
| AlbumWalks.FailedWalkKeeps | internal/syncer/listing.go:176-206 | a failed walk adds none |
| Run.StepKeepsInv | internal/store/store.go:38-40 | every atomic step of lister, worker, user or clean-up keeps the lifecycle rules |
| Run.EveryReachableState | internal/store/items.go:75-392 | so they hold in every state of every interleaving, and every missing item is in some album |
| Run.NotAmongTheDepartures | internal/syncer/library.go:192-201 | a photo the timeline holds is not among a library walk's departures, with membership read before the walk |
| Run.StepKeepsSafe | internal/syncer/library.go:147-162 | no step writes off or unlinks from the library a photo that is still there |
| Run.StillThereIsNeverWrittenOff | internal/syncer/library.go:21-92 | over any history of walks beside any work, a photo still there is never written off |
| Run.WriteOffStands | internal/store/items.go:293-307 | a write-off and its date stand until the item is listed again or forgotten |
| LibraryMemory.RemembersTheLastUnlessForgotten | internal/store/albums.go:166-192 | the row remembers the last whole walk, one from before an upgrade included, unless a saved instruction has moved mode or date since |
| LibraryMemory.RemembersExactlyWhatCounts | internal/store/albums.go:119-192 | a whole walk is remembered if and only if one was walked of what is asked for now — exactly unless the mode was set on its own under the memory, or mode or date moved in the middle of the walk remembered |
| LibraryMemory.UnfollowingKeepsTheMemory | internal/store/albums.go:119-129 | a library unfollowed and followed again by its mode alone keeps the memory of its last whole walk |
| LibraryMemory.KnownGroundNeedsAWholeWalk | internal/syncer/library.go:94-115 | a walk stops at known ground only on the last whole walk, unforgotten and with the weekly option under six and a half days old; it was of what is asked for now exactly unless the row misremembers |
| LibraryMemory.ASaveMidWalkIsTakenForWalked | internal/store/albums.go:166-192 | a date saved between the beginning and the end of a walk is taken for one walked in full |
| SilentLoss.OneRowWrittenOff | internal/store/items.go:267-307 | one row more written off still leads along copies to a row with a file or a standing question, and is asked about exactly if flagged |
| SilentLoss.RowsWrittenOff | internal/store/items.go:356-369 | so does a whole UPDATE, rows written off earlier in it no longer counting as copies |
| SilentLoss.AskedExactly | internal/store/items.go:267-307 | of the items one statement writes off, exactly those are asked about of which no copy stands when it comes to them |
| SilentLoss.AskedInTheColumns | internal/store/items.go:267-307 | a row is put up for review exactly if no done row still standing has its hash, or its name and second at no smaller a size |
| SilentLoss.NoSilentLoss | internal/store/items.go:267-307 | over any history the lister, the workers, the user and the duplicates command write, every item that stands written off leads from copy to copy to an item with a file, or to one whose question stands |
| SilentLoss.BackedUpOrAsked | internal/store/items.go:267-307 | that item is a done row or one whose question stands, unless some file on record has gone and is being fetched again |
| SilentLoss.Forgetting | internal/store/twins.go:74-94 | an item forgotten beside a backed-up copy leaves everything it stood in for accounted for |
| SilentLoss.TheLastCopyAsks | internal/store/items.go:267-291 | while another holder of the same bytes stands there is no question; the last of them goes with one if and only if no backed-up namesake of other bytes stands when it goes |
| SilentLoss.AClassGoneIsAskedAbout | internal/store/items.go:267-307 | when every holder of some bytes stands written off and no stranger stands in for any, a question stands about one of them |
| SilentLoss.ANamesakeKeepsItQuiet | internal/store/items.go:285-291 | a larger namesake of other bytes lets the last copy go unasked |
| FileSystem.CallKeepsPartsApart | internal/syncer/download.go:71-136 | no call of the engine lets a part file share an inode with another name |
| FileSystem.CrashKeepsPartsApart | internal/syncer/download.go:71-136 | nor does a crash |
| FileSystem.AppendTouchesNothingElse | internal/syncer/download.go:71-102 | an append to a part file changes what no other name reads |
| FileSystem.InodesStaySeparate | internal/syncer/copies.go:21-60 | in every reachable state, crashes included, no inode has both a part name and a pool name |
| Downloads.CrashKeeps | internal/syncer/download.go:71-149 | the power going leaves prefixes prefixes and pool files whole |
| Downloads.PublishKeeps | internal/syncer/download.go:126-136 | renaming a flushed whole part keeps the pool, in every namespace a crash may leave |
| Downloads.PlaceKeeps | internal/syncer/copies.go:21-37 | so does renaming a staged link of the same bytes over a name |
| Downloads.AppendKeeps | internal/syncer/download.go:71-102 | so does appending the next bytes of the file |
| Downloads.StepKeepsInv | internal/syncer/download.go:31-149 | every step of every worker keeps what all the others rely on |
| Downloads.Begins | internal/syncer/download.go:31-59 | a pool whose parts are prefixes and whose records are true is where a run may begin |
| Downloads.EveryHistory | internal/syncer/download.go:31-149 | over any interleaving, truncation, ignored range, failed write, shared copy and crash, all of it holds |
| Downloads.NeverLess | internal/syncer/download.go:126-149 | after a crash a pool name reads as before or as the whole file, and what was recorded is there with its digest |
| PoolDisk.Pool.LinkOver | internal/syncer/copies.go:21-37 | however linking over stops, the disk is one of five states and only the last is success |
| PoolDisk.Pool.IsIntact | internal/syncer/twins.go:128-143 | intact means re-read now and equal to the record |
| Fetching.Fetcher.Receive | internal/gphotos/download.go:149-206 | file and digest take exactly the bytes received; on a disk that takes them an answer is accepted exactly if its status fits and its length is not contradicted |
| Fetching.AcceptedIsWholeIffLengthKnown | internal/gphotos/download.go:189-198 | an accepted body completes the file exactly if its length was announced or nothing is missing |
| Fetching.Fetcher.Stream | internal/syncer/download.go:71-124 | a streamed part is the whole upstream file, flushed, resumed or not; on a disk that answers it streams exactly if the host answers with the rest of the file |
| Fetching.Fetcher.CommitSharing | internal/syncer/copies.go:39-60 | sharing leaves the whole file there for good, or the part file as it was; on a disk that answers it shares exactly if the earliest other holder has the size on record and re-reads as its hash |
| Fetching.Fetcher.Commit | internal/syncer/download.go:126-136 | committing leaves the whole file there for good, or each name as it was or whole, and fails only if the disk does |
| Fetching.Fetcher.Fetch | internal/syncer/download.go:31-69 | the size and digest answered are the whole file's under the name served or listed, every other pool name reads as it did, and on a disk that answers an uncut 200 from the beginning or 206 of the rest succeeds, a 200 to a range has the file asked for again, and a cut or short answer or any other status fails |
| Fetching.FitsIfTheRest | internal/gphotos/download.go:165-205 | which answers are taken, in their own fields |
| Fetching.LinkOverKeeps | internal/syncer/copies.go:21-37 | wherever linking over stops, the part file is still whole to fall back on |
| HeldCopies.HeldCopyOf | internal/store/copies.go:16-30 | of the other done rows with a file and this hash the one downloaded first, an undated one before any, ties by key; none if there is none |
| HeldCopies.GatherRuns | internal/store/copies.go:34-54 | appending to the last group in place splits the rows into runs of equal hashes, none lost or moved |
| HeldCopies.GroupsDiffer | internal/store/copies.go:32-54 | no two groups hold the same bytes |
| HeldCopies.GroupsAreTheClasses | internal/store/copies.go:32-54 | the groups are exactly the classes of rows sharing their bytes, led by the earliest |
| Linking.LinkOverReadsTheSame | internal/syncer/copies.go:21-37 | wherever linking over a name of the same bytes stops, every pool name reads the same |
| Linking.ACrashReadsAsBefore | internal/syncer/copies.go:21-37 | and so after the power goes |
| Linking.SeparateFiles | internal/syncer/copies.go:135-148 | which copies are files of their own, and none when the group is one file |
| Linking.LinkOne | internal/syncer/copies.go:150-169 | a copy becomes the kept file only if it re-reads intact |
| Linking.LinkGroup | internal/syncer/copies.go:150-169 | every separate copy is linked or refused and the bytes freed are those of the linked; nothing is linked to a kept file that has rotted |
| Linking.PassGroup | internal/syncer/copies.go:106-133 | a group without refusals is one file afterwards; a settled group is left alone |
| Linking.Pass | internal/syncer/copies.go:106-133 | wherever a pass stops every name reads the same; a finished pass leaves the next nothing to link; on a disk that answers its report is what the disk it found called for |
| Linking.ReportUntouched | internal/syncer/copies.go:106-169 | what one group calls for is not changed by linking another |
| Linking.OthersUntouched | internal/syncer/copies.go:106-133 | linking one group undoes nothing in another |
| Linking.TheStoresGroupsAreApart | internal/store/copies.go:34-54 | the groups the store answers are what a pass needs |
| Twins.FirstOfEach | internal/store/twins.go:20-72 | each written-off item is paired once, with a copy as good as any it has |
| Twins.WhoIsPaired | internal/store/twins.go:20-47 | a written-off item with a file is paired exactly if a backed-up row shares its hash, or its name and second at no smaller a size |
| Twins.PairedWithTheBest | internal/store/twins.go:40-72 | beside a row sharing its hash if any does, and of such rows one recorded no smaller than any other |
| Twins.RemoveTwins | internal/syncer/twins.go:87-125 | each pairing is reported once, removed or refused: exactly the items whose kept copy re-reads intact are removed and forgotten, whatever an earlier pass left half done, and the bytes freed are theirs |
| Twins.ForgetTwin | internal/syncer/twins.go:147-152 | the file goes before the row; a file already gone is where an earlier pass stopped |
| Twins.TheNextPassFinishes | internal/syncer/twins.go:78-125 | an item whose file went and whose row stayed is paired again and forgotten by the next pass exactly if its copy then re-reads intact |
| Twins.UnlinkedOneMore | internal/syncer/twins.go:147-152 | unlinking one twin, even another name of the kept file, leaves every kept copy intact |
| Twins.KeptStaysIntact | internal/syncer/twins.go:87-125 | unlinking written-off files changes what no kept copy reads |
| Twins.NothingLostByCleaning | internal/syncer/twins.go:87-152 | a name removed belonged to a written-off item beside a done row over a file that hashes to its record: the same hash, or the same name and second at no smaller a size |
| Verify.Hash | internal/syncer/verify.go:186-208 | a digest kept under an inode is that of the file under any of its names |
| Verify.Sweep | internal/syncer/verify.go:99-143 | the memoised sweep reports exactly what re-reading every name would; on any disk a file it has nothing to say of reads as its hash if it has one, and missing and corrupt mean so |
| Verify.RequeueFaulty | internal/syncer/verify.go:145-160 | missing and corrupt files go back on the work list, unreadable ones never, and the answer is how many there were up to where it stopped |
| Workers.AlbumForItem | internal/store/items.go:448-466 | of the albums that want an item the one whose id comes first, and one exactly if the item is in the sync set |
| Workers.WhoIsWanted | internal/store/items.go:121-133 | an item is in the sync set exactly if linked to an album synced whole, or by picks and picked |
| Workers.WhoIsPending | internal/store/items.go:151-159 | pending is wanted, neither done nor written off, and failed less than the allowed times |
| Workers.UnfollowedAndFollowedAgain | internal/store/items.go:121-159 | setting the only album followed for an item to none takes it off the work list, and following it whole puts it back |
| Workers.StaysOwed | internal/store/items.go:121-159 | exactly which writes take an item off the work list |
| Workers.NoWorkIsLost | internal/store/items.go:121-159 | over any history an item stays on the work list until one of those settles it |
| Workers.DownloadOne | internal/syncer/queue.go:216-308 | a download writes its claim and at most one word more; it retries only while that could help, all the attempts allowed and no more, and is torn down only by an end of the run that a nap or a failure ran into |
| Workers.ADownloadCosts | internal/syncer/queue.go:285-308 | one failure charged however many attempts, a clean slate on success, nothing if the run was torn down |
| Workers.ReclaimVanishedFiles | internal/syncer/queue.go:13-48 | exactly the wanted done items whose file is gone are put back and counted; one that cannot be looked at is not |
| Feeder.Feed.Offer | internal/syncer/queue.go:158-188 | what is new of a batch goes out in its order, each key at most once and at most the cap of them; no room is answered only when there is none |
| Feeder.Feed.Run | internal/syncer/queue.go:119-156 | it stops early only for the cap, a cancellation, a full disk or a failing query; with none of them everything pending at a query begun after the listing ended was handed out; it ends once the listing does |
| Feeder.LimitDidNotBite | internal/syncer/queue.go:140-150 | a list all handed out under the cap was not cut short by its limit |
| Feeder.SamplingAfterwardsWouldMiss | internal/syncer/queue.go:147-149 | the other order of sampling and querying would miss what the listing wrote last |
| Breaker.StreakIsTheLongest | internal/syncer/retry.go:91-124 | the counter is the longest stretch without a success that the history ends in |
| Breaker.WhatFailuresSay | internal/syncer/retry.go:41-89 | which causes are final, and which outcomes the breaker is not told of |
| Breaker.TripsStay | internal/syncer/retry.go:113-124 | later outcomes do not move the first trip |
| Breaker.NoStretchIsLonger | internal/syncer/retry.go:107-124 | no stretch without a success counts more failures than the counter |
| Breaker.CircuitBreaker.Succeed | internal/syncer/retry.go:107-111 | a success never trips and never untrips |
| Breaker.CircuitBreaker.Fail | internal/syncer/retry.go:113-124 | it reports a trip exactly at the first failure to end a long enough streak |
| Breaker.Tally | internal/syncer/queue.go:65-98 | downloads, failures, skips and bytes are those of the outcomes, and the trip is announced once, at the first place the history earns it |
| Thumbs.StepKeepsInv | internal/thumbs/thumbs.go:82-112 | every step of any request keeps leaders registered and waiters on a fetch of their own key |
| Thumbs.SingleFlight | internal/thumbs/thumbs.go:77-112 | at most one upstream fetch per key in flight, no live request is answered with its leader's cancellation, and any other answer is that of a fetch for the same key |
| Thumbs.Sweep | internal/thumbs/thumbs.go:181-217 | without removal errors the shortest oldest-first stretch goes that brings the cache to its target, and nothing when it is within its cap |
| TimelineGrid.Layout | internal/web/static/timeline.js:121-137 | headings and full lines of cells follow on without gap or overlap over all months, only the last line of a month being short |
| TimelineGrid.ExactlyOneRow | internal/web/static/timeline.js:121-137 | every item is in exactly one row |
| TimelineGrid.PositionsIncrease | internal/web/static/timeline.js:121-137 | rows' positions strictly increase |
| TimelineGrid.Ordered | internal/web/static/timeline.js:121-137 | rows are in the order of their items and do not overlap |
| TimelineGrid.FirstRowBelow | internal/web/static/timeline.js:197-206 | the binary search finds what a linear scan would |
| TimelineGrid.RowOfIndex | internal/web/static/timeline.js:383-394 | the binary search finds the one row that shows the item |
| TimelineGrid.BandOfIndex | internal/web/static/timeline.js:505-514 | the month found is the last to start at or before the item, and holds it |
| TimelineGrid.ScrollTarget | internal/web/static/timeline.js:396-402 | a jump to the first item of a month lands on that month's own heading |
| AlbumView.LinkDirectory.WriteAlbum | internal/links/links.go:123-172 | the symlinks are exactly the plan less names foreign files hold, the counts are theirs, nothing foreign is touched, and with nothing to do no call changes the disk |
| AlbumView.LinkDirectory.RemoveLinks | internal/links/links.go:244-262 | every symlink goes and is counted, and nothing foreign does |
| AlbumView.AlbumTree.RemoveLinkDir | internal/links/links.go:244-267 | a directory left with nothing is removed, and one with a foreign file never |
| AlbumView.AlbumTree.Prune | internal/links/links.go:223-242 | wherever it stops wanted directories, top-level files and foreign files are as they were; finished, only they are left |
| AlbumView.ReconcilingTwiceIsOnce | internal/links/links.go:123-172 | a second rebuild of the same plan finds the directory as it would make it |
| StoredTimes.StampOf | internal/store/store.go:170-172 | every instant breaks down into a valid UTC date and time that names it |
| StoredTimes.InstantsAreOrderedAsStamps | internal/store/store.go:160-172 | calendar fields and instants are in the same order |
| StoredTimes.StoredOrderIsTimeOrder | internal/store/store.go:160-172 | lexical order is chronological order, and no two instants are stored alike |
| StoredTimes.OrdersAgreeExactly | internal/store/store.go:160-172 | on which spans of years the two orders agree, both ways |
| StoredTimes.ReadsBackExactly | internal/store/store.go:174-190 | a time reads back as itself if and only if it is no date or of a year from 0 to 9999 |
| GridSelection.PlacesSortTheSame | internal/store/grid.go:156-185 | reading no date as the empty string sorts as NULL does |
| GridSelection.SelectRange | internal/store/grid.go:164-181 | exactly the album's items between the ends are marked, no other selection changes |
| GridSelection.WhatARangeHolds | internal/store/grid.go:156-185 | a range holds exactly the members with one known end at or before them and one at or after them |
| GridSelection.ARangeIsAStretch | internal/store/grid.go:156-185 | with its ends in either order a range is the contiguous stretch of the album's own order between them |
| GridSelection.TheAlbumRunsInTime | internal/store/grid.go:8-16 | the album's order is the order of capture, undated first |

## Assumptions

- SHA-256 is injective, and the upstream bytes of an item do not change. Names made for distinct keys
  are distinct: `Basics.Path` builds the key into the name, which `safeName` does not guarantee.
- SQLite evaluates an UPDATE's SET one row at a time, so the review flag sees rows the same statement
  has already written off.
- A crash leaves the namespace as it is or as it was at some moment since a directory was last
  flushed (metadata journalled in order), keeps file data up to the last flush, and of appended data
  loses only a tail.
- The content host announces true lengths where it announces any. `Fetching.Fetcher.Fetch` further
  requires that the end of a body can be told, which `Fetching.AcceptedIsWholeIffLengthKnown` shows
  is exactly what it needs.
- The timeline is newest first within 48 hours, undated items anywhere, and the date the library has
  recorded for a photo is the one Google still gives it.
- Media keys are numbers standing for their place in SQLite's text order.

## Left out

- Linking.Pass: a copy that rots between being re-read and being linked over.
- Twins.RemoveTwins: a run going on at the same time; the command takes no lock against one.
- Downloads.NeverLess: removal of pool files by the duplicates command, which Twins covers on its own.
- Verify.Sweep: cancellation between two files, and the case of hexadecimal digits.
- Feeder.Feed.Run: the order in which workers finish; what is pending at each moment is an arbitrary function of time.
- AlbumView.LinkDirectory.WriteAlbum: how the plan's names are made. A disambiguated name is not checked again (`internal/links/links.go:192-203`), so two items can come to one link.
- StoredTimes.ReadsBackExactly: spellings of RFC 3339 other than the one the store writes.
- A part file left behind complete: the resume asks for a range past the end, is answered 416, and fails without another attempt; the model has such an answer end the download.
- The rest of the model keeps the instant of a timestamp column rather than its text, so it speaks of dates in years 0 to 9999.
- Flagging arrivals of a walk that failed after linking them: they are not flagged later, and nothing here says they are.
- Decoding of Google's answers, sign-in, the browser, and everything under `internal/auth`.
- The SQL engine, migrations, and database errors other than a statement failing whole.
- The rate limiter, backoff delays and jitter, disk-headroom measurement: arbitrary inputs.
- The schedule and the daemon's one-run-at-a-time lock: short case distinctions over one row.
- File name sanitising, and pool paths as text.
- The web pages, settings, Home Assistant, the location sweep, and the rendering half of the timeline.
- Month folding in the store's local time, which depends on the server's timezone rules.
