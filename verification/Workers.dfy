/**
 The work list and what one worker does with one item of it: internal/store/items.go's Pending and
 AlbumForItem, and internal/syncer/queue.go's downloadOne, recordFailure and reclaimVanishedFiles,
 beside everything else that writes the same rows meanwhile.
 */
module Workers {
  import opened Basics
  import opened StoreState
  import opened Lifecycle
  import opened StoreClass
  import opened FileSystem
  import Breaker

  // ---- The work list ----

  // An album that asks for an item: synced whole, or synced by picks and the item picked.
  predicate Covers(t: Tables, album: AlbumId, key: Key) {
    && (album, key) in t.links && album in t.albums
    && (|| t.albums[album].mode == SyncAll
        || (t.albums[album].mode == SyncPicked && key in t.selection && t.selection[key]))
  }

  predicate InTheSyncSet(t: Tables, key: Key) {
    exists link | link in t.links :: link.1 == key && Covers(t, link.0, key)
  }

  predicate Owed(row: Row, maxFailures: nat) {
    row.state in {Discovered, Queued, Downloading, Failed} && row.failCount < maxFailures
  }

  predicate IsPending(t: Tables, key: Key, maxFailures: nat) {
    key in t.items && Owed(t.items[key], maxFailures) && InTheSyncSet(t, key)
  }

  /**
   The album to ask for an item in the name of: of those that want it the one whose id comes first in
   the text order of ids, which place stands for. There is one exactly if the item is wanted.
   */
  method AlbumForItem(t: Tables, key: Key, place: AlbumId -> nat) returns (album: Option<AlbumId>)
    ensures album.Some? <==> InTheSyncSet(t, key)
    ensures album.Some? <==> exists link | link in t.links :: link.1 == key && FollowedFor(t, link.0, key)
    ensures album.Some? ==> (album.value, key) in t.links && FollowedFor(t, album.value, key)
    ensures album.Some? ==> Covers(t, album.value, key)
    ensures album.Some? ==> forall other :: Covers(t, other, key) ==> place(album.value) <= place(other)
  {
    hide Covers;
    album := None;
    var todo := t.links;
    while todo != {}
      invariant todo <= t.links
      invariant album.None? ==> forall link :: link in t.links - todo && link.1 == key ==> !Covers(t, link.0, key)
      invariant album.Some? ==>
        && (album.value, key) in t.links && Covers(t, album.value, key)
        && forall link :: link in t.links - todo && link.1 == key && Covers(t, link.0, key) ==>
             place(album.value) <= place(link.0)
      decreases |todo|
    {
      var link :| link in todo;
      todo := todo - {link};
      if link.1 == key && Covers(t, link.0, key) && (album.None? || place(link.0) < place(album.value)) {
        album := Some(link.0);
      }
    }
    CoversAreLinks(t, key);
    WhoIsWanted(t, key);
  }

  // What the user decided about an item by way of one album: everything in it, or this one picked.
  predicate FollowedFor(t: Tables, album: AlbumId, key: Key) {
    album in t.albums &&
    match t.albums[album].mode
    case SyncNone => false
    case SyncAll => true
    case SyncPicked => key in t.selection && t.selection[key]
  }

  /**
   What is wanted and what is owed, in the columns: an item is in the sync set exactly if an album it
   is linked to is synced whole, or by picks and the item picked; and pending exactly if it is, has not
   been downloaded or written off, and has not failed too often.
   */
  lemma WhoIsWanted(t: Tables, key: Key)
    ensures InTheSyncSet(t, key) <==> exists link | link in t.links :: link.1 == key && FollowedFor(t, link.0, key)
    ensures forall album :: Covers(t, album, key) <==> (album, key) in t.links && FollowedFor(t, album, key)
  {
    if link :| link in t.links && link.1 == key && FollowedFor(t, link.0, key) {
      assert (link.0, key) == link && Covers(t, link.0, key);
    }
    if link :| link in t.links && link.1 == key && Covers(t, link.0, key) {
      assert FollowedFor(t, link.0, key);
    }
  }

  lemma WhoIsPending(t: Tables, key: Key, maxFailures: nat)
    ensures IsPending(t, key, maxFailures) <==>
      && key in t.items && t.items[key].state != Done && t.items[key].state != MissingUpstream
      && t.items[key].failCount < maxFailures
      && exists link | link in t.links :: link.1 == key && FollowedFor(t, link.0, key)
  {
    WhoIsWanted(t, key);
  }

  function ModeMoved(t: Tables, album: AlbumId, mode: SyncMode): Tables {
    if album in t.albums then t.(albums := t.albums[album := t.albums[album].(mode := mode)]) else t
  }

  /**
   Following and unfollowing. Of an item no other album is followed for, unfollowing its one album
   takes it off the work list, and following that whole again puts it back as it was.
   */
  lemma UnfollowedAndFollowedAgain(t: Tables, album: AlbumId, key: Key, maxFailures: nat)
    requires album in t.albums && (album, key) in t.links
    requires forall a :: (a, key) in t.links && a != album ==> !FollowedFor(t, a, key)
    ensures !IsPending(ModeMoved(t, album, SyncNone), key, maxFailures)
    ensures !InTheSyncSet(ModeMoved(t, album, SyncNone), key)
    ensures InTheSyncSet(ModeMoved(t, album, SyncAll), key)
    ensures IsPending(t, key, maxFailures) ==>
      IsPending(ModeMoved(ModeMoved(t, album, SyncNone), album, SyncAll), key, maxFailures)
  {
    var off, on := ModeMoved(t, album, SyncNone), ModeMoved(t, album, SyncAll);
    assert ModeMoved(off, album, SyncAll) == on;
    WhoIsPending(t, key, maxFailures);
    WhoIsPending(off, key, maxFailures);
    WhoIsPending(on, key, maxFailures);
    WhoIsWanted(off, key);
    WhoIsWanted(on, key);
    forall link | link in off.links && link.1 == key
      ensures !FollowedFor(off, link.0, key)
    {
      assert (link.0, key) in t.links;
    }
    assert (album, key).1 == key && FollowedFor(on, (album, key).0, key);
  }

  lemma CoversAreLinks(t: Tables, key: Key)
    ensures forall album :: Covers(t, album, key) ==> (album, key) in t.links
  {
  }

  predicate WantedBesides(t: Tables, album: AlbumId, key: Key) {
    exists link | link in t.links :: link.1 == key && link.0 != album && Covers(t, link.0, key)
  }

  // The writes that take an item off the work list.
  predicate Settles(t: Tables, w: Write, key: Key, maxFailures: nat)
    requires key in t.items
  {
    match w
    case MarkDownloaded(k, _, _, _, _, _) => k == key
    case MarkFailed(k, _) => k == key && t.items[key].failCount + 1 >= maxFailures
    case Reconcile(album, departed, _) => key in departed && !WantedBesides(t, album, key)
    case Forget(k) => k == key
    case _ => false
  }

  lemma CoversKept(t: Tables, w: Write, album: AlbumId, key: Key)
    requires Covers(t, album, key) && w != Forget(key)
    requires !(w.Reconcile? && w.album == album && key in w.departed)
    ensures InTheSyncSet(Apply(t, w), key)
  {
    var u := Apply(t, w);
    if w.Reconcile? {
      ReconcileMeaning(t, w.album, w.departed, w.at);
    }
    assert (album, key) in u.links && Covers(u, album, key);
  }

  lemma OwedKept(t: Tables, w: Write, key: Key, maxFailures: nat)
    requires key in t.items && Owed(t.items[key], maxFailures) && SoundRow(t.items[key])
    requires IssuedByTheEngine(w) && !Settles(t, w, key, maxFailures)
    ensures key in Apply(t, w).items && Owed(Apply(t, w).items[key], maxFailures)
  {
    if w.Reconcile? {
      ReconcileMeaning(t, w.album, w.departed, w.at);
      if key in w.departed {
        var link :| link in t.links && link.1 == key && link.0 != w.album;
        assert LinkedElsewhere(t.links, w.album, key);
      }
    }
  }

  // Departing from the last album that wanted it, an item is written off or merely unwanted.
  lemma DepartedForGood(t: Tables, album: AlbumId, departed: seq<Key>, at: Time, key: Key, maxFailures: nat)
    requires IsPending(t, key, maxFailures) && SoundRow(t.items[key])
    requires key in departed && !WantedBesides(t, album, key)
    ensures !IsPending(Reconciled(t, album, departed, at), key, maxFailures)
  {
    ReconcileMeaning(t, album, departed, at);
    var u := Reconciled(t, album, departed, at);
    if LinkedElsewhere(t.links, album, key) {
      forall link | link in u.links && link.1 == key
        ensures !Covers(u, link.0, key)
      {
        assert Covers(u, link.0, key) ==> Covers(t, link.0, key);
      }
    }
  }

  /** Exactly these take an item off the work list, whoever writes them. */
  lemma StaysOwed(t: Tables, w: Write, key: Key, maxFailures: nat)
    requires SoundRows(t) && IsPending(t, key, maxFailures) && IssuedByTheEngine(w)
    ensures IsPending(Apply(t, w), key, maxFailures) <==> !Settles(t, w, key, maxFailures)
  {
    if Settles(t, w, key, maxFailures) {
      if w.Reconcile? {
        DepartedForGood(t, w.album, w.departed, w.at, key, maxFailures);
      }
    } else {
      hide Covers, Owed;
      OwedKept(t, w, key, maxFailures);
      var link: (AlbumId, Key) :| link in t.links && link.1 == key && Covers(t, link.0, key)
        && !(w.Reconcile? && w.album == link.0 && key in w.departed);
      CoversKept(t, w, link.0, key);
    }
  }

  ghost predicate SettledIn(t: Tables, writes: seq<Write>, key: Key, maxFailures: nat)
    decreases |writes|
  {
    && writes != []
    && (|| (key in t.items && Settles(t, writes[0], key, maxFailures))
        || SettledIn(Apply(t, writes[0]), writes[1..], key, maxFailures))
  }

  /**
   No work is lost. Whatever the lister and the workers write, an item on the work list is still on
   it unless it was downloaded, failed for the last time it may, left the album, was written off or
   was forgotten.
   */
  lemma {:induction false} NoWorkIsLost(t: Tables, writes: seq<Write>, key: Key, maxFailures: nat)
    requires SoundRows(t) && IsPending(t, key, maxFailures)
    requires forall w :: w in writes ==> IssuedByTheEngine(w)
    requires !SettledIn(t, writes, key, maxFailures)
    ensures IsPending(Replay(t, writes), key, maxFailures)
    decreases |writes|
  {
    hide IsPending, Settles, Apply, IssuedByTheEngine, SoundRows;
    if writes != [] {
      PendingIsKnown(t, key, maxFailures);
      assert writes[0] in writes;
      SoundRowsKept(t, writes[0]);
      StaysOwed(t, writes[0], key, maxFailures);
      NoWorkIsLost(Apply(t, writes[0]), writes[1..], key, maxFailures);
    }
  }

  lemma PendingIsKnown(t: Tables, key: Key, maxFailures: nat)
    requires IsPending(t, key, maxFailures)
    ensures key in t.items
  {
  }

  // ---- One item ----

  datatype FetchResult = Fetched(filename: string, path: Path, size: nat, sha: Digest) | Failing(cause: Breaker.Cause)

  datatype Ending =
    | Landed(located: bool)
    | NotWanted
    | StoreRefused
    | Charged(cause: Breaker.Cause)
    | Uncharged(cause: Breaker.Cause)      // a failure the store would not take
    | TornDown

  /** What chance decides of one download: how each attempt goes, and when the run is torn down. */
  datatype Chances = Chances(
    fetches: nat -> FetchResult,
    takes: nat -> nat,
    naps: nat -> nat,
    napWins: nat -> bool,          // whether a nap that is over wins against a context that is too
    endsAt: nat,                   // when the run's context ends
    claimFails: bool,
    recordFails: bool,
    placeFails: bool)              // whether recording where the photograph was taken fails

  function Attempts(maxAttempts: int): nat {
    if maxAttempts > 1 then maxAttempts else 1
  }

  // Every attempt before this one failed in a way worth another.
  ghost predicate WorthTrying(fetches: nat -> FetchResult, attempt: nat) {
    forall i: nat :: i < attempt ==> fetches(i).Failing? && Breaker.Retryable(fetches(i).cause)
  }

  // When so many attempts are over, with the naps between them.
  function Elapsed(chances: Chances, tried: nat): nat {
    if tried == 0 then 0
    else
      Elapsed(chances, tried - 1) + (if tried > 1 then chances.naps(tried - 1) else 0) + chances.takes(tried - 1)
  }

  // A run is torn down under a nap, or under the attempt that would have been charged.
  predicate TornDownAt(chances: Chances, maxAttempts: int, tried: nat, clock: nat) {
    && clock >= chances.endsAt && tried > 0 && chances.fetches(tried - 1).Failing?
    && var again := Breaker.Retryable(chances.fetches(tried - 1).cause) && tried < Attempts(maxAttempts);
       if again then clock == Elapsed(chances, tried) + chances.naps(tried) && !chances.napWins(tried)
       else clock == Elapsed(chances, tried)
  }

  // What a download writes of its item once it has claimed it.
  ghost predicate LastWord(key: Key, ending: Ending, tried: nat, chances: Chances, clock: nat, at: Time, words: string,
                           last: seq<Write>)
  {
    match ending
    case Landed(located) =>
      && located == !chances.placeFails && !chances.recordFails
      && tried > 0 && chances.fetches(tried - 1).Fetched?
      && var f := chances.fetches(tried - 1);
         last == [MarkDownloaded(key, f.filename, f.path, f.size, f.sha, at)]
    case Charged(_) => clock < chances.endsAt && !chances.recordFails && last == [MarkFailed(key, words)]
    case Uncharged(_) => clock < chances.endsAt && chances.recordFails && last == []
    case TornDown => clock >= chances.endsAt && last == []
    case StoreRefused => tried > 0 && chances.fetches(tried - 1).Fetched? && chances.recordFails && last == []
    case NotWanted => false
  }

  /**
   One item, retried while that could help. Claiming it, and at most one word about how it went, are
   all a download writes; a failure is charged to the item once, however many attempts it took, and
   not at all if the run was being torn down. An item that landed is recorded whether or not its place
   could be, though one without is reported as a failure.
   */
  method DownloadOne(store: Store, key: Key, maxAttempts: int, chances: Chances, meanwhile: seq<Write>, at: Time,
                     words: string, place: AlbumId -> nat)
    returns (ending: Ending, tried: nat, clock: nat, last: seq<Write>)
    modifies store
    ensures ending.NotWanted? <==> !InTheSyncSet(old(store.Contents()), key)
    ensures ending.NotWanted? <==>
      !exists link | link in old(store.links) :: link.1 == key && FollowedFor(old(store.Contents()), link.0, key)
    ensures ending.NotWanted? || (ending.StoreRefused? && tried == 0) ==> store.Contents() == old(store.Contents())
    ensures !ending.NotWanted? ==> (tried == 0 <==> chances.claimFails) && (tried == 0 ==> ending.StoreRefused?)
    ensures tried > 0 ==>
      && store.Contents() == Replay(old(store.Contents()), [SetItemState(key, Downloading)] + meanwhile + last)
      && LastWord(key, ending, tried, chances, clock, at, words, last)
      && (tried <= maxAttempts || tried == 1) && WorthTrying(chances.fetches, tried - 1)
    ensures ending.Charged? || ending.Uncharged? ==>
      && tried > 0 && chances.fetches(tried - 1) == Failing(ending.cause)
      && (Breaker.Retryable(ending.cause) ==> tried >= maxAttempts)
    ensures tried > 0 ==>
      if ending.TornDown? then TornDownAt(chances, maxAttempts, tried, clock) else clock == Elapsed(chances, tried)
  {
    hide InTheSyncSet, Apply;
    ending, tried, clock, last := NotWanted, 0, 0, [];
    var album := AlbumForItem(store.Contents(), key, place);
    if album.None? { return; }
    if chances.claimFails {
      ending := StoreRefused;
      return;
    }
    ghost var before := store.Contents();
    Claim(store, key, meanwhile);

    var lastCause := Breaker.Otherwise;
    var more := true;
    while more
      invariant more ==> tried < Attempts(maxAttempts) && WorthTrying(chances.fetches, tried)
      invariant !more ==>
        && 0 < tried <= Attempts(maxAttempts) && WorthTrying(chances.fetches, tried - 1)
        && chances.fetches(tried - 1) == Failing(lastCause)
        && (Breaker.Retryable(lastCause) ==> tried == Attempts(maxAttempts))
      invariant clock == Elapsed(chances, tried)
      invariant store.Contents() == Replay(before, [SetItemState(key, Downloading)] + meanwhile)
      decreases Attempts(maxAttempts) - tried, if more then 1 else 0
    {
      if tried > 0 {
        clock := clock + chances.naps(tried);
        if clock >= chances.endsAt && !chances.napWins(tried) {
          ending := TornDown;
          NoMore(before, [SetItemState(key, Downloading)] + meanwhile);
          return;
        }
      }
      var result := chances.fetches(tried);
      clock := clock + chances.takes(tried);
      tried := tried + 1;
      if result.Fetched? {
        if chances.recordFails {
          ending := StoreRefused;
          NoMore(before, [SetItemState(key, Downloading)] + meanwhile);
          return;
        }
        ending := Landed(!chances.placeFails);
        last := [MarkDownloaded(key, result.filename, result.path, result.size, result.sha, at)];
        ReplaySplit(before, [SetItemState(key, Downloading)] + meanwhile, last[0]);
        store.Perform(last[0]);
        return;
      }
      lastCause := result.cause;
      more := Breaker.Retryable(lastCause) && tried < Attempts(maxAttempts);
    }
    if clock >= chances.endsAt {
      ending := TornDown;
      NoMore(before, [SetItemState(key, Downloading)] + meanwhile);
    } else if chances.recordFails {
      ending := Uncharged(lastCause);
      NoMore(before, [SetItemState(key, Downloading)] + meanwhile);
    } else {
      ending := Charged(lastCause);
      last := [MarkFailed(key, words)];
      ReplaySplit(before, [SetItemState(key, Downloading)] + meanwhile, last[0]);
      store.Perform(last[0]);
    }
  }

  lemma NoMore(t: Tables, writes: seq<Write>)
    ensures Replay(t, writes + []) == Replay(t, writes)
  {
    assert writes + [] == writes;
  }

  // Claims an item, and lets everybody else write what they have while it downloads.
  method Claim(store: Store, key: Key, meanwhile: seq<Write>)
    modifies store
    ensures store.Contents() == Replay(old(store.Contents()), [SetItemState(key, Downloading)] + meanwhile)
  {
    hide Apply;
    ghost var before := store.Contents();
    var claim := SetItemState(key, Downloading);
    store.Perform(claim);
    ReplayOne(before, claim);
    for i := 0 to |meanwhile|
      invariant store.Contents() == Replay(before, [claim] + meanwhile[..i])
    {
      ReplaySplit(before, [claim] + meanwhile[..i], meanwhile[i]);
      assert [claim] + meanwhile[..i] + [meanwhile[i]] == [claim] + meanwhile[..i + 1];
      store.Perform(meanwhile[i]);
    }
    assert meanwhile[..|meanwhile|] == meanwhile;
  }

  lemma ReplayOne(t: Tables, w: Write)
    ensures Replay(t, [w] + []) == Apply(t, w)
  {
    hide Apply;
    assert [w] + [] == [w] && [w][1..] == [];
  }

  // Somebody else's writes leave this item's failures to its own worker.
  predicate AnothersWord(w: Write, key: Key) {
    w != Forget(key) && (w.MarkFailed? || w.MarkDownloaded? ==> w.key != key)
  }

  lemma {:induction false} CountUntouched(before: nat, writes: seq<Write>, key: Key)
    requires forall w :: w in writes ==> AnothersWord(w, key)
    ensures FailuresSinceSuccess(before, writes, key) == before
    decreases |writes|
  {
    if writes != [] {
      assert writes[|writes| - 1] in writes;
      CountUntouched(before, writes[..|writes| - 1], key);
    }
  }

  /**
   What a download costs its item: one failure if it was charged, a clean slate if it landed, and
   nothing if the run was torn down under it, whatever everybody else wrote meanwhile.
   */
  lemma ADownloadCosts(t: Tables, key: Key, meanwhile: seq<Write>, last: seq<Write>, ending: Ending, tried: nat,
                       chances: Chances, clock: nat, at: Time, words: string)
    requires key in t.items && forall w :: w in meanwhile ==> AnothersWord(w, key)
    requires LastWord(key, ending, tried, chances, clock, at, words, last)
    ensures var after := Replay(t, [SetItemState(key, Downloading)] + meanwhile + last);
      && key in after.items
      && after.items[key].failCount == match ending
         case Landed(_) => 0
         case Charged(_) => t.items[key].failCount + 1
         case _ => t.items[key].failCount
  {
    hide Apply;
    var first := [SetItemState(key, Downloading)] + meanwhile;
    var count := t.items[key].failCount;
    forall w | w in first
      ensures AnothersWord(w, key)
    {
    }
    CountUntouched(count, first, key);
    assert Forget(key) !in first by {
      assert !AnothersWord(Forget(key), key);
    }
    if last == [] {
      assert first + last == first;
    } else {
      assert (first + last)[..|first| + 1 - 1] == first;
    }
    FailCountIsItsHistory(t, first + last, key);
  }

  // ---- Files that vanished ----

  datatype Look = There | Gone | CannotTell

  // What looking for a recorded file may find: it is never said to be gone while it is there.
  ghost predicate Truthful(look: Path -> Look, d: Disk) {
    forall p: Path :: (look(p).Gone? ==> p !in d.names) && (look(p).There? ==> p in d.names)
  }

  predicate Vanished(t: Tables, look: Path -> Look, key: Key) {
    && key in t.items && t.items[key].state == Done && InTheSyncSet(t, key)
    && t.items[key].localPath.Some? && look(t.items[key].localPath.value).Gone?
  }

  // The items whose file is gone, of those asked about so far, are owed again and counted.
  ghost predicate Reclaimed(t: Tables, items: map<Key, Row>, asked: seq<Key>, look: Path -> Look, lost: nat) {
    && items.Keys == t.items.Keys
    && (forall k :: k in t.items ==>
          items[k] == if k in asked && Vanished(t, look, k) then t.items[k].(state := Discovered) else t.items[k])
    && lost == |set k | k in asked && Vanished(t, look, k)|
  }

  lemma NoneReclaimedYet(t: Tables, kept: seq<Key>, look: Path -> Look)
    ensures Reclaimed(t, t.items, kept[..0], look, 0)
  {
    assert (set k | k in kept[..0] && Vanished(t, look, k)) == {};
  }

  lemma ReclaimedNext(t: Tables, items: map<Key, Row>, kept: seq<Key>, i: nat, look: Path -> Look, lost: nat)
    requires i < |kept| && Distinct(kept) && Reclaimed(t, items, kept[..i], look, lost)
    requires kept[i] in t.items && t.items[kept[i]].state == Done && InTheSyncSet(t, kept[i])
    ensures items.Keys == t.items.Keys && items[kept[i]] == t.items[kept[i]]
    ensures var path := items[kept[i]].localPath;
      if path.None? || !look(path.value).Gone? then Reclaimed(t, items, kept[..i] + [kept[i]], look, lost)
      else Reclaimed(t, items[kept[i] := items[kept[i]].(state := Discovered)], kept[..i] + [kept[i]], look, lost + 1)
  {
    hide InTheSyncSet;
    var key, asked := kept[i], kept[..i];
    assert key !in asked;
    OneMoreVanished(t, asked, look, key);
    assert forall k :: k in asked + [key] <==> k in asked || k == key;
  }

  lemma OneMoreVanished(t: Tables, asked: seq<Key>, look: Path -> Look, key: Key)
    requires key !in asked
    ensures |set k | k in asked + [key] && Vanished(t, look, k)|
         == |set k | k in asked && Vanished(t, look, k)| + if Vanished(t, look, key) then 1 else 0
  {
    hide Vanished;
    var gone := set k | k in asked && Vanished(t, look, k);
    assert (set k | k in asked + [key] && Vanished(t, look, k)) == gone + if Vanished(t, look, key) then {key} else {};
  }

  lemma ReclaimedMeans(t: Tables, items: map<Key, Row>, kept: seq<Key>, look: Path -> Look, lost: nat)
    requires Reclaimed(t, items, kept, look, lost)
    requires forall k :: k in kept <==> k in t.items && t.items[k].state == Done && InTheSyncSet(t, k)
    ensures items.Keys == t.items.Keys
    ensures forall k :: k in t.items ==>
      items[k] == if && t.items[k].state == Done && InTheSyncSet(t, k)
                     && t.items[k].localPath.Some? && look(t.items[k].localPath.value) == Gone
                  then t.items[k].(state := Discovered)
                  else t.items[k]
    ensures forall k :: Vanished(t, look, k) ==>
      && k in t.items && t.items[k].localPath.Some? && look(t.items[k].localPath.value).Gone?
      && items[k] == t.items[k].(state := Discovered) && InTheSyncSet(t, k)
    ensures lost == |set k | k in t.items && Vanished(t, look, k)|
  {
    hide InTheSyncSet;
    assert (set k | k in kept && Vanished(t, look, k)) == set k | k in t.items && Vanished(t, look, k);
  }

  /** Asks the disk about every item said to be done, and owes again the ones whose file it says is gone. */
  method ReclaimVanishedFiles(store: Store, kept: seq<Key>, look: Path -> Look, ghost d: Disk, ghost maxFailures: nat)
    returns (lost: nat)
    requires Truthful(look, d) && Distinct(kept)
    requires forall k :: k in kept <==> k in store.items && store.items[k].state == Done && InTheSyncSet(store.Contents(), k)
    modifies store
    ensures store.links == old(store.links) && store.albums == old(store.albums)
    ensures store.selection == old(store.selection) && store.items.Keys == old(store.items).Keys
    ensures forall k :: k in store.items ==>
      store.items[k] == if && old(store.items)[k].state == Done && InTheSyncSet(old(store.Contents()), k)
                           && old(store.items)[k].localPath.Some?
                           && look(old(store.items)[k].localPath.value) == Gone
                        then old(store.items)[k].(state := Discovered)
                        else old(store.items)[k]
    ensures lost == |set k | k in old(store.items) && Vanished(old(store.Contents()), look, k)|
    ensures forall k :: Vanished(old(store.Contents()), look, k) ==> store.items[k].localPath.value !in d.names
    ensures forall k :: k in store.items && Vanished(old(store.Contents()), look, k) ==>
      (IsPending(store.Contents(), k, maxFailures) <==> old(store.items)[k].failCount < maxFailures)
  {
    hide InTheSyncSet, Vanished, Reclaimed;
    ghost var t := store.Contents();
    lost := 0;
    NoneReclaimedYet(t, kept, look);
    for i := 0 to |kept|
      invariant store.Contents() == t.(items := store.items)
      invariant Reclaimed(t, store.items, kept[..i], look, lost)
    {
      ReclaimedNext(t, store.items, kept, i, look, lost);
      assert kept[..i + 1] == kept[..i] + [kept[i]];
      var row := store.items[kept[i]];
      if row.localPath.None? || !look(row.localPath.value).Gone? { continue; }
      var _ := store.SetItemState(kept[i], Discovered);
      lost := lost + 1;
    }
    assert kept[..|kept|] == kept;
    ReclaimedMeans(t, store.items, kept, look, lost);
    forall k
      ensures InTheSyncSet(store.Contents(), k) == InTheSyncSet(t, k)
    {
      SyncSetIgnoresRows(t, store.Contents(), k);
    }
    assert forall k :: k in store.items && Vanished(t, look, k) ==> store.items[k] == t.items[k].(state := Discovered);
  }

  lemma SyncSetIgnoresRows(t: Tables, u: Tables, key: Key)
    requires u.links == t.links && u.albums == t.albums && u.selection == t.selection
    ensures InTheSyncSet(u, key) == InTheSyncSet(t, key)
  {
    assert forall album :: Covers(u, album, key) == Covers(t, album, key);
  }
}
