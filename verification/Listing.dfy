/**
 The walks of a run, as they run: beside download workers that write the same rows between any two
 of the lister's statements, against a store any statement of which may fail and a Google that may
 refuse any page.
 */
module Listing {
  import opened Basics
  import opened StoreState
  import opened Lifecycle
  import opened StoreClass
  import opened LibraryWalk

  datatype Failure = Drift | CountContradicted | Unreachable | StoreFailed

  datatype Answer = Served(page: Page) | Refused(cause: Failure)

  // All that other goroutines can have done to the tables between two of the lister's statements.
  ghost predicate OnlyWorkersWrote(t: Tables, u: Tables) {
    && u.items.Keys == t.items.Keys
    && u.links == t.links && u.albums == t.albums && u.selection == t.selection
    && (forall k :: k in t.items ==>
          && (u.items[k].state == MissingUpstream <==> t.items[k].state == MissingUpstream)
          && u.items[k].missingSince == t.items[k].missingSince
          && u.items[k].captured == t.items[k].captured
          && u.items[k].needsReview == t.items[k].needsReview)
  }

  // What a walk under way has done: recorded some items, linked some of those, and held some back for
  // a decision.
  ghost predicate Recording(t: Tables, u: Tables, album: AlbumId, recorded: set<Key>, seen: set<Key>, held: set<Key>) {
    && seen <= recorded
    && u.albums == t.albums
    && (forall link :: link in u.links <==> link in t.links || (link.0 == album && link.1 in seen))
    && u.items.Keys == t.items.Keys + recorded
    && (forall k :: k in recorded ==> u.items[k].state != MissingUpstream && u.items[k].missingSince.None?)
    && (forall k :: k in t.items && k !in recorded ==>
          && (u.items[k].state == MissingUpstream <==> t.items[k].state == MissingUpstream)
          && u.items[k].missingSince == t.items[k].missingSince
          && u.items[k].needsReview == t.items[k].needsReview)
    && (forall k :: k in recorded ==> (u.items[k].needsReview <==> QuestionStood(t, k) || k in held))
  }

  // An item was up for review, and not as one written off: a re-listing withdraws that question.
  predicate QuestionStood(t: Tables, k: Key) {
    k in t.items && t.items[k].state != MissingUpstream && t.items[k].needsReview
  }

  /** A walk that came to nothing: no link is gone, nothing is written off, no album has moved on. */
  ghost predicate NothingLost(t: Tables, u: Tables) {
    && t.links <= u.links
    && t.items.Keys <= u.items.Keys
    && (forall k :: IsMissing(u.items, k) ==> IsMissing(t.items, k))
    && u.albums == t.albums
  }

  /** What a walk that reached its reconciliation leaves, given what it saw and what departed. */
  ghost predicate WalkOutcome(t: Tables, u: Tables, album: AlbumId, seen: set<Key>, gone: set<Key>, at: Time,
                              held: set<Key>) {
    && u.items.Keys == t.items.Keys + seen
    && (forall link :: link in u.links <==>
          if link.0 == album then
            link.1 in seen || (link in t.links && (link.1 in gone ==> IsMissing(u.items, link.1)))
          else link in t.links)
    && (forall k :: k in seen ==> !IsMissing(u.items, k))
    && (forall k :: k !in seen ==>
          (IsMissing(u.items, k) <==>
             IsMissing(t.items, k) || (k in gone && WritesOff(t.items, t.links, album, k))))
    && (forall k :: IsMissing(u.items, k) && !IsMissing(t.items, k) ==> u.items[k].missingSince == Some(at))
    && (forall k :: k in seen ==> (u.items[k].needsReview <==> QuestionStood(t, k) || k in held))
    && (forall k :: k in t.items && k !in seen && u.items[k].missingSince == t.items[k].missingSince ==>
          u.items[k].needsReview == t.items[k].needsReview)
  }

  /**
   A completed walk of a whole album leaves it linked to exactly what it saw and the missing items
   it already held; it writes off the members it did not see that no other album links, and
   touches no other album.
   */
  lemma CompletedAlbumWalk(t: Tables, u: Tables, album: AlbumId, seen: set<Key>, at: Time, held: set<Key>)
    requires WalkOutcome(t, u, album, seen, DeparturesOf(MembersOf(t, album), seen, 0), at, held)
    ensures forall k :: (album, k) in u.links <==> k in seen || ((album, k) in t.links && IsMissing(u.items, k))
    ensures forall link: (AlbumId, Key) :: link.0 != album ==> (link in u.links <==> link in t.links)
    ensures forall k :: IsMissing(u.items, k) && !IsMissing(t.items, k) ==>
      (album, k) in t.links && k !in seen && !LinkedElsewhere(u.links, album, k)
    ensures forall k :: (album, k) in t.links && k !in seen && WritesOff(t.items, t.links, album, k) ==>
      IsMissing(u.items, k) && (album, k) in u.links
  {
    assert forall k :: k in MembersOf(t, album) <==> (album, k) in t.links;
    forall k
      ensures LinkedElsewhere(u.links, album, k) == LinkedElsewhere(t.links, album, k)
    {
      assert forall link :: link in u.links && link.0 != album <==> link in t.links && link.0 != album;
    }
  }

  // No other album links an item exactly if every link it has is the library's.
  lemma WhoseWriteOff(t: Tables, key: Key)
    ensures LinkedElsewhere(t.links, Library, key) <==> exists a :: (a, key) in t.links && a != Library
  {
    if a :| (a, key) in t.links && a != Library {
      assert (a, key).1 == key;
    }
    if link :| link in t.links && link.1 == key && link.0 != Library {
      assert (link.0, key) in t.links;
    }
  }

  /**
   After a library walk of an honest timeline, however it ended, no photo still there has been
   written off by it or has left the library. What it did write off is exactly what no other album
   links, the timeline no longer holds and the dates oblige it to have seen.
   */
  lemma CompletedLibraryWalk(t: Tables, u: Tables, seen: set<Key>, timeline: seq<Item>, pages: seq<Page>, since: Time,
                             newOnly: bool, stop: Stop, at: Time, key: Key)
    requires Completes(pages, since, newOnly, MembersOf(t, Library), stop) && seen == SeenIn(Flatten(pages), since)
    requires WalkOutcome(t, u, Library, seen,
                         if seen == {} then {} else DeparturesOf(MembersOf(t, Library), seen, VouchedFrom(since, stop)),
                         at, {})
    requires Serves(timeline, pages) && NewestFirstWithinTheWobble(timeline) && FloorIsADate(since, stop)
    requires DateAgrees(MembersOf(t, Library), timeline, key)
    ensures key in KeysOf(timeline) ==>
      && (IsMissing(u.items, key) ==> IsMissing(t.items, key))
      && ((Library, key) in t.links ==> (Library, key) in u.links)
    ensures key in t.items && t.items[key].state != MissingUpstream && t.items[key].missingSince.None? ==>
      (key in u.items && u.items[key].state == MissingUpstream <==>
         && seen != {} && (Library, key) in t.links && (forall item :: item in timeline ==> item.key != key)
         && (forall a :: (a, key) in t.links ==> a == Library)
         && var date := if t.items[key].captured.Some? then t.items[key].captured.value else 0;
            match stop
            case EndOfTimeline => since == 0 || (date != 0 && date >= since)
            case DateBound => date != 0 && date >= since + 172_800_000_000_000
            case KnownGround(h) => date != 0 && date >= since + 172_800_000_000_000 && date >= h + 172_800_000_000_000)
  {
    hide Serves, NewestFirstWithinTheWobble, Completes, SeenIn, Flatten;
    assert key in MembersOf(t, Library) <==> (Library, key) in t.links;
    SafeExactlyWhenTheFloorIsADate(since, stop);
    WhatABoundedWalkDeparts(timeline, pages, since, newOnly, MembersOf(t, Library), stop, key);
    WhoseWriteOff(t, key);
  }

  // Whether what is new to an album needs a decision: it is one picked from, and walked before.
  predicate ArrivalsMatter(row: AlbumRow) {
    row.mode == SyncPicked && !IsZero(ParseTime(row.lastSyncedAt))
  }

  // The arrivals a walk holds back for one.
  function HeldBack(t: Tables, album: AlbumId, seen: set<Key>): set<Key> {
    if album in t.albums && ArrivalsMatter(t.albums[album]) then seen - MembersOf(t, album).Keys else {}
  }

  // Who is up for review after a walk that reconciled: an item seen, if it was before and not as one
  // written off, or if it is new to an album picked from and walked before; anything else not
  // written off by this walk, as before.
  ghost predicate PutUpForReview(t: Tables, u: Tables, album: AlbumId, seen: set<Key>) {
    && album in t.albums
    && (forall k :: k in seen ==>
          && k in u.items
          && (u.items[k].needsReview <==>
                || (k in t.items && t.items[k].state != MissingUpstream && t.items[k].needsReview)
                || (t.albums[album].mode == SyncPicked && t.albums[album].lastSyncedAt.Some?
                    && t.albums[album].lastSyncedAt != Some(0) && (album, k) !in t.links)))
    && (forall k :: k in t.items && k !in seen ==> k in u.items)
    && (forall k :: k in t.items && k !in seen && u.items[k].missingSince == t.items[k].missingSince ==>
          u.items[k].needsReview == t.items[k].needsReview)
  }

  lemma WalkPutsUpForReview(t: Tables, u: Tables, album: AlbumId, seen: set<Key>, gone: set<Key>, at: Time)
    requires album in t.albums && WalkOutcome(t, u, album, seen, gone, at, HeldBack(t, album, seen))
    ensures PutUpForReview(t, u, album, seen)
  {
    assert forall k :: k in MembersOf(t, album) <==> (album, k) in t.links;
  }

  lemma ArrivedAreHeldBack(t: Tables, album: AlbumId, seen: set<Key>, members: map<Key, Time>, arrived: seq<Key>,
                           arrivalsMatter: bool)
    requires album in t.albums && members == MembersOf(t, album) && arrivalsMatter == ArrivalsMatter(t.albums[album])
    requires if arrivalsMatter then Elements(arrived) == seen - members.Keys else arrived == []
    ensures Elements(arrived) == HeldBack(t, album, seen) <= seen
    ensures arrived == [] ==> HeldBack(t, album, seen) == {}
  {
  }

  // ---- What each step keeps ----

  lemma RecordingLosesNothing(t: Tables, u: Tables, album: AlbumId, seen: set<Key>, held: set<Key>)
    requires Recording(t, u, album, seen, seen, held)
    ensures NothingLost(t, u)
  {
  }

  lemma WorkersBegin(t: Tables, u: Tables, album: AlbumId)
    requires OnlyWorkersWrote(t, u)
    ensures Recording(t, u, album, {}, {}, {}) && NothingLost(t, u)
    ensures MembersOf(u, album) == MembersOf(t, album)
  {
  }

  lemma WorkersKeepRecording(t: Tables, u: Tables, v: Tables, album: AlbumId, recorded: set<Key>, seen: set<Key>,
                             held: set<Key>)
    requires Recording(t, u, album, recorded, seen, held) && OnlyWorkersWrote(u, v)
    ensures Recording(t, v, album, recorded, seen, held)
  {
  }

  lemma UpsertKeepsRecording(t: Tables, u: Tables, item: Item, album: AlbumId, recorded: set<Key>, seen: set<Key>)
    requires Recording(t, u, album, recorded, seen, {})
    ensures Recording(t, Apply(u, Write.UpsertItem(item)), album, recorded + {item.key}, seen, {})
  {
  }

  lemma LinkKeepsRecording(t: Tables, u: Tables, key: Key, album: AlbumId, recorded: set<Key>, seen: set<Key>)
    requires Recording(t, u, album, recorded, seen, {})
    requires key in recorded && album in u.albums
    ensures Recording(t, Apply(u, Write.LinkItem(album, key)), album, recorded, seen + {key}, {})
  {
  }

  lemma FlagKeepsRecording(t: Tables, u: Tables, keys: seq<Key>, album: AlbumId, recorded: set<Key>, seen: set<Key>)
    requires Recording(t, u, album, recorded, seen, {}) && Elements(keys) <= recorded
    ensures Recording(t, Apply(u, Write.FlagForReview(keys)), album, recorded, seen, Elements(keys))
  {
  }

  lemma ReconcileConcludes(t: Tables, u: Tables, album: AlbumId, seen: set<Key>, departed: seq<Key>, at: Time,
                           held: set<Key>)
    requires Recording(t, u, album, seen, seen, held)
    requires Elements(departed) !! seen
    ensures WalkOutcome(t, Apply(u, Write.Reconcile(album, departed, at)), album, seen, Elements(departed), at, held)
    ensures Apply(u, Write.Reconcile(album, departed, at)).albums == t.albums
  {
    ReconcileMeaning(u, album, departed, at);
    forall k | k !in seen
      ensures WritesOff(u.items, u.links, album, k) <==> WritesOff(t.items, t.links, album, k)
    {
      assert forall link :: link in u.links && link.0 != album <==> link in t.links && link.0 != album;
      assert LinkedElsewhere(u.links, album, k) == LinkedElsewhere(t.links, album, k);
    }
  }

  lemma NothingSettled(t: Tables, u: Tables, album: AlbumId, at: Time)
    requires Recording(t, u, album, {}, {}, {})
    ensures WalkOutcome(t, u, album, {}, {}, at, {}) && u.albums == t.albums
  {
  }

  lemma WorkersKeepOutcome(t: Tables, u: Tables, v: Tables, album: AlbumId, seen: set<Key>, gone: set<Key>, at: Time,
                          held: set<Key>)
    requires WalkOutcome(t, u, album, seen, gone, at, held) && OnlyWorkersWrote(u, v)
    ensures WalkOutcome(t, v, album, seen, gone, at, held)
  {
  }

  lemma SyncKeepsOutcome(t: Tables, u: Tables, album: AlbumId, seen: set<Key>, gone: set<Key>, at: Time,
                          held: set<Key>)
    requires WalkOutcome(t, u, album, seen, gone, at, held)
    ensures WalkOutcome(t, Apply(u, Write.MarkAlbumSynced(album, at)), album, seen, gone, at, held)
    ensures WalkOutcome(t, Apply(u, Write.MarkLibraryWalkedInFull(at)), album, seen, gone, at, held)
  {
  }

  // ---- The walks ----

  class Lister {
    const store: Store
    // What the workers write before each of the lister's statements, and whether it goes through.
    var workers: seq<seq<Write>>
    var failing: seq<bool>

    constructor (store: Store, workers: seq<seq<Write>>, failing: seq<bool>)
      ensures this.store == store && this.workers == workers && this.failing == failing
    {
      this.store, this.workers, this.failing := store, workers, failing;
    }

    ghost predicate Valid()
      reads this
    {
      forall batch, w :: batch in workers && w in batch ==> IssuedByAWorker(w)
    }

    // No statement still to come fails.
    ghost predicate Steady()
      reads this
    {
      true !in failing
    }

    /** Lets the workers write what they have, then says whether the next statement succeeds. */
    method Interlude() returns (ok: bool)
      requires Valid()
      modifies this, store
      ensures Valid()
      ensures OnlyWorkersWrote(old(store.Contents()), store.Contents())
      ensures old(Steady()) ==> ok && Steady()
    {
      if workers != [] {
        var batch := workers[0];
        workers := workers[1..];
        assert forall w :: w in batch ==> IssuedByAWorker(w);
        for i := 0 to |batch|
          invariant Valid() && forall w :: w in batch ==> IssuedByAWorker(w)
          invariant OnlyWorkersWrote(old(store.Contents()), store.Contents()) && failing == old(failing)
        {
          WorkersNeverDecide(store.Contents(), batch[i]);
          store.Perform(batch[i]);
        }
      }
      ok := failing == [] || !failing[0];
      failing := if failing == [] then [] else failing[1..];
    }

    method RecordingInterlude(album: AlbumId, ghost t: Tables, ghost seen: set<Key>, ghost held: set<Key>)
      returns (ok: bool)
      requires Valid() && Recording(t, store.Contents(), album, seen, seen, held)
      modifies this, store
      ensures Valid() && Recording(t, store.Contents(), album, seen, seen, held)
      ensures NothingLost(t, store.Contents())
      ensures old(Steady()) ==> ok && Steady()
    {
      ghost var before := store.Contents();
      ok := Interlude();
      WorkersKeepRecording(t, before, store.Contents(), album, seen, seen, held);
    }

    method OutcomeInterlude(album: AlbumId, ghost t: Tables, ghost seen: set<Key>, ghost gone: set<Key>,
                            ghost at: Time, ghost held: set<Key>)
      returns (ok: bool)
      requires Valid() && WalkOutcome(t, store.Contents(), album, seen, gone, at, held)
      modifies this, store
      ensures Valid() && WalkOutcome(t, store.Contents(), album, seen, gone, at, held)
      ensures store.albums == old(store.albums)
      ensures old(Steady()) ==> ok && Steady()
    {
      ghost var before := store.Contents();
      ok := Interlude();
      WorkersKeepOutcome(t, before, store.Contents(), album, seen, gone, at, held);
    }

    // Records one item and links it to the album being walked.
    method RecordItem(album: AlbumId, item: Item, ghost t: Tables, ghost seen: set<Key>) returns (ok: bool)
      requires Valid()
      requires Recording(t, store.Contents(), album, seen, seen, {})
      modifies this, store
      ensures Valid()
      ensures ok ==> Recording(t, store.Contents(), album, seen + {item.key}, seen + {item.key}, {})
      ensures !ok ==> NothingLost(t, store.Contents())
      ensures old(Steady()) && album in t.albums ==> ok && Steady()
    {
      ok := RecordingInterlude(album, t, seen, {});
      if !ok { return; }
      UpsertKeepsRecording(t, store.Contents(), item, album, seen, seen);
      store.UpsertItem(item);

      ghost var before := store.Contents();
      ok := Interlude();
      WorkersKeepRecording(t, before, store.Contents(), album, seen + {item.key}, seen, {});
      if !ok { return; }
      if album in store.albums {
        LinkKeepsRecording(t, store.Contents(), item.key, album, seen + {item.key}, seen);
      }
      ok := store.LinkItemToAlbum(album, item.key);
    }

    // Reconciles an album against what the walk did not see, and answers whether that was written.
    method Settle(album: AlbumId, departed: seq<Key>, at: Time, ghost t: Tables, ghost seen: set<Key>,
                  ghost held: set<Key>)
      returns (ok: bool)
      requires Valid()
      requires Recording(t, store.Contents(), album, seen, seen, held)
      requires Elements(departed) !! seen
      modifies this, store
      ensures Valid()
      ensures !ok ==> NothingLost(t, store.Contents())
      ensures ok ==> WalkOutcome(t, store.Contents(), album, seen, Elements(departed), at, held)
                     && store.Contents().albums == t.albums
      ensures old(Steady()) ==> ok && Steady()
    {
      ok := RecordingInterlude(album, t, seen, held);
      if !ok { return; }
      ReconcileConcludes(t, store.Contents(), album, seen, departed, at, held);
      var _ := store.Reconcile(album, departed, at);
    }

    // Records the items of one page that no date bound leaves out, and answers how many those were
    // and which of them the album did not hold when the walk began.
    method RecordPage(album: AlbumId, items: seq<Item>, since: Time, members: map<Key, Time>,
                      ghost t: Tables, ghost seen: set<Key>)
      returns (ok: bool, recorded: nat, arrived: seq<Key>)
      requires Valid()
      requires Recording(t, store.Contents(), album, seen, seen, {})
      modifies this, store
      ensures Valid()
      ensures ok ==>
        && Recording(t, store.Contents(), album, seen + SeenIn(items, since), seen + SeenIn(items, since), {})
        && (recorded == 0 <==> SeenIn(items, since) == {})
        && Elements(arrived) == SeenIn(items, since) - members.Keys
      ensures !ok ==> NothingLost(t, store.Contents())
      ensures old(Steady()) && album in t.albums ==> ok && Steady()
    {
      hide Recording, NothingLost, SeenIn, Elements;
      ok, recorded, arrived := true, 0, [];
      NothingSeenYet(items, since);
      assert seen + SeenIn(items[..0], since) == seen;
      for i := 0 to |items|
        invariant Valid()
        invariant recorded == 0 <==> SeenIn(items[..i], since) == {}
        invariant Elements(arrived) == SeenIn(items[..i], since) - members.Keys
        invariant old(Steady()) && album in t.albums ==> Steady()
        invariant var now := seen + SeenIn(items[..i], since); Recording(t, store.Contents(), album, now, now, {})
      {
        SeenInNext(items, since, i);
        if OlderThan(items[i], since) { continue; }
        var key := items[i].key;
        assert seen + SeenIn(items[..i], since) + {key} == seen + SeenIn(items[..i + 1], since);
        ok := RecordItem(album, items[i], t, seen + SeenIn(items[..i], since));
        if !ok { return; }
        if key !in members {
          ElementsOfNext(arrived, key);
          arrived := arrived + [key];
        }
        recorded := recorded + 1;
      }
      assert items[..|items|] == items;
    }

    // Pages an album to its end, recording everything on the way.
    method WalkPages(album: AlbumId, source: seq<Answer>, members: map<Key, Time>, arrivalsMatter: bool,
                     ghost t: Tables)
      returns (listed: nat, failure: Option<Failure>, seen: set<Key>, arrived: seq<Key>, read: nat)
      requires Valid()
      requires Recording(t, store.Contents(), album, {}, {}, {})
      modifies this, store
      ensures Valid()
      ensures failure.None? ==>
        && Recording(t, store.Contents(), album, seen, seen, {})
        && 0 < read <= |source| && WholeAlbum(source[..read]) && seen == KeysServed(source[..read])
        && (listed == 0 <==> seen == {})
        && (arrivalsMatter ==> Elements(arrived) == seen - members.Keys)
        && (!arrivalsMatter ==> arrived == [])
      ensures failure.Some? ==> NothingLost(t, store.Contents())
      ensures failure.None? ==> PagingFailure(source).None? && seen == PagedKeys(source)
      ensures failure.Some? ==> failure == Some(StoreFailed) || failure == PagingFailure(source)
      ensures old(Steady()) && album in t.albums ==> failure == PagingFailure(source) && Steady()
    {
      hide Recording, NothingLost, WholeAlbum, KeysServed, KeysOf, SeenIn, Elements, PagingFailure, PagedKeys;
      assert source[0..] == source;
      listed, failure, seen, arrived, read := 0, None, {}, [], 0;
      NothingServedYet(source);
      while true
        invariant Valid() && failure.None?
        invariant 0 <= read <= |source|
        invariant forall i :: 0 <= i < read ==> source[i].Served? && source[i].page.more
        invariant seen == KeysServed(source[..read])
        invariant PagingFailure(source) == PagingFailure(source[read..])
        invariant PagedKeys(source) == seen + PagedKeys(source[read..])
        invariant old(Steady()) && album in t.albums ==> Steady()
        invariant listed == 0 <==> seen == {}
        invariant arrivalsMatter ==> Elements(arrived) == seen - members.Keys
        invariant !arrivalsMatter ==> arrived == []
        invariant Recording(t, store.Contents(), album, seen, seen, {})
        decreases |source| - read
      {
        RecordingLosesNothing(t, store.Contents(), album, seen, {});
        PagingGoesOn(source, read);
        if read == |source| {
          failure := Some(Unreachable);
          return;
        }
        if source[read].Refused? {
          failure := Some(source[read].cause);
          return;
        }
        var page := source[read].page;
        var ok, recorded, newcomers := RecordPage(album, page.items, 0, members, t, seen);
        if !ok {
          failure := Some(StoreFailed);
          return;
        }
        KeysServedNext(source, read);
        ElementsOfSum(arrived, newcomers);
        listed, seen, read := listed + recorded, seen + KeysOf(page.items), read + 1;
        if arrivalsMatter {
          arrived := arrived + newcomers;
        }
        if !page.more {
          LastPage(source, read);
          return;
        }
      }
    }

    // A walk that listed nothing has to agree with the count Google gave for the album.
    method CheckAgainstTheCount(album: AlbumId, ghost t: Tables, ghost seen: set<Key>) returns (failure: Option<Failure>)
      requires Valid() && album in t.albums && Recording(t, store.Contents(), album, seen, seen, {})
      modifies this, store
      ensures Valid() && Recording(t, store.Contents(), album, seen, seen, {}) && NothingLost(t, store.Contents())
      ensures failure.None? ==> t.albums[album].itemCount == 0
      ensures failure.Some? ==>
        failure == Some(StoreFailed) || (failure == Some(CountContradicted) && t.albums[album].itemCount != 0)
      ensures old(Steady()) ==>
        Steady() && failure == if t.albums[album].itemCount != 0 then Some(CountContradicted) else None
    {
      var ok := RecordingInterlude(album, t, seen, {});
      if !ok {
        return Some(StoreFailed);
      }
      failure := if store.albums[album].itemCount != 0 then Some(CountContradicted) else None;
    }

    // Puts arrivals up for review.
    method FlagArrivals(album: AlbumId, arrived: seq<Key>, ghost t: Tables, ghost seen: set<Key>) returns (ok: bool)
      requires Valid() && Recording(t, store.Contents(), album, seen, seen, {}) && Elements(arrived) <= seen
      modifies this, store
      ensures Valid()
      ensures ok ==> Recording(t, store.Contents(), album, seen, seen, Elements(arrived))
      ensures !ok ==> NothingLost(t, store.Contents())
      ensures old(Steady()) ==> ok && Steady()
    {
      hide Recording, NothingLost;
      ok := RecordingInterlude(album, t, seen, {});
      if !ok { return; }
      FlagKeepsRecording(t, store.Contents(), arrived, album, seen, seen);
      store.SetReviewFlag(arrived, true);
    }

    /**
     Pages one album to its end and reconciles it. A walk that fails before reconciling has lost
     nothing; the only failure after it is the statement that dates the walk. Where no statement
     fails, it fails for what Google answered and for nothing else.
     */
    method ListAlbum(album: AlbumId, source: seq<Answer>, listedAt: Time)
      returns (listed: nat, failure: Option<Failure>, ghost reconciled: bool, ghost seen: set<Key>, ghost read: nat)
      requires Valid()
      modifies this, store
      ensures Valid()
      ensures !reconciled ==> failure.Some? && NothingLost(old(store.Contents()), store.Contents())
      ensures reconciled ==>
        var t := old(store.Contents());
        && album in t.albums
        && WalkOutcome(t, store.Contents(), album, seen, DeparturesOf(MembersOf(t, album), seen, 0), listedAt,
                       HeldBack(t, album, seen))
        && PutUpForReview(t, store.Contents(), album, seen)
        && (failure.None? || failure == Some(StoreFailed))
        && store.albums == (if failure.None? then Synced(t.albums, album, listedAt) else t.albums)
        && 0 < read <= |source| && WholeAlbum(source[..read]) && seen == KeysServed(source[..read])
        && (seen == {} ==> t.albums[album].itemCount == 0)
      ensures failure.Some? && failure != Some(StoreFailed) ==>
        failure == AlbumFailure(old(store.albums), album, source)
      ensures old(Steady()) ==>
        && Steady() && failure == AlbumFailure(old(store.albums), album, source)
        && (reconciled <==> failure.None?)
    {
      hide Recording, NothingLost, WalkOutcome, OnlyWorkersWrote, WholeAlbum, KeysServed, Elements, DeparturesOf, Synced,
           PagingFailure, PagedKeys, HeldBack, ArrivalsMatter, PutUpForReview;
      ghost var t := store.Contents();
      listed, failure, reconciled, seen, read := 0, Some(StoreFailed), false, {}, 0;

      var ok := Interlude();
      WorkersBegin(t, store.Contents(), album);
      if !ok { return; }
      var members := store.AlbumMembers(album);
      ok := RecordingInterlude(album, t, {}, {});
      RecordingLosesNothing(t, store.Contents(), album, {}, {});
      if !ok || album !in store.albums { return; }
      var arrivalsMatter := ArrivalsMatter(store.albums[album]);

      var count, stopped, walked, arrived, pages := WalkPages(album, source, members, arrivalsMatter, t);
      listed, failure, read := count, stopped, pages;
      if failure.Some? { return; }
      failure := Some(StoreFailed);

      if listed == 0 {
        failure := CheckAgainstTheCount(album, t, walked);
        if failure.Some? { return; }
        failure := Some(StoreFailed);
      }
      ghost var held := HeldBack(t, album, walked);
      ArrivedAreHeldBack(t, album, walked, members, arrived, arrivalsMatter);
      if arrived != [] {
        ok := FlagArrivals(album, arrived, t, walked);
        if !ok { return; }
      }

      var departed := Departures(members, walked, 0);
      DepartedUnseen(members, walked, 0);
      ok := Settle(album, departed, listedAt, t, walked, held);
      if !ok { return; }
      reconciled, seen := true, walked;

      ok := MarkSynced(album, listedAt, t, seen, Elements(departed), held);
      WalkPutsUpForReview(t, store.Contents(), album, walked, Elements(departed), listedAt);
      if !ok { return; }
      failure := None;
    }

    // Pages the timeline until a page ends the walk, recording what the date bound lets in.
    method WalkTimeline(library: AlbumRow, newOnly: bool, source: seq<Answer>, members: map<Key, Time>,
                        ghost t: Tables)
      returns (listed: nat, failure: Option<Failure>, seen: set<Key>, ended: Stop, ghost pages: seq<Page>)
      requires Valid()
      requires Recording(t, store.Contents(), Library, {}, {}, {})
      modifies this, store
      ensures Valid()
      ensures failure.None? ==>
        var since := ParseTime(library.since);
        && Recording(t, store.Contents(), Library, seen, seen, {})
        && Completes(pages, since, newOnly, members, ended)
        && |pages| <= |source| && PagesIn(source[..|pages|], pages)
        && seen == SeenIn(Flatten(pages), since)
        && (listed == 0 <==> seen == {})
      ensures failure.Some? ==> NothingLost(t, store.Contents())
      ensures failure.None? ==> TimelineFailure(source, ParseTime(library.since), newOnly, members).None?
      ensures failure.Some? ==>
        failure == Some(StoreFailed) || failure == TimelineFailure(source, ParseTime(library.since), newOnly, members)
      ensures old(Steady()) && Library in t.albums ==>
        Steady() && failure == TimelineFailure(source, ParseTime(library.since), newOnly, members)
    {
      hide Recording, NothingLost, SeenIn, PagesIn, Flatten, Completes, TimelineFailure;
      assert source[0..] == source;
      var since := ParseTime(library.since);
      listed, failure, seen, ended, pages := 0, None, {}, EndOfTimeline, [];
      var read := 0;
      NothingReadYet(source, since);
      while true
        invariant Valid() && failure.None?
        invariant 0 <= read <= |source| && |pages| == read
        invariant PagesIn(source[..read], pages)
        invariant forall i :: 0 <= i < read ==> StopAt(pages[i], since, newOnly, members) == None
        invariant seen == SeenIn(Flatten(pages), since)
        invariant TimelineFailure(source, since, newOnly, members)
               == TimelineFailure(source[read..], since, newOnly, members)
        invariant old(Steady()) && Library in t.albums ==> Steady()
        invariant listed == 0 <==> seen == {}
        invariant Recording(t, store.Contents(), Library, seen, seen, {})
        decreases |source| - read
      {
        RecordingLosesNothing(t, store.Contents(), Library, seen, {});
        TimelineGoesOn(source, read, since, newOnly, members);
        if read == |source| {
          failure := Some(Unreachable);
          return;
        }
        if source[read].Refused? {
          failure := Some(source[read].cause);
          return;
        }
        var page := source[read].page;
        var ok, recorded, _ := RecordPage(Library, page.items, since, members, t, seen);
        if !ok {
          failure := Some(StoreFailed);
          return;
        }
        PageRead(source, pages, page, since);
        listed, seen, read := listed + recorded, seen + SeenIn(page.items, since), read + 1;
        pages := pages + [page];

        if !page.more {
          ended := EndOfTimeline;
          WalkEnds(pages, since, newOnly, members, ended);
          return;
        }
        if WalkedPastTheBound(page.items, since) {
          ended := DateBound;
          WalkEnds(pages, since, newOnly, members, ended);
          return;
        }
        var reached, held := FindKnownGround(page.items, members);
        if newOnly && held {
          ended := KnownGround(reached);
          WalkEnds(pages, since, newOnly, members, ended);
          return;
        }
      }
    }

    // Dates a walk, of an album or of the library.
    method MarkSynced(album: AlbumId, at: Time, ghost t: Tables, ghost seen: set<Key>, ghost gone: set<Key>,
                      ghost held: set<Key>)
      returns (ok: bool)
      requires Valid() && WalkOutcome(t, store.Contents(), album, seen, gone, at, held)
      modifies this, store
      ensures Valid() && WalkOutcome(t, store.Contents(), album, seen, gone, at, held)
      ensures store.albums == if ok then Synced(old(store.albums), album, at) else old(store.albums)
      ensures old(Steady()) ==> ok && Steady()
    {
      hide WalkOutcome, OnlyWorkersWrote;
      ok := OutcomeInterlude(album, t, seen, gone, at, held);
      if !ok { return; }
      SyncKeepsOutcome(t, store.Contents(), album, seen, gone, at, held);
      store.Perform(Write.MarkAlbumSynced(album, at));
    }

    // Dates a library walk: as a whole one unless it stopped at known ground, and as a walk.
    method DateTheWalk(whole: bool, at: Time, ghost t: Tables, ghost seen: set<Key>, ghost gone: set<Key>,
                      ghost held: set<Key>)
      returns (ok: bool)
      requires Valid() && WalkOutcome(t, store.Contents(), Library, seen, gone, at, held)
      modifies this, store
      ensures Valid() && WalkOutcome(t, store.Contents(), Library, seen, gone, at, held)
      ensures ok ==>
        store.albums == Synced(if whole then WalkedInFull(old(store.albums), at) else old(store.albums), Library, at)
      ensures !ok ==> store.albums == old(store.albums) || store.albums == WalkedInFull(old(store.albums), at)
      ensures old(Steady()) ==> ok && Steady()
    {
      hide WalkOutcome, OnlyWorkersWrote;
      if whole {
        ok := OutcomeInterlude(Library, t, seen, gone, at, held);
        if !ok { return; }
        SyncKeepsOutcome(t, store.Contents(), Library, seen, gone, at, held);
        store.Perform(Write.MarkLibraryWalkedInFull(at));
      }
      ok := MarkSynced(Library, at, t, seen, gone, held);
    }

    /**
     Walks the library timeline as far as its rules ask for, and settles the members above the floor
     that leaves. An empty walk settles none. Where no statement fails, it fails for what Google
     answered and for nothing else.
     */
    method ListLibrary(library: AlbumRow, source: seq<Answer>, listedAt: Time)
      returns (listed: nat, failure: Option<Failure>, ghost reconciled: bool, ghost seen: set<Key>,
               ghost stop: Stop, ghost pages: seq<Page>)
      requires Valid()
      modifies this, store
      ensures Valid()
      ensures !reconciled ==> failure.Some? && NothingLost(old(store.Contents()), store.Contents())
      ensures reconciled ==>
        var t := old(store.Contents());
        var since, members := ParseTime(library.since), MembersOf(t, Library);
        && Completes(pages, since, WalksNewOnly(library, listedAt), members, stop)
        && |pages| <= |source| && PagesIn(source[..|pages|], pages)
        && seen == SeenIn(Flatten(pages), since)
        && WalkOutcome(t, store.Contents(), Library, seen,
                       if seen == {} then {} else DeparturesOf(members, seen, VouchedFrom(since, stop)), listedAt, {})
      ensures reconciled && failure.None? ==>
        store.albums == Synced(if stop.KnownGround? then old(store.albums)
                               else WalkedInFull(old(store.albums), listedAt), Library, listedAt)
      ensures reconciled && failure.Some? ==>
        && failure == Some(StoreFailed)
        && (store.albums == old(store.albums) || store.albums == WalkedInFull(old(store.albums), listedAt))
      ensures failure.Some? && failure != Some(StoreFailed) ==>
        failure == TimelineFailure(source, ParseTime(library.since), WalksNewOnly(library, listedAt),
                                   MembersOf(old(store.Contents()), Library))
      ensures old(Steady()) && Library in old(store.albums) ==>
        && Steady()
        && failure == TimelineFailure(source, ParseTime(library.since), WalksNewOnly(library, listedAt),
                                      MembersOf(old(store.Contents()), Library))
        && (reconciled <==> failure.None?)
    {
      hide Recording, NothingLost, WalkOutcome, OnlyWorkersWrote, SeenIn, PagesIn, Flatten, Completes, Elements,
           DeparturesOf;
      ghost var t := store.Contents();
      listed, failure, reconciled, seen, stop, pages := 0, Some(StoreFailed), false, {}, EndOfTimeline, [];

      var ok := Interlude();
      WorkersBegin(t, store.Contents(), Library);
      if !ok { return; }
      var members := store.AlbumMembers(Library);

      var newOnly, since := WalksNewOnly(library, listedAt), ParseTime(library.since);
      var count, failed, walked, ended, read := WalkTimeline(library, newOnly, source, members, t);
      listed, failure, pages := count, failed, read;
      if failure.Some? { return; }
      failure := Some(StoreFailed);

      ghost var gone := {};
      if listed != 0 {
        var departed := Departures(members, walked, VouchedFrom(since, ended));
        DepartedUnseen(members, walked, VouchedFrom(since, ended));
        ok := Settle(Library, departed, listedAt, t, walked, {});
        if !ok { return; }
        gone := Elements(departed);
      } else {
        NothingSettled(t, store.Contents(), Library, listedAt);
      }
      reconciled, seen, stop := true, walked, ended;

      ok := DateTheWalk(!ended.KnownGround?, listedAt, t, seen, gone, {});
      if !ok { return; }
      failure := None;
    }
  }

  lemma DepartedUnseen(members: map<Key, Time>, seen: set<Key>, vouchedFrom: Time)
    ensures DeparturesOf(members, seen, vouchedFrom) !! seen
  {
  }

  function Synced(albums: map<AlbumId, AlbumRow>, album: AlbumId, at: Time): map<AlbumId, AlbumRow> {
    if album in albums then albums[album := albums[album].(lastSyncedAt := Some(at))] else albums
  }

  function WalkedInFull(albums: map<AlbumId, AlbumRow>, at: Time): map<AlbumId, AlbumRow> {
    if Library in albums then albums[Library := albums[Library].(walkedInFullAt := Some(at))] else albums
  }

  // Why paging an album fails, if it does: a page refused, or no answer at all.
  function PagingFailure(source: seq<Answer>): Option<Failure> {
    if source == [] then Some(Unreachable)
    else
      match source[0]
      case Refused(cause) => Some(cause)
      case Served(page) => if page.more then PagingFailure(source[1..]) else None
  }

  // What paging an album goes past, up to the page that names no next.
  function PagedKeys(source: seq<Answer>): set<Key> {
    if source == [] || source[0].Refused? then {}
    else KeysOf(source[0].page.items) + if source[0].page.more then PagedKeys(source[1..]) else {}
  }

  lemma PagingGoesOn(source: seq<Answer>, read: nat)
    requires read <= |source|
    ensures read == |source| ==> PagingFailure(source[read..]) == Some(Unreachable)
    ensures read < |source| && source[read].Refused? ==> PagingFailure(source[read..]) == Some(source[read].cause)
    ensures read < |source| && source[read].Served? ==>
      && PagingFailure(source[read..]) ==
           (if source[read].page.more then PagingFailure(source[read + 1..]) else None)
      && PagedKeys(source[read..]) ==
           KeysOf(source[read].page.items) + (if source[read].page.more then PagedKeys(source[read + 1..]) else {})
  {
    if read < |source| {
      assert source[read..][1..] == source[read + 1..];
    }
  }

  // Why a walk of an album fails where every statement goes through: an album that is not there, a
  // page refused, or a walk that listed nothing against a count that says otherwise.
  function AlbumFailure(albums: map<AlbumId, AlbumRow>, album: AlbumId, source: seq<Answer>): Option<Failure> {
    if album !in albums then Some(StoreFailed)
    else if PagingFailure(source).Some? then PagingFailure(source)
    else if PagedKeys(source) == {} && albums[album].itemCount != 0 then Some(CountContradicted)
    else None
  }

  // Why paging the timeline fails before anything ends the walk.
  function TimelineFailure(source: seq<Answer>, since: Time, newOnly: bool, members: map<Key, Time>): Option<Failure> {
    if source == [] then Some(Unreachable)
    else
      match source[0]
      case Refused(cause) => Some(cause)
      case Served(page) =>
        if StopAt(page, since, newOnly, members).Some? then None
        else TimelineFailure(source[1..], since, newOnly, members)
  }

  lemma TimelineGoesOn(source: seq<Answer>, read: nat, since: Time, newOnly: bool, members: map<Key, Time>)
    requires read <= |source|
    ensures read == |source| ==> TimelineFailure(source[read..], since, newOnly, members) == Some(Unreachable)
    ensures read < |source| && source[read].Refused? ==>
      TimelineFailure(source[read..], since, newOnly, members) == Some(source[read].cause)
    ensures read < |source| && source[read].Served? ==>
      TimelineFailure(source[read..], since, newOnly, members) ==
        if StopAt(source[read].page, since, newOnly, members).Some? then None
        else TimelineFailure(source[read + 1..], since, newOnly, members)
  {
    if read < |source| {
      assert source[read..][1..] == source[read + 1..];
    }
  }

  // The pages of an album from first to last: every one but the last names a next.
  predicate WholeAlbum(source: seq<Answer>) {
    && source != []
    && (forall i :: 0 <= i < |source| ==> source[i].Served? && (source[i].page.more <==> i < |source| - 1))
  }

  lemma LastPage(source: seq<Answer>, read: nat)
    requires 0 < read <= |source|
    requires forall i :: 0 <= i < read - 1 ==> source[i].Served? && source[i].page.more
    requires source[read - 1].Served? && !source[read - 1].page.more
    ensures WholeAlbum(source[..read])
  {
  }

  function KeysServed(source: seq<Answer>): set<Key> {
    set answer, item | answer in source && answer.Served? && item in answer.page.items :: item.key
  }

  lemma SeenInNext(items: seq<Item>, since: Time, i: nat)
    requires i < |items|
    ensures SeenIn(items[..i + 1], since)
         == if OlderThan(items[i], since) then SeenIn(items[..i], since)
            else SeenIn(items[..i], since) + {items[i].key}
  {
    assert items[..i + 1] == items[..i] + [items[i]];
  }

  lemma NothingSeenYet(items: seq<Item>, since: Time)
    ensures SeenIn(items[..0], since) == {} && Elements<Key>([]) == {}
  {
  }

  lemma ElementsOfNext(keys: seq<Key>, key: Key)
    ensures Elements(keys + [key]) == Elements(keys) + {key}
  {
  }

  lemma SeenInSum(a: seq<Item>, b: seq<Item>, since: Time)
    ensures SeenIn(a + b, since) == SeenIn(a, since) + SeenIn(b, since)
  {
    assert forall item :: item in a + b <==> item in a || item in b;
  }

  lemma ElementsOfSum(a: seq<Key>, b: seq<Key>)
    ensures Elements(a + b) == Elements(a) + Elements(b)
  {
  }

  // These pages are what the answers served.
  predicate PagesIn(source: seq<Answer>, pages: seq<Page>) {
    && |source| == |pages|
    && (forall i :: 0 <= i < |pages| ==> source[i] == Served(pages[i]))
  }

  lemma NothingReadYet(source: seq<Answer>, since: Time)
    ensures PagesIn(source[..0], []) && SeenIn(Flatten([]), since) == {}
  {
  }

  lemma PageRead(source: seq<Answer>, pages: seq<Page>, page: Page, since: Time)
    requires |pages| < |source| && PagesIn(source[..|pages|], pages) && source[|pages|] == Served(page)
    ensures PagesIn(source[..|pages| + 1], pages + [page])
    ensures SeenIn(Flatten(pages + [page]), since) == SeenIn(Flatten(pages), since) + SeenIn(page.items, since)
  {
    PagesNext(source, pages, page);
    hide SeenIn, Flatten, PagesIn;
    FlattenNext(pages, page);
    SeenInSum(Flatten(pages), page.items, since);
  }

  lemma PagesNext(source: seq<Answer>, pages: seq<Page>, page: Page)
    requires |pages| < |source| && PagesIn(source[..|pages|], pages) && source[|pages|] == Served(page)
    ensures PagesIn(source[..|pages| + 1], pages + [page])
  {
    forall i | 0 <= i < |pages|
      ensures source[i] == Served(pages[i])
    {
      assert source[..|pages|][i] == Served(pages[i]);
    }
  }

  lemma FlattenNext(pages: seq<Page>, page: Page)
    ensures Flatten(pages + [page]) == Flatten(pages) + page.items
  {
    assert (pages + [page])[..|pages|] == pages;
  }

  lemma WalkEnds(pages: seq<Page>, since: Time, newOnly: bool, members: map<Key, Time>, stop: Stop)
    requires pages != [] && StopAt(pages[|pages| - 1], since, newOnly, members) == Some(stop)
    requires forall i :: 0 <= i < |pages| - 1 ==> StopAt(pages[i], since, newOnly, members) == None
    ensures Completes(pages, since, newOnly, members, stop)
  {
  }

  lemma NothingServedYet(source: seq<Answer>)
    ensures KeysServed(source[..0]) == {} && Elements<Key>([]) == {}
  {
  }

  lemma KeysServedNext(source: seq<Answer>, at: nat)
    requires at < |source| && source[at].Served?
    ensures KeysServed(source[..at + 1]) == KeysServed(source[..at]) + KeysOf(source[at].page.items)
    ensures KeysOf(source[at].page.items) == SeenIn(source[at].page.items, 0)
  {
    var items := source[at].page.items;
    assert forall item :: item in items ==> !OlderThan(item, 0);
    assert source[..at + 1] == source[..at] + [source[at]];
  }
}
