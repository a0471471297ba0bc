/**
 A run's walk over the followed albums, which passes by those Google does not list or that will not
 decode, and judges at the end whether anything was read at all. The walks are
 those of Listing; internal/syncer/listing.go:85-230.
 */
module AlbumWalks {
  import opened Basics
  import opened StoreState
  import opened Lifecycle
  import opened StoreClass
  import opened LibraryWalk
  import opened Listing

  datatype Followed = Followed(album: AlbumId, lastSeenAt: Time)

  datatype AlbumWalk = AlbumWalk(walked: nat, skipped: seq<AlbumId>, unlisted: seq<AlbumId>, drifted: bool)

  datatype Verdict = Fine | NothingDecoded | NothingListed | Stopped(cause: Failure)

  // Nothing decoded, or the listing named no albums at all.
  function VerdictOn(walk: AlbumWalk, listingWasEmpty: bool): Verdict {
    if walk.drifted && walk.walked == 0 then NothingDecoded
    else if listingWasEmpty && walk.unlisted != [] then NothingListed
    else Fine
  }

  /**
   What walking these albums to their reconciliation, and perhaps others not so far, can have done:
   an album not reconciled keeps every link it had and its row, and an item newly written off is
   still in an album that was reconciled.
   */
  ghost predicate OnlyReconciled(t: Tables, u: Tables, done: set<AlbumId>) {
    && t.items.Keys <= u.items.Keys
    && (forall link :: link in t.links && link.0 !in done ==> link in u.links)
    && (forall k :: IsMissing(u.items, k) && !IsMissing(t.items, k) ==> InOneOf(u.links, done, k))
    && u.albums.Keys == t.albums.Keys
    && (forall a :: a in t.albums && a !in done ==> u.albums[a] == t.albums[a])
  }

  ghost predicate InOneOf(links: set<(AlbumId, Key)>, albums: set<AlbumId>, k: Key) {
    exists link :: link in links && link.1 == k && link.0 in albums
  }

  lemma FailedWalkKeeps(t: Tables, u: Tables, v: Tables, done: set<AlbumId>)
    requires OnlyReconciled(t, u, done) && NothingLost(u, v)
    ensures OnlyReconciled(t, v, done)
  {
    forall k | IsMissing(v.items, k) && !IsMissing(t.items, k)
      ensures InOneOf(v.links, done, k)
    {
      assert InOneOf(u.links, done, k);
      var link :| link in u.links && link.1 == k && link.0 in done;
      assert link in v.links;
    }
  }

  lemma CompletedWalkKeeps(t: Tables, u: Tables, v: Tables, done: set<AlbumId>, album: AlbumId, seen: set<Key>, at: Time,
                           held: set<Key>)
    requires OnlyReconciled(t, u, done) && album !in done && album in u.albums
    requires WalkOutcome(u, v, album, seen, DeparturesOf(MembersOf(u, album), seen, 0), at, held)
    requires v.albums == u.albums || v.albums == Synced(u.albums, album, at)
    ensures OnlyReconciled(t, v, done + {album})
  {
    forall link | link in t.links && link.0 !in done + {album}
      ensures link in v.links
    {
      assert link in u.links;
    }
    forall k | IsMissing(v.items, k) && !IsMissing(t.items, k)
      ensures InOneOf(v.links, done + {album}, k)
    {
      if IsMissing(u.items, k) {
        assert InOneOf(u.links, done, k);
        var link :| link in u.links && link.1 == k && link.0 in done;
        assert link in v.links;
      } else {
        assert (album, k) in u.links;
        assert (album, k) in v.links;
      }
    }
  }

  // The albums the walk was to visit, none twice.
  predicate EachOnce(followed: seq<Followed>) {
    forall i, j :: 0 <= i < j < |followed| ==> followed[i].album != followed[j].album
  }

  // How walking one followed album goes where every statement goes through; an album Google did not
  // list is not walked.
  function Faring(albums: map<AlbumId, AlbumRow>, f: Followed, refreshedAt: Time, pages: AlbumId -> seq<Answer>):
    Option<Failure>
  {
    if f.lastSeenAt < refreshedAt then None else AlbumFailure(albums, f.album, pages(f.album))
  }

  predicate Passes(albums: map<AlbumId, AlbumRow>, f: Followed, refreshedAt: Time, pages: AlbumId -> seq<Answer>) {
    Faring(albums, f, refreshedAt, pages).None? || Faring(albums, f, refreshedAt, pages) == Some(Drift)
  }

  predicate Stops(albums: map<AlbumId, AlbumRow>, f: Followed, refreshedAt: Time, pages: AlbumId -> seq<Answer>,
                  cause: Failure) {
    cause != Drift && Faring(albums, f, refreshedAt, pages) == Some(cause)
  }

  // What the walk did of the albums it came to, where every statement went through.
  ghost predicate FaredSo(albums: map<AlbumId, AlbumRow>, followed: seq<Followed>, refreshedAt: Time,
                          pages: AlbumId -> seq<Answer>, walk: AlbumWalk, done: set<AlbumId>) {
    && (forall f :: f in followed ==> Passes(albums, f, refreshedAt, pages))
    && (forall f :: f in followed && f.lastSeenAt >= refreshedAt ==>
          && (f.album in done <==> Faring(albums, f, refreshedAt, pages).None?)
          && (f.album in walk.skipped <==> Faring(albums, f, refreshedAt, pages) == Some(Drift)))
    && (forall a :: a in done || a in walk.skipped ==> exists f :: f in followed && f.album == a)
  }

  lemma FaresAsAtFirst(t: Tables, u: Tables, done: set<AlbumId>, f: Followed, refreshedAt: Time,
                       pages: AlbumId -> seq<Answer>)
    requires OnlyReconciled(t, u, done) && f.album !in done && f.lastSeenAt >= refreshedAt
    ensures AlbumFailure(u.albums, f.album, pages(f.album)) == Faring(t.albums, f, refreshedAt, pages)
  {
  }

  lemma FaredNext(albums: map<AlbumId, AlbumRow>, front: seq<Followed>, f: Followed, refreshedAt: Time,
                  pages: AlbumId -> seq<Answer>, walk: AlbumWalk, done: set<AlbumId>, walk': AlbumWalk,
                  done': set<AlbumId>)
    requires FaredSo(albums, front, refreshedAt, pages, walk, done)
    requires forall g :: g in front ==> g.album != f.album
    requires if f.lastSeenAt < refreshedAt then walk'.skipped == walk.skipped && done' == done
             else if Faring(albums, f, refreshedAt, pages).None? then
               walk'.skipped == walk.skipped && done' == done + {f.album}
             else
               && Faring(albums, f, refreshedAt, pages) == Some(Drift)
               && walk'.skipped == walk.skipped + [f.album] && done' == done
    ensures FaredSo(albums, front + [f], refreshedAt, pages, walk', done')
  {
    forall a | a in done' || a in walk'.skipped
      ensures exists g :: g in front + [f] && g.album == a
    {
      if a == f.album {
        assert f in front + [f];
      } else {
        var g :| g in front && g.album == a;
        assert g in front + [f];
      }
    }
  }

  // The albums read are among those Google still lists.
  predicate Among(front: seq<Followed>, refreshedAt: Time, done: set<AlbumId>) {
    forall a :: a in done ==> exists f :: f in front && f.album == a && f.lastSeenAt >= refreshedAt
  }

  // The walk accounts for each album it came to, once.
  predicate Tallied(front: seq<Followed>, refreshedAt: Time, walk: AlbumWalk, done: set<AlbumId>) {
    && Among(front, refreshedAt, done)
    && walk.walked + |walk.skipped| + |walk.unlisted| == |front| && walk.walked == |done|
    && (forall f :: f in front && f.lastSeenAt < refreshedAt ==> f.album in walk.unlisted)
    && (walk.drifted <==> walk.skipped != [])
  }

  lemma NotYetDone(followed: seq<Followed>, i: nat, refreshedAt: Time, walk: AlbumWalk, done: set<AlbumId>)
    requires i < |followed| && EachOnce(followed) && Tallied(followed[..i], refreshedAt, walk, done)
    ensures followed[i].album !in done
    ensures forall f :: f in followed[..i] ==> f.album != followed[i].album
  {
  }

  lemma AmongFollowed(followed: seq<Followed>, i: nat, refreshedAt: Time, walk: AlbumWalk, done: set<AlbumId>,
                      done': set<AlbumId>)
    requires i < |followed| && Tallied(followed[..i], refreshedAt, walk, done) && followed[i].lastSeenAt >= refreshedAt
    requires done' == done || done' == done + {followed[i].album}
    ensures done' <= set f | f in followed && f.lastSeenAt >= refreshedAt :: f.album
  {
    forall a | a in done'
      ensures exists f :: f in followed && f.lastSeenAt >= refreshedAt && f.album == a
    {
      if a == followed[i].album {
        assert followed[i] in followed;
      } else {
        var f :| f in followed[..i] && f.album == a && f.lastSeenAt >= refreshedAt;
        assert f in followed;
      }
    }
  }

  lemma TalliedMeans(followed: seq<Followed>, refreshedAt: Time, walk: AlbumWalk, done: set<AlbumId>)
    requires Tallied(followed, refreshedAt, walk, done)
    ensures done <= set f | f in followed && f.lastSeenAt >= refreshedAt :: f.album
    ensures walk.walked + |walk.skipped| + |walk.unlisted| == |followed| && walk.walked == |done|
    ensures forall f :: f in followed && f.lastSeenAt < refreshedAt ==> f.album in walk.unlisted
    ensures walk.drifted <==> walk.skipped != []
  {
  }

  lemma TalliedNext(front: seq<Followed>, f: Followed, refreshedAt: Time, walk: AlbumWalk, done: set<AlbumId>,
                    walk': AlbumWalk, done': set<AlbumId>)
    requires Tallied(front, refreshedAt, walk, done) && f.album !in done
    requires if f.lastSeenAt < refreshedAt then walk' == walk.(unlisted := walk.unlisted + [f.album]) && done' == done
             else
               || (walk' == walk.(walked := walk.walked + 1) && done' == done + {f.album})
               || (walk' == walk.(skipped := walk.skipped + [f.album], drifted := true) && done' == done)
    ensures Tallied(front + [f], refreshedAt, walk', done')
  {
    forall a | a in done'
      ensures exists g :: g in front + [f] && g.album == a && g.lastSeenAt >= refreshedAt
    {
      if a in done {
        var g :| g in front && g.album == a && g.lastSeenAt >= refreshedAt;
        assert g in front + [f];
      } else {
        assert f in front + [f];
      }
    }
  }

  /**
   Lists every followed album. It is stepped over, not walked, if Google has stopped listing it or
   if it will not decode; any other failure stops the walk. Where no statement fails, what happens to
   each is decided by what Google answered for it. Only the albums it read to the end are
   reconciled, and a walk in which none was has written nothing off.
   */
  method WalkAlbums(lister: Lister, followed: seq<Followed>, refreshedAt: Time, recorded: nat,
                    pages: AlbumId -> seq<Answer>, clock: nat -> Time)
    returns (walk: AlbumWalk, verdict: Verdict, ghost done: set<AlbumId>)
    requires lister.Valid() && EachOnce(followed)
    modifies lister, lister.store
    ensures lister.Valid()
    ensures OnlyReconciled(old(lister.store.Contents()), lister.store.Contents(), done)
    ensures done <= set f | f in followed && f.lastSeenAt >= refreshedAt :: f.album
    ensures !verdict.Stopped? ==>
      && (verdict.NothingDecoded? <==> walk.skipped != [] && walk.walked == 0)
      && (verdict.NothingListed? <==>
            recorded == 0 && walk.unlisted != [] && (walk.skipped == [] || walk.walked > 0))
      && walk.walked + |walk.skipped| + |walk.unlisted| == |followed|
      && walk.walked == |done|
      && (forall f :: f in followed && f.lastSeenAt < refreshedAt ==> f.album in walk.unlisted)
      && (walk.drifted <==> walk.skipped != [])
    ensures verdict.NothingDecoded? ==>
      forall k :: IsMissing(lister.store.items, k) ==> IsMissing(old(lister.store.items), k)
    ensures verdict.Stopped? && verdict.cause != StoreFailed ==>
      exists f :: f in followed && Stops(old(lister.store.albums), f, refreshedAt, pages, verdict.cause)
    ensures old(lister.Steady()) && !verdict.Stopped? ==>
      FaredSo(old(lister.store.albums), followed, refreshedAt, pages, walk, done)
    ensures old(lister.Steady()) && verdict.Stopped? ==>
      exists i :: 0 <= i < |followed|
                  && FaredSo(old(lister.store.albums), followed[..i], refreshedAt, pages, walk, done)
                  && Stops(old(lister.store.albums), followed[i], refreshedAt, pages, verdict.cause)
  {
    hide Tallied, Among, EachOnce, VerdictOn, OnlyReconciled, WalkOutcome, NothingLost, DeparturesOf, WholeAlbum,
         KeysServed, Synced, FaredSo, AlbumFailure, Faring, Passes;
    ghost var t := lister.store.Contents();
    walk, verdict, done := AlbumWalk(0, [], [], false), Fine, {};
    NothingWalkedYet(t, followed, refreshedAt);
    NothingFaredYet(t.albums, followed, refreshedAt, pages);
    for i := 0 to |followed|
      invariant lister.Valid()
      invariant OnlyReconciled(t, lister.store.Contents(), done)
      invariant Tallied(followed[..i], refreshedAt, walk, done)
      invariant old(lister.Steady()) ==>
        lister.Steady() && FaredSo(t.albums, followed[..i], refreshedAt, pages, walk, done)
    {
      var album := followed[i].album;
      NotYetDone(followed, i, refreshedAt, walk, done);
      assert followed[..i + 1] == followed[..i] + [followed[i]];
      ghost var walk0, done0 := walk, done;
      if followed[i].lastSeenAt < refreshedAt {
        walk := walk.(unlisted := walk.unlisted + [album]);
        TalliedNext(followed[..i], followed[i], refreshedAt, walk0, done0, walk, done);
        if old(lister.Steady()) {
          FaredNext(t.albums, followed[..i], followed[i], refreshedAt, pages, walk0, done0, walk, done);
        }
        continue;
      }
      ghost var u := lister.store.Contents();
      var _, failure, reconciled, seen, _ := lister.ListAlbum(album, pages(album), clock(i));
      FaresAsAtFirst(t, u, done, followed[i], refreshedAt, pages);
      if reconciled {
        CompletedWalkKeeps(t, u, lister.store.Contents(), done, album, seen, clock(i), HeldBack(u, album, seen));
        done := done + {album};
      } else {
        FailedWalkKeeps(t, u, lister.store.Contents(), done);
      }
      if failure.None? {
        walk := walk.(walked := walk.walked + 1);
      } else if failure == Some(Drift) {
        walk := walk.(skipped := walk.skipped + [album], drifted := true);
      } else {
        verdict := Stopped(failure.value);
        assert followed[i] in followed;
        AmongFollowed(followed, i, refreshedAt, walk0, done0, done);
        return;
      }
      TalliedNext(followed[..i], followed[i], refreshedAt, walk0, done0, walk, done);
      if old(lister.Steady()) {
        FaredNext(t.albums, followed[..i], followed[i], refreshedAt, pages, walk0, done0, walk, done);
      }
    }
    assert followed[..|followed|] == followed;
    TalliedMeans(followed, refreshedAt, walk, done);
    verdict := VerdictOn(walk, recorded == 0);
    WhatAWalkConcludes(walk, recorded == 0);
    if verdict.NothingDecoded? {
      assert done == {};
      NothingReconciled(t, lister.store.Contents());
    }
  }

  /**
   A walk fails for good when something would not decode and nothing was read, or when an album was
   passed by because the listing named none.
   */
  lemma WhatAWalkConcludes(walk: AlbumWalk, listingWasEmpty: bool)
    requires walk.drifted <==> walk.skipped != []
    ensures var verdict := VerdictOn(walk, listingWasEmpty);
      && !verdict.Stopped?
      && (verdict.NothingDecoded? <==> walk.skipped != [] && walk.walked == 0)
      && (verdict.NothingListed? <==>
            listingWasEmpty && walk.unlisted != [] && (walk.skipped == [] || walk.walked > 0))
  {
  }

  lemma NothingWalkedYet(t: Tables, followed: seq<Followed>, refreshedAt: Time)
    ensures OnlyReconciled(t, t, {}) && Tallied(followed[..0], refreshedAt, AlbumWalk(0, [], [], false), {})
  {
  }

  lemma NothingFaredYet(albums: map<AlbumId, AlbumRow>, followed: seq<Followed>, refreshedAt: Time,
                        pages: AlbumId -> seq<Answer>)
    ensures FaredSo(albums, followed[..0], refreshedAt, pages, AlbumWalk(0, [], [], false), {})
  {
  }

  lemma NothingReconciled(t: Tables, u: Tables)
    requires OnlyReconciled(t, u, {})
    ensures forall k :: IsMissing(u.items, k) ==> IsMissing(t.items, k)
  {
    forall k | IsMissing(u.items, k)
      ensures IsMissing(t.items, k)
    {
      assert !InOneOf(u.links, {}, k);
    }
  }
}
