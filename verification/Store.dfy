/** The store: the tables, changed in place one statement or transaction at a time. */
module StoreClass {
  import opened Basics
  import opened StoreState
  import opened Lifecycle

  const DEPARTURE_CHUNK: nat := 500

  datatype Reconciliation = Reconciliation(leftTheAlbum: nat, goneFromGoogle: nat, copies: nat)

  // The keys of a list that reconciling it writes off.
  function WrittenOffOf(t: Tables, album: AlbumId, keys: seq<Key>): set<Key> {
    set k | k in keys && WritesOff(t.items, t.links, album, k)
  }

  lemma WritesOffLater(t: Tables, album: AlbumId, done: seq<Key>, at: Time, key: Key)
    ensures var now := Reconciled(t, album, done, at);
      WritesOff(now.items, now.links, album, key)
      <==> key !in done && WritesOff(t.items, t.links, album, key)
  {
    ReconcileMeaning(t, album, done, at);
    var now := Reconciled(t, album, done, at);
    assert forall link :: link in now.links && link.0 != album <==> link in t.links && link.0 != album;
    assert LinkedElsewhere(now.links, album, key) == LinkedElsewhere(t.links, album, key);
  }

  // The rows written off at a moment and not put up for review.
  function UnaskedAt(items: map<Key, Row>, at: Time): set<Key> {
    set k | k in items && items[k].missingSince == Some(at) && !items[k].needsReview
  }

  // One row more: written off exactly if it was to be and has not been already.
  lemma OneMore(t: Tables, album: AlbumId, done: seq<Key>, at: Time, key: Key)
    ensures var writes := WritesOff(WriteOffAll(t.items, t.links, album, done, at), t.links, album, key);
      |WrittenOffOf(t, album, done + [key])| == |WrittenOffOf(t, album, done)| + (if writes then 1 else 0)
    ensures WriteOffAll(t.items, t.links, album, done + [key], at)
         == WriteOffOne(WriteOffAll(t.items, t.links, album, done, at), t.links, album, key, at)
  {
    hide WritesOff, WriteOffOne;
    WritesOffAmid(t, album, done, at, key);
    var writes := WritesOff(WriteOffAll(t.items, t.links, album, done, at), t.links, album, key);
    assert WrittenOffOf(t, album, done + [key])
        == WrittenOffOf(t, album, done) + (if writes then {key} else {});
    assert writes ==> key !in WrittenOffOf(t, album, done);
    assert (done + [key])[..|done|] == done;
  }

  lemma WritesOffAmid(t: Tables, album: AlbumId, done: seq<Key>, at: Time, key: Key)
    ensures WritesOff(WriteOffAll(t.items, t.links, album, done, at), t.links, album, key)
      <==> key !in done && WritesOff(t.items, t.links, album, key)
  {
    WriteOffMeaning(t.items, t.links, album, done, at);
  }

  class Store {
    var items: map<Key, Row>
    var links: set<(AlbumId, Key)>
    var albums: map<AlbumId, AlbumRow>
    var selection: map<Key, bool>

    function Contents(): Tables
      reads this
    {
      Tables(items, links, albums, selection)
    }

    // The conditional update leaves a row nothing has changed about unwritten; that is the same
    // table as writing it.
    method UpsertItem(item: Item)
      modifies this
      ensures Contents() == Apply(old(Contents()), Write.UpsertItem(item))
      ensures item.key in items && var row := items[item.key];
        && row.captured == (if item.captured == 0 then None else Some(item.captured))
        && row.thumbnail == item.thumbnail && row.isVideo == item.isVideo
        && row.missingSince.None?
        && (item.key !in old(items) ==>
              && row.state == Discovered && row.failCount == 0 && !row.needsReview && row.filename == ""
              && row.localPath.None? && row.sha.None? && row.size.None? && row.lastError.None?
              && row.downloadedAt.None?)
        && (item.key in old(items) ==>
              var was := old(items)[item.key];
              && (row.filename, row.size, row.sha, row.localPath, row.downloadedAt, row.failCount, row.lastError)
                 == (was.filename, was.size, was.sha, was.localPath, was.downloadedAt, was.failCount, was.lastError)
              && (was.state != MissingUpstream ==> row.state == was.state && row.needsReview == was.needsReview)
              && (was.state == MissingUpstream ==>
                    !row.needsReview && row.state == if was.localPath.Some? then Done else Discovered))
      ensures forall k :: k in items && k != item.key ==> k in old(items) && items[k] == old(items)[k]
    {
      if item.key !in items {
        items := items[item.key := NewRow(item)];
      } else if WorthWriting(items[item.key], item) {
        items := items[item.key := Relisted(items[item.key], item)];
      }
    }

    method LinkItemToAlbum(album: AlbumId, key: Key) returns (ok: bool)
      modifies this
      ensures ok == (key in old(items) && album in old(albums))
      ensures Contents() == Apply(old(Contents()), Write.LinkItem(album, key))
    {
      ok := key in items && album in albums;
      if ok && (album, key) !in links {
        links := links + {(album, key)};
      }
    }

    method SetItemState(key: Key, to: State) returns (found: bool)
      modifies this
      ensures found == (key in old(items))
      ensures Contents() == Apply(old(Contents()), Write.SetItemState(key, to))
      ensures found ==>
        var was, row := old(items)[key], items[key];
        row == was.(state := row.state) && row.state == if was.state == MissingUpstream then MissingUpstream else to
    {
      found := key in items;
      if found {
        items := items[key := items[key].(state := UnlessWrittenOff(items[key], to))];
      }
    }

    method MarkDownloaded(key: Key, filename: string, path: Path, size: nat, sha: Digest, at: Time)
      returns (found: bool)
      modifies this`items
      ensures found == (key in old(items))
      ensures Contents() == Apply(old(Contents()), Write.MarkDownloaded(key, filename, path, size, sha, at))
      ensures found ==>
        var was, row := old(items)[key], items[key];
        && (row.localPath, row.size, row.sha, row.filename) == (Some(path), Some(size), Some(sha), filename)
        && row.downloadedAt == Some(at) && row.failCount == 0 && row.lastError.None?
        && row.state == (if was.state == MissingUpstream then MissingUpstream else Done)
        && (row.captured, row.missingSince, row.needsReview, row.thumbnail, row.isVideo)
           == (was.captured, was.missingSince, was.needsReview, was.thumbnail, was.isVideo)
    {
      found := key in items;
      if found {
        var row := items[key];
        if row.state != MissingUpstream {
          row := row.(state := Done);
        }
        row := row.(localPath := Some(path), size := Some(size), sha := Some(sha), filename := filename);
        items := items[key := row.(downloadedAt := Some(at), failCount := 0, lastError := None)];
      }
    }

    method MarkFailed(key: Key, cause: string) returns (found: bool)
      modifies this`items
      ensures found == (key in old(items))
      ensures Contents() == Apply(old(Contents()), Write.MarkFailed(key, cause))
      ensures found ==>
        var was, row := old(items)[key], items[key];
        && row == was.(state := row.state, failCount := row.failCount, lastError := row.lastError)
        && row.state == (if was.state == MissingUpstream then MissingUpstream else Failed)
        && row.failCount == was.failCount + 1 && row.lastError == Some(cause)
    {
      found := key in items;
      if found {
        var row := items[key];
        if row.state != MissingUpstream {
          row := row.(state := Failed);
        }
        items := items[key := row.(failCount := row.failCount + 1, lastError := Some(cause))];
      }
    }

    // One UPDATE to a key, whether to raise the review flag or to lower it.
    method SetReviewFlag(keys: seq<Key>, flag: bool)
      modifies this`items
      ensures items == Flagged(old(items), keys, flag)
      ensures items.Keys == old(items).Keys && forall k :: k in items ==>
        items[k] == old(items)[k].(needsReview := if k in keys then flag else old(items)[k].needsReview)
    {
      for i := 0 to |keys|
        invariant items == Flagged(old(items), keys[..i], flag)
      {
        assert keys[..i + 1] == keys[..i] + [keys[i]];
        if keys[i] in items {
          items := items[keys[i] := items[keys[i]].(needsReview := flag)];
        }
      }
      assert keys[..|keys|] == keys;
    }

    method MarkAlbumSynced(album: AlbumId, at: Time)
      modifies this`albums
      ensures Contents() == Apply(old(Contents()), Write.MarkAlbumSynced(album, at))
    {
      if album in albums {
        albums := albums[album := albums[album].(lastSyncedAt := Some(at))];
      }
    }

    method MarkLibraryWalkedInFull(at: Time)
      modifies this`albums
      ensures Contents() == Apply(old(Contents()), Write.MarkLibraryWalkedInFull(at))
    {
      if Library in albums {
        albums := albums[Library := albums[Library].(walkedInFullAt := Some(at))];
      }
    }

    // What points at the row goes before the row does.
    method Forget(key: Key)
      modifies this`items, this`links, this`selection
      ensures Contents() == Apply(old(Contents()), Write.Forget(key))
      ensures items == old(items) - {key} && selection == old(selection) - {key}
      ensures forall link :: link in links <==> link in old(links) && link.1 != key
      ensures LinksResolve(old(Contents())) ==> LinksResolve(Contents())
    {
      links := set link | link in links && link.1 != key;
      selection := selection - {key};
      items := items - {key};
    }

    // Whichever statement it is.
    method Perform(w: Write)
      modifies this
      ensures Contents() == Apply(old(Contents()), w)
    {
      match w
      case UpsertItem(item) => UpsertItem(item);
      case LinkItem(album, key) => var _ := LinkItemToAlbum(album, key);
      case SetItemState(key, to) => var _ := SetItemState(key, to);
      case MarkDownloaded(key, filename, path, size, sha, at) =>
        var _ := MarkDownloaded(key, filename, path, size, sha, at);
      case MarkFailed(key, cause) => var _ := MarkFailed(key, cause);
      case Reconcile(album, departed, at) => var _ := Reconcile(album, departed, at);
      case MarkAlbumSynced(album, at) => MarkAlbumSynced(album, at);
      case MarkLibraryWalkedInFull(at) => MarkLibraryWalkedInFull(at);
      case FlagForReview(keys) => SetReviewFlag(keys, true);
      case ClearNeedsReview(keys) => SetReviewFlag(keys, false);
      case Forget(key) => Forget(key);
    }

    /**
     Saves the instruction. What the row remembers of whole walks survives exactly if neither the
     mode nor the date asked for is another than before.
     */
    method SetLibrary(to: LibraryInstruction) returns (found: bool)
      modifies this`albums
      ensures found == (Library in old(albums))
      ensures albums.Keys == old(albums).Keys
      ensures forall a :: a in albums && a != Library ==> albums[a] == old(albums)[a]
      ensures found ==>
        var was, now := old(albums)[Library], albums[Library];
        && Asks(now, to)
        && now == was.(mode := now.mode, since := now.since, newOnly := now.newOnly,
                       weeklyFullWalk := now.weeklyFullWalk, walkedInFullAt := now.walkedInFullAt)
        && (now.walkedInFullAt.Some? <==> was.walkedInFullAt.Some? && was.mode == now.mode && was.since == now.since)
        && (now.walkedInFullAt.Some? ==> now.walkedInFullAt == was.walkedInFullAt)
      ensures found ==> albums[Library] == Instructed(old(albums)[Library], to)
    {
      found := Library in albums;
      if found {
        var row := albums[Library];
        if !(row.mode == to.mode && row.since == NullableTime(to.since)) {
          row := row.(walkedInFullAt := None);
        }
        row := row.(mode := to.mode, since := NullableTime(to.since));
        albums := albums[Library := row.(newOnly := to.newOnly, weeklyFullWalk := to.weeklyFullWalk)];
      }
    }

    /** Sets the mode of an album, the library among them, and nothing else: no walk is forgotten by it. */
    method SetAlbumSyncMode(album: AlbumId, mode: SyncMode) returns (found: bool)
      modifies this`albums
      ensures found == (album in old(albums))
      ensures albums.Keys == old(albums).Keys
      ensures forall a :: a in albums && a != album ==> albums[a] == old(albums)[a]
      ensures found ==> albums[album].mode == mode && albums[album] == old(albums)[album].(mode := mode)
    {
      found := album in albums;
      if found {
        albums := albums[album := albums[album].(mode := mode)];
      }
    }

    /** The members of an album, each once, with the date of its row or none. */
    method AlbumMembers(album: AlbumId) returns (members: map<Key, Time>)
      ensures forall k :: k in members <==> (album, k) in links
      ensures forall k :: k in members && k in items ==> members[k] == ParseTime(items[k].captured)
      ensures forall k :: k in members && k !in items ==> IsZero(members[k])
      ensures members == MembersOf(Contents(), album)
    {
      members := map[];
      var todo := links;
      while todo != {}
        invariant todo <= links
        invariant forall k :: k in members <==> (album, k) in links - todo
        invariant forall k :: k in members ==> members[k] == if k in items then ParseTime(items[k].captured) else 0
        decreases |todo|
      {
        var link :| link in todo;
        todo := todo - {link};
        if link.0 == album {
          members := members[link.1 := if link.1 in items then ParseTime(items[link.1].captured) else 0];
        }
      }
      assert members.Keys == MembersOf(Contents(), album).Keys;
    }

    // One chunk's UPDATE, row by row, answering the rows affected.
    method WriteOffChunk(album: AlbumId, chunk: seq<Key>, at: Time) returns (affected: nat)
      modifies this`items
      ensures items == WriteOffAll(old(items), links, album, chunk, at)
      ensures affected == |WrittenOffOf(old(Contents()), album, chunk)|
    {
      ghost var before := Contents();
      affected := 0;
      for i := 0 to |chunk|
        invariant items == WriteOffAll(before.items, before.links, album, chunk[..i], at)
        invariant affected == |WrittenOffOf(before, album, chunk[..i])|
      {
        assert chunk[..i + 1] == chunk[..i] + [chunk[i]];
        OneMore(before, album, chunk[..i], at, chunk[i]);
        if WritesOff(items, links, album, chunk[i]) {
          affected := affected + 1;
        }
        items := WriteOffOne(items, links, album, chunk[i], at);
      }
      assert chunk[..|chunk|] == chunk;
    }

    // One chunk's DELETE, row by row, answering the rows affected.
    method UnlinkChunk(album: AlbumId, chunk: seq<Key>) returns (affected: nat)
      modifies this`links
      ensures links == Unlinked(items, old(links), album, chunk)
      ensures affected == |old(links) - links|
    {
      hide Unlinked, IsMissing;
      affected := 0;
      ghost var before := links;
      UnlinkedNone(items, before, album);
      for i := 0 to |chunk|
        invariant links == Unlinked(items, before, album, chunk[..i])
        invariant affected == |before - links|
      {
        assert chunk[..i + 1] == chunk[..i] + [chunk[i]];
        UnlinkedNext(items, before, album, chunk[..i], chunk[i]);
        if (album, chunk[i]) in links && !IsMissing(items, chunk[i]) {
          assert before - (links - {(album, chunk[i])}) == before - links + {(album, chunk[i])};
          links := links - {(album, chunk[i])};
          affected := affected + 1;
        }
      }
      assert chunk[..|chunk|] == chunk;
    }

    // Both statements for one chunk, after the chunks before it.
    method ReconcileChunk(album: AlbumId, ghost before: Tables, ghost done: seq<Key>, chunk: seq<Key>, at: Time)
      returns (gone: nat, removed: nat)
      requires Contents() == Reconciled(before, album, done, at)
      modifies this`items, this`links
      ensures Contents() == Reconciled(before, album, done + chunk, at)
      ensures |WrittenOffOf(before, album, done + chunk)| == |WrittenOffOf(before, album, done)| + gone
      ensures links <= old(links) && removed == |old(links) - links|
    {
      CountsAdd(before, album, done, chunk, at);
      ReconcileInTwo(before, album, done, chunk, at);
      gone := WriteOffChunk(album, chunk, at);
      removed := UnlinkChunk(album, chunk);
    }

    /**
     Unlinks the departed and writes off those no other album links, five hundred to a statement. The
     counts are those of the whole transaction.
     */
    method Reconcile(album: AlbumId, departed: seq<Key>, at: Time) returns (found: Reconciliation)
      modifies this
      ensures Contents() == Apply(old(Contents()), Write.Reconcile(album, departed, at))
      ensures found.goneFromGoogle == |WrittenOffOf(old(Contents()), album, departed)|
      ensures found.leftTheAlbum == found.goneFromGoogle + |old(links) - links|
      ensures departed != [] ==>
        exists copies: set<Key> :: found.copies == |copies|
          && forall k :: k in copies <==> k in items && items[k].missingSince == Some(at) && !items[k].needsReview
      ensures (forall k :: k in old(items) ==> old(items)[k].missingSince != Some(at)) ==>
        found.copies == |QuietlyOff(old(Contents()), items, album, departed)|
    {
      if departed == [] {
        return Reconciliation(0, 0, 0);
      }
      ghost var before := Contents();
      var left, writtenOff, from := 0, 0, 0;
      hide Reconciled, WrittenOffOf, UnaskedAt;
      NothingReconciled(before, album, departed, at);
      while from < |departed|
        invariant from <= |departed|
        invariant Contents() == Reconciled(before, album, departed[..from], at)
        invariant writtenOff == |WrittenOffOf(before, album, departed[..from])|
        invariant links <= before.links && left == |before.links - links|
      {
        var upto := if from + DEPARTURE_CHUNK < |departed| then from + DEPARTURE_CHUNK else |departed|;
        ChunkTaken(departed, from, upto);
        ghost var start := links;
        var gone, removed := ReconcileChunk(album, before, departed[..from], departed[from..upto], at);
        RemovedAdd(before.links, start, links);
        writtenOff, left, from := writtenOff + gone, left + removed, upto;
      }
      assert departed[..from] == departed;
      ReconcileIsReconciled(before, album, departed, at);
      CopiesCounted(before, album, departed, at);
      found := Reconciliation(left + writtenOff, writtenOff, |UnaskedAt(items, at)|);
    }
  }

  lemma UnlinkedNone(items: map<Key, Row>, links: set<(AlbumId, Key)>, album: AlbumId)
    ensures Unlinked(items, links, album, []) == links
  {
  }

  lemma UnlinkedNext(items: map<Key, Row>, links: set<(AlbumId, Key)>, album: AlbumId, done: seq<Key>, key: Key)
    ensures Unlinked(items, links, album, done) <= links
    ensures Unlinked(items, links, album, done + [key])
         == Unlinked(items, links, album, done) - (if IsMissing(items, key) then {} else {(album, key)})
  {
  }

  // The instruction a row carries.
  predicate Asks(row: AlbumRow, to: LibraryInstruction) {
    && row.mode == to.mode && row.since == (if to.since == 0 then None else Some(to.since))
    && row.newOnly == to.newOnly && row.weeklyFullWalk == to.weeklyFullWalk
  }

  lemma CountsAdd(t: Tables, album: AlbumId, done: seq<Key>, chunk: seq<Key>, at: Time)
    ensures |WrittenOffOf(t, album, done + chunk)|
         == |WrittenOffOf(t, album, done)| + |WrittenOffOf(Reconciled(t, album, done, at), album, chunk)|
  {
    var now := Reconciled(t, album, done, at);
    forall k {
      WritesOffLater(t, album, done, at, k);
    }
    assert WrittenOffOf(t, album, done + chunk) == WrittenOffOf(t, album, done) + WrittenOffOf(now, album, chunk);
    assert WrittenOffOf(t, album, done) !! WrittenOffOf(now, album, chunk);
  }

  // The departed newly written off without a question.
  function QuietlyOff(t: Tables, after: map<Key, Row>, album: AlbumId, departed: seq<Key>): set<Key> {
    set k | k in departed && k in t.items && k in after
            && t.items[k].missingSince.None? && after[k].missingSince.Some? && !after[k].needsReview
  }

  // Where nothing was written off at that moment before, what is counted is what this did.
  lemma CopiesCounted(t: Tables, album: AlbumId, departed: seq<Key>, at: Time)
    ensures var after := Reconciled(t, album, departed, at).items;
      && (forall k :: k in UnaskedAt(after, at) <==>
            k in after && after[k].missingSince == Some(at) && !after[k].needsReview)
      && ((forall k :: k in t.items ==> t.items[k].missingSince != Some(at)) ==>
            UnaskedAt(after, at) == QuietlyOff(t, after, album, departed))
  {
    WriteOffMeaning(t.items, t.links, album, departed, at);
  }

  lemma NothingReconciled(t: Tables, album: AlbumId, departed: seq<Key>, at: Time)
    ensures Reconciled(t, album, departed[..0], at) == t
    ensures WrittenOffOf(t, album, departed[..0]) == {}
  {
  }

  lemma ReconcileIsReconciled(t: Tables, album: AlbumId, departed: seq<Key>, at: Time)
    ensures Apply(t, Write.Reconcile(album, departed, at)) == Reconciled(t, album, departed, at)
  {
  }

  lemma ChunkTaken(departed: seq<Key>, from: nat, upto: nat)
    requires from <= upto <= |departed|
    ensures departed[..upto] == departed[..from] + departed[from..upto]
  {
  }

  lemma RemovedAdd(a: set<(AlbumId, Key)>, b: set<(AlbumId, Key)>, c: set<(AlbumId, Key)>)
    requires c <= b <= a
    ensures |a - c| == |a - b| + |b - c|
  {
    assert a - c == (a - b) + (b - c);
  }

  // An album as it stands, each member with the date the timeline is ordered by. A link whose row
  // is gone would answer no date, which is what the LEFT JOIN answers.
  function MembersOf(t: Tables, album: AlbumId): map<Key, Time> {
    map link | link in t.links && link.0 == album ::
      link.1 := if link.1 in t.items then ParseTime(t.items[link.1].captured) else 0
  }
}
