/**
 The tables a run works on, as values: what each SQL statement of internal/store means, and the
 rules that hold whatever order the statements of the lister and the workers interleave in.
 */
module StoreState {
  import opened Basics

  datatype State = Discovered | Queued | Downloading | Done | Failed | MissingUpstream

  /** One row of media_items. */
  datatype Row = Row(
    filename: string,
    captured: Option<Time>,
    size: Option<nat>,
    sha: Option<Digest>,
    state: State,
    failCount: nat,
    lastError: Option<string>,
    localPath: Option<Path>,
    downloadedAt: Option<Time>,
    missingSince: Option<Time>,
    needsReview: bool,
    thumbnail: string,
    isVideo: bool)

  // A size that was never recorded counts for nothing.
  function SizeOf(row: Row): nat {
    match row.size case Some(size) => size case None => 0
  }

  // A recorded file is at a name of the pool that no other key's file can be at.
  ghost predicate PathsAreTheirOwn(items: map<Key, Row>) {
    forall k :: k in items && items[k].localPath.Some? ==>
      items[k].localPath.value.Pool? && items[k].localPath.value.key == k
  }

  /** The library is a row of the albums table like any other, under an id no album can have. */
  datatype AlbumId = Library | Album(id: nat)

  datatype SyncMode = SyncNone | SyncAll | SyncPicked

  /** The columns of an albums row that decide anything here. */
  datatype AlbumRow = AlbumRow(
    mode: SyncMode,
    itemCount: nat,
    lastSeenAt: Time,
    lastSyncedAt: Option<Time>,
    since: Option<Time>,
    newOnly: bool,
    weeklyFullWalk: bool,
    walkedInFullAt: Option<Time>)

  datatype Tables = Tables(
    items: map<Key, Row>,
    links: set<(AlbumId, Key)>,
    albums: map<AlbumId, AlbumRow>,
    selection: map<Key, bool>)

  /** What a listing says about one item. */
  datatype Item = Item(key: Key, captured: Time, thumbnail: string, isVideo: bool)

  /** Every statement that writes the tables during a run. */
  datatype Write =
    | UpsertItem(item: Item)
    | LinkItem(album: AlbumId, key: Key)
    | SetItemState(key: Key, to: State)
    | MarkDownloaded(key: Key, filename: string, path: Path, size: nat, sha: Digest, at: Time)
    | MarkFailed(key: Key, cause: string)
    | Reconcile(album: AlbumId, departed: seq<Key>, at: Time)
    | MarkAlbumSynced(album: AlbumId, at: Time)
    | MarkLibraryWalkedInFull(at: Time)
    | FlagForReview(keys: seq<Key>)
    | ClearNeedsReview(keys: seq<Key>)
    | Forget(key: Key)

  // ---- Listing an item ----

  function NewRow(item: Item): Row {
    Row("", NullableTime(item.captured), None, None, Discovered, 0, None, None, None, None, false,
        item.thumbnail, item.isVideo)
  }

  function Relisted(row: Row, item: Item): Row {
    row.(captured := NullableTime(item.captured),
         thumbnail := item.thumbnail,
         isVideo := item.isVideo,
         missingSince := None,
         needsReview := row.state != MissingUpstream && row.needsReview,
         state := if row.state != MissingUpstream then row.state
                  else if row.localPath.Some? then Done
                  else Discovered)
  }

  // The WHERE clause that spares a row nothing has changed about.
  predicate WorthWriting(row: Row, item: Item) {
    || row.captured != NullableTime(item.captured)
    || row.thumbnail != item.thumbnail
    || row.isVideo != item.isVideo
    || row.state == MissingUpstream
    || row.missingSince.Some?
  }

  function Upserted(items: map<Key, Row>, item: Item): map<Key, Row> {
    items[item.key := if item.key in items then Relisted(items[item.key], item) else NewRow(item)]
  }

  // ---- What the download path writes ----

  function UnlessWrittenOff(row: Row, to: State): State {
    if row.state == MissingUpstream then MissingUpstream else to
  }

  function Landed(row: Row, w: Write): Row
    requires w.MarkDownloaded?
  {
    row.(state := UnlessWrittenOff(row, Done), localPath := Some(w.path), size := Some(w.size),
         sha := Some(w.sha), filename := w.filename, downloadedAt := Some(w.at), failCount := 0,
         lastError := None)
  }

  function Charged(row: Row, cause: string): Row {
    row.(state := UnlessWrittenOff(row, Failed), failCount := row.failCount + 1, lastError := Some(cause))
  }

  // ---- Writing an item off ----

  // A copy by its bytes, and a copy by its name, second and size. A comparison with NULL
  // holds of nothing.
  predicate SameBytesCopy(row: Row, copy: Row) {
    row.sha.Some? && copy.sha == row.sha
  }

  predicate SameNameCopy(row: Row, copy: Row) {
    && copy.filename == row.filename != ""
    && row.captured.Some? && copy.captured == row.captured
    && row.size.Some? && copy.size.Some? && copy.size.value >= row.size.value
  }

  predicate IsCopy(row: Row, copy: Row) {
    SameBytesCopy(row, copy) || SameNameCopy(row, copy)
  }

  predicate ACopyRemains(items: map<Key, Row>, key: Key)
    requires key in items
  {
    exists other | other in items ::
      other != key && items[other].state == Done && IsCopy(items[key], items[other])
  }

  predicate LinkedElsewhere(links: set<(AlbumId, Key)>, album: AlbumId, key: Key) {
    exists link | link in links :: link.1 == key && link.0 != album
  }

  predicate WritesOff(items: map<Key, Row>, links: set<(AlbumId, Key)>, album: AlbumId, key: Key) {
    key in items && items[key].missingSince.None? && !LinkedElsewhere(links, album, key)
  }

  // The UPDATE for one row. SQLite evaluates SET row by row, so the review flag sees the rows the
  // same statement has already written off.
  function WriteOffOne(items: map<Key, Row>, links: set<(AlbumId, Key)>, album: AlbumId, key: Key,
                       at: Time): map<Key, Row> {
    if WritesOff(items, links, album, key) then
      items[key := items[key].(state := MissingUpstream, missingSince := Some(at),
                               needsReview := !ACopyRemains(items, key))]
    else
      items
  }

  function WriteOffAll(items: map<Key, Row>, links: set<(AlbumId, Key)>, album: AlbumId,
                       departed: seq<Key>, at: Time): map<Key, Row> {
    if departed == [] then items
    else
      var front, last := departed[..|departed| - 1], departed[|departed| - 1];
      WriteOffOne(WriteOffAll(items, links, album, front, at), links, album, last, at)
  }

  predicate IsMissing(items: map<Key, Row>, key: Key) {
    key in items && items[key].state == MissingUpstream
  }

  // The DELETE: a departed member goes from the album unless its row is written off.
  function Unlinked(items: map<Key, Row>, links: set<(AlbumId, Key)>, album: AlbumId,
                    departed: seq<Key>): set<(AlbumId, Key)> {
    set link | link in links && !(link.0 == album && link.1 in departed && !IsMissing(items, link.1))
  }

  function Reconciled(t: Tables, album: AlbumId, departed: seq<Key>, at: Time): Tables {
    var items := WriteOffAll(t.items, t.links, album, departed, at);
    t.(items := items, links := Unlinked(items, t.links, album, departed))
  }

  // ---- The library's instruction ----

  datatype LibraryInstruction = LibraryInstruction(mode: SyncMode, since: Time, newOnly: bool, weeklyFullWalk: bool)

  // All of SET is evaluated on the row before it changes, the comparison of date and mode included.
  function Instructed(row: AlbumRow, to: LibraryInstruction): AlbumRow {
    row.(mode := to.mode,
         since := NullableTime(to.since),
         newOnly := to.newOnly,
         weeklyFullWalk := to.weeklyFullWalk,
         walkedInFullAt := if row.mode == to.mode && row.since == NullableTime(to.since)
                           then row.walkedInFullAt else None)
  }

  // ---- The rest ----

  function Flagged(items: map<Key, Row>, keys: seq<Key>, flag: bool): map<Key, Row> {
    map k | k in items :: if k in keys then items[k].(needsReview := flag) else items[k]
  }

  function Without(t: Tables, key: Key): Tables {
    t.(items := t.items - {key},
       links := (set link | link in t.links && link.1 != key),
       selection := t.selection - {key})
  }

  // An UPDATE of a row that is not there changes nothing, and a link is refused by its foreign
  // keys unless both ends exist.
  function Apply(t: Tables, w: Write): Tables {
    match w
    case UpsertItem(item) => t.(items := Upserted(t.items, item))
    case LinkItem(album, key) =>
      if key in t.items && album in t.albums then t.(links := t.links + {(album, key)}) else t
    case SetItemState(key, to) =>
      if key in t.items then
        t.(items := t.items[key := t.items[key].(state := UnlessWrittenOff(t.items[key], to))])
      else t
    case MarkDownloaded(key, _, _, _, _, _) =>
      if key in t.items then t.(items := t.items[key := Landed(t.items[key], w)]) else t
    case MarkFailed(key, cause) =>
      if key in t.items then t.(items := t.items[key := Charged(t.items[key], cause)]) else t
    case Reconcile(album, departed, at) => Reconciled(t, album, departed, at)
    case MarkAlbumSynced(album, at) =>
      if album in t.albums then
        t.(albums := t.albums[album := t.albums[album].(lastSyncedAt := Some(at))])
      else t
    case MarkLibraryWalkedInFull(at) =>
      if Library in t.albums then
        t.(albums := t.albums[Library := t.albums[Library].(walkedInFullAt := Some(at))])
      else t
    case FlagForReview(keys) => t.(items := Flagged(t.items, keys, true))
    case ClearNeedsReview(keys) => t.(items := Flagged(t.items, keys, false))
    case Forget(key) => Without(t, key)
  }

  function Replay(t: Tables, writes: seq<Write>): Tables
    decreases |writes|
  {
    if writes == [] then t else Replay(Apply(t, writes[0]), writes[1..])
  }
}
