/**
 The life of an item: the rules every statement keeps, whichever goroutine issues it and in
 whatever order, and what one Reconcile means however its departures are chunked.
 */
module Lifecycle {
  import opened Basics
  import opened StoreState

  // missing_since is set exactly on the rows written off, and a done row names a file.
  predicate SoundRow(row: Row) {
    && (row.state == MissingUpstream <==> row.missingSince.Some?)
    && (row.state == Done ==> row.localPath.Some?)
  }

  ghost predicate SoundRows(t: Tables) {
    forall k :: k in t.items ==> SoundRow(t.items[k])
  }

  // The foreign keys of album_items.
  ghost predicate LinksResolve(t: Tables) {
    forall link :: link in t.links ==> link.0 in t.albums && link.1 in t.items
  }

  // The review queue groups by album, so a written-off item has to be in one.
  ghost predicate MissingKeepsALink(t: Tables) {
    forall k :: IsMissing(t.items, k) ==> exists link :: link in t.links && link.1 == k
  }

  // The engine sets only these two states outright: a worker claims an item, and a reclaim or a
  // verify repair puts one back on the work list.
  predicate IssuedByTheEngine(w: Write) {
    w.SetItemState? ==> w.to == Downloading || w.to == Discovered
  }

  predicate IssuedByAWorker(w: Write) {
    (w.SetItemState? && IssuedByTheEngine(w)) || w.MarkDownloaded? || w.MarkFailed?
  }

  // ---- What writing off a list of departures means ----

  lemma {:induction false} WriteOffMeaning(items: map<Key, Row>, links: set<(AlbumId, Key)>, album: AlbumId,
                                           departed: seq<Key>, at: Time)
    ensures WriteOffAll(items, links, album, departed, at).Keys == items.Keys
    ensures forall k :: k in items ==>
      var row := WriteOffAll(items, links, album, departed, at)[k];
      if k in departed && WritesOff(items, links, album, k) then
        row == items[k].(state := MissingUpstream, missingSince := Some(at), needsReview := row.needsReview)
      else
        row == items[k]
  {
    if departed != [] {
      var front, last := departed[..|departed| - 1], departed[|departed| - 1];
      WriteOffMeaning(items, links, album, front, at);
      assert forall k :: k in departed <==> k in front || k == last;
    }
  }

  /**
   The whole of Reconcile, set at a time: a departed item is written off if and only if no other
   album links it, it leaves this album unless it is written off now or was before, and no other
   album's links and no other row change.
   */
  lemma {:induction false} ReconcileMeaning(t: Tables, album: AlbumId, departed: seq<Key>, at: Time)
    ensures var after := Reconciled(t, album, departed, at);
      && after.items.Keys == t.items.Keys
      && after.albums == t.albums
      && after.selection == t.selection
      && (forall k :: k in t.items ==>
            after.items[k] ==
              if k in departed && WritesOff(t.items, t.links, album, k) then
                t.items[k].(state := MissingUpstream, missingSince := Some(at),
                            needsReview := after.items[k].needsReview)
              else t.items[k])
      && (forall link :: link in after.links <==>
            && link in t.links
            && (link.0 == album && link.1 in departed ==>
                  IsMissing(t.items, link.1) || WritesOff(t.items, t.links, album, link.1)))
  {
    WriteOffMeaning(t.items, t.links, album, departed, at);
  }

  // ---- Chunking ----

  lemma {:induction false} WriteOffInTwo(items: map<Key, Row>, links: set<(AlbumId, Key)>, album: AlbumId,
                                         a: seq<Key>, b: seq<Key>, at: Time)
    ensures WriteOffAll(items, links, album, a + b, at)
         == WriteOffAll(WriteOffAll(items, links, album, a, at), links, album, b, at)
    decreases |b|
  {
    if b == [] {
      assert a + b == a;
    } else {
      var front, last := b[..|b| - 1], b[|b| - 1];
      assert (a + b)[..|a + b| - 1] == a + front;
      WriteOffInTwo(items, links, album, a, front, at);
    }
  }

  // Links of this album have no say in what this album's departures write off.
  lemma {:induction false} OwnLinksDoNotMatter(items: map<Key, Row>, links: set<(AlbumId, Key)>,
                                               fewer: set<(AlbumId, Key)>, album: AlbumId,
                                               departed: seq<Key>, at: Time)
    requires forall link: (AlbumId, Key) :: link.0 != album ==> (link in links <==> link in fewer)
    ensures WriteOffAll(items, links, album, departed, at) == WriteOffAll(items, fewer, album, departed, at)
  {
    if departed != [] {
      var front, last := departed[..|departed| - 1], departed[|departed| - 1];
      OwnLinksDoNotMatter(items, links, fewer, album, front, at);
      assert LinkedElsewhere(links, album, last) == LinkedElsewhere(fewer, album, last);
    }
  }

  /** Reconciling a list in two parts, one after the other, is reconciling it whole. */
  lemma ReconcileInTwo(t: Tables, album: AlbumId, a: seq<Key>, b: seq<Key>, at: Time)
    ensures Reconciled(Reconciled(t, album, a, at), album, b, at) == Reconciled(t, album, a + b, at)
  {
    var first := Reconciled(t, album, a, at);
    WriteOffInTwo(t.items, t.links, album, a, b, at);
    OwnLinksDoNotMatter(first.items, t.links, first.links, album, b, at);
    var whole := WriteOffAll(t.items, t.links, album, a + b, at);
    WriteOffMeaning(first.items, t.links, album, b, at);
    assert Unlinked(whole, first.links, album, b) == Unlinked(whole, t.links, album, a + b) by {
      forall link | link in t.links && link.0 == album && link.1 in a && !(link.1 in b)
        ensures IsMissing(first.items, link.1) <==> IsMissing(whole, link.1)
      {
      }
      forall link | link in t.links && link.0 == album && link.1 in a && link.1 in b
        ensures IsMissing(first.items, link.1) ==> IsMissing(whole, link.1)
        ensures IsMissing(whole, link.1) ==> IsMissing(first.items, link.1)
      {
        WriteOffMeaning(t.items, t.links, album, a, at);
        assert LinkedElsewhere(first.links, album, link.1) == LinkedElsewhere(t.links, album, link.1);
      }
    }
  }

  // ---- One statement ----

  lemma SoundRowsKept(t: Tables, w: Write)
    requires SoundRows(t) && IssuedByTheEngine(w)
    ensures SoundRows(Apply(t, w))
  {
    if w.Reconcile? {
      ReconcileMeaning(t, w.album, w.departed, w.at);
    }
  }

  lemma LinksResolveKept(t: Tables, w: Write)
    requires LinksResolve(t)
    ensures LinksResolve(Apply(t, w))
  {
    if w.Reconcile? {
      ReconcileMeaning(t, w.album, w.departed, w.at);
    }
  }

  /** A re-listing leaves no item written off, and repairs a row the first rule never held of. */
  lemma RelistingRestores(t: Tables, item: Item)
    ensures var after := Apply(t, UpsertItem(item));
      && item.key in after.items
      && var row := after.items[item.key];
         && row.state != MissingUpstream
         && row.missingSince.None?
         && row.captured == NullableTime(item.captured)
         && (item.key in t.items && (t.items[item.key].state == Done ==> t.items[item.key].localPath.Some?)
             ==> SoundRow(row))
         && (item.key in t.items && t.items[item.key].state == MissingUpstream ==>
               && !row.needsReview
               && (row.state == Done <==> t.items[item.key].localPath.Some?)
               && (row.state == Discovered <==> t.items[item.key].localPath.None?))
         && (item.key in t.items ==>
               var was := t.items[item.key];
               && (row.localPath, row.sha, row.size, row.failCount, row.filename)
                  == (was.localPath, was.sha, was.size, was.failCount, was.filename)
               && (was.state != MissingUpstream ==> row.state == was.state && row.needsReview == was.needsReview))
  {
  }

  /** A worker's word is older than a write-off: it never undoes one, and never makes one. */
  lemma WorkersNeverDecide(t: Tables, w: Write)
    requires IssuedByAWorker(w)
    ensures var after := Apply(t, w);
      && after.items.Keys == t.items.Keys
      && after.links == t.links && after.albums == t.albums
      && (forall k :: k in t.items ==>
            && (IsMissing(after.items, k) <==> IsMissing(t.items, k))
            && after.items[k].missingSince == t.items[k].missingSince
            && after.items[k].captured == t.items[k].captured
            && after.items[k].needsReview == t.items[k].needsReview)
      && (w.MarkDownloaded? && w.key in t.items ==> after.items[w.key].localPath == Some(w.path))
  {
  }

  // ---- The failure count ----

  // How often an item has failed since it last succeeded, read off what was recorded about it.
  function FailuresSinceSuccess(before: nat, writes: seq<Write>, key: Key): nat {
    if writes == [] then before
    else
      CountedOn(FailuresSinceSuccess(before, writes[..|writes| - 1], key), writes[|writes| - 1], key)
  }

  function CountedOn(count: nat, w: Write, key: Key): nat {
    match w
    case MarkFailed(k, _) => if k == key then count + 1 else count
    case MarkDownloaded(k, _, _, _, _, _) => if k == key then 0 else count
    case _ => count
  }

  lemma OneWriteCounts(t: Tables, w: Write, key: Key)
    requires key in t.items && w != Forget(key)
    ensures var u := Apply(t, w);
      key in u.items && u.items[key].failCount == CountedOn(t.items[key].failCount, w, key)
  {
    if w.Reconcile? {
      ReconcileMeaning(t, w.album, w.departed, w.at);
    }
  }

  lemma {:induction false} ReplaySplit(t: Tables, writes: seq<Write>, w: Write)
    ensures Replay(t, writes + [w]) == Apply(Replay(t, writes), w)
    decreases |writes|
  {
    if writes == [] {
      assert writes + [w] == [w];
      assert Replay(Apply(t, w), []) == Apply(t, w);
      assert [w][1..] == [];
    } else {
      assert (writes + [w])[1..] == writes[1..] + [w];
      ReplaySplit(Apply(t, writes[0]), writes[1..], w);
    }
  }

  /** fail_count is the failures since the last success, whatever else is written meanwhile. */
  lemma {:induction false} FailCountIsItsHistory(t: Tables, writes: seq<Write>, key: Key)
    requires key in t.items
    requires Forget(key) !in writes
    ensures key in Replay(t, writes).items
    ensures Replay(t, writes).items[key].failCount
         == FailuresSinceSuccess(t.items[key].failCount, writes, key)
    decreases |writes|
  {
    hide Apply, CountedOn;
    if writes != [] {
      var front, last := writes[..|writes| - 1], writes[|writes| - 1];
      assert writes == front + [last];
      FailCountIsItsHistory(t, front, key);
      ReplaySplit(t, front, last);
      assert last in writes;
      OneWriteCounts(Replay(t, front), last, key);
    }
  }
}
