/**
 The review flag: an item is written off without a question only if a copy of the photograph
 remains, and whatever becomes of the copies later, following them always ends at an item the store
 still has a file for or at one whose question stands.
 */
module SilentLoss {
  import opened Basics
  import opened StoreState
  import opened Lifecycle

  /**
   The tables, with what was written off on the way to them and is still: which of those were put up
   for review, and for the rest the copies that stood in for them when they were written off. A
   question is withdrawn when its item is listed again, and stand-ins are those of the last
   write-off.
   */
  datatype Ledger = Ledger(t: Tables, off: set<Key>, asked: set<Key>, standIns: set<(Key, Key)>)

  function StandInsOf(items: map<Key, Row>, key: Key): set<Key>
    requires key in items
  {
    set other | other in items && other != key && items[other].state == Done && IsCopy(items[key], items[other])
  }

  // ---- What each write enters ----

  // One row of a Reconcile.
  function RowEntered(l: Ledger, links: set<(AlbumId, Key)>, album: AlbumId, key: Key, at: Time): Ledger {
    if WritesOff(l.t.items, links, album, key) then
      Ledger(l.t.(items := WriteOffOne(l.t.items, links, album, key, at)),
             l.off + {key},
             if ACopyRemains(l.t.items, key) then l.asked else l.asked + {key},
             (set p | p in l.standIns && p.0 != key) + (set other | other in StandInsOf(l.t.items, key) :: (key, other)))
    else l
  }

  function RowsEntered(l: Ledger, links: set<(AlbumId, Key)>, album: AlbumId, departed: seq<Key>, at: Time): Ledger {
    if departed == [] then l
    else
      RowEntered(RowsEntered(l, links, album, departed[..|departed| - 1], at), links, album, departed[|departed| - 1], at)
  }

  // An item forgotten hands those it stood in for on to its own copies.
  function HandedOn(l: Ledger, key: Key): set<(Key, Key)>
    requires key in l.t.items
  {
    (set p | p in l.standIns && p.0 != key && p.1 != key)
    + (set p, other | p in l.standIns && p.0 != key && p.1 == key && other in StandInsOf(l.t.items, key) :: (p.0, other))
  }

  function StillMissing(items: map<Key, Row>, keys: set<Key>): set<Key> {
    set k | k in keys && IsMissing(items, k)
  }

  function Entered(l: Ledger, w: Write): Ledger {
    var u := Apply(l.t, w);
    match w
    case Reconcile(album, departed, at) => RowsEntered(l, l.t.links, album, departed, at).(t := u)
    case Forget(key) =>
      if key in l.t.items then Ledger(u, l.off - {key}, l.asked - {key}, HandedOn(l, key)) else l.(t := u)
    case _ => l.(t := u, off := StillMissing(u.items, l.off), asked := StillMissing(u.items, l.asked))
  }

  // ---- What is kept ----

  // The store has a file for it, or had one and is fetching it again.
  predicate HasAFile(items: map<Key, Row>, key: Key) {
    key in items && items[key].state != MissingUpstream && items[key].localPath.Some?
  }

  // From one stand-in to the next, to an item there is a file for or a question about.
  ghost predicate IsChain(l: Ledger, key: Key, chain: seq<Key>) {
    && chain != [] && chain[0] == key
    && (forall i :: 0 < i < |chain| ==> (chain[i - 1], chain[i]) in l.standIns)
    && (chain[|chain| - 1] in l.asked || HasAFile(l.t.items, chain[|chain| - 1]))
  }

  ghost predicate Accounted(l: Ledger, key: Key) {
    exists chain :: IsChain(l, key, chain)
  }

  // Whatever stands in for another had a file when it was taken to, and has its record still.
  ghost predicate StandInsHold(l: Ledger) {
    forall p: (Key, Key) :: p in l.standIns ==> p.1 in l.t.items && l.t.items[p.1].localPath.Some?
  }

  ghost predicate NoneLostSilently(l: Ledger) {
    && SoundRows(l.t) && StandInsHold(l)
    && (forall k :: k in l.off || k in l.asked ==> IsMissing(l.t.items, k))
    && (forall k :: k in l.off ==> Accounted(l, k))
  }

  lemma Ends(l: Ledger, key: Key)
    requires key in l.asked || HasAFile(l.t.items, key)
    ensures Accounted(l, key)
  {
    assert IsChain(l, key, [key]);
  }

  lemma StandsIn(l: Ledger, key: Key, other: Key)
    requires (key, other) in l.standIns && Accounted(l, other)
    ensures Accounted(l, key)
  {
    var chain :| IsChain(l, other, chain);
    assert IsChain(l, key, [key] + chain);
  }

  lemma Onwards(l: Ledger, key: Key, chain: seq<Key>)
    requires IsChain(l, key, chain) && |chain| > 1
    ensures (key, chain[1]) in l.standIns && IsChain(l, chain[1], chain[1..])
  {
    assert chain[|chain| - 1] == chain[1..][|chain| - 2];
  }

  // ---- One row written off ----

  lemma WrittenOffRow(l: Ledger, links: set<(AlbumId, Key)>, album: AlbumId, off: Key, at: Time)
    requires WritesOff(l.t.items, links, album, off) && SoundRows(l.t)
    ensures var l' := RowEntered(l, links, album, off, at);
      && l'.t.items.Keys == l.t.items.Keys && SoundRows(l'.t) && IsMissing(l'.t.items, off)
      && (forall k :: k in l.t.items && k != off ==> l'.t.items[k] == l.t.items[k])
      && l'.t.items[off].localPath == l.t.items[off].localPath
  {
  }

  lemma OffIsAccounted(l: Ledger, links: set<(AlbumId, Key)>, album: AlbumId, off: Key, at: Time)
    requires WritesOff(l.t.items, links, album, off) && SoundRows(l.t)
    ensures Accounted(RowEntered(l, links, album, off, at), off)
  {
    var l' := RowEntered(l, links, album, off, at);
    if ACopyRemains(l.t.items, off) {
      var other :| other in l.t.items && other != off && l.t.items[other].state == Done
                   && IsCopy(l.t.items[off], l.t.items[other]);
      assert other in StandInsOf(l.t.items, off);
      assert (off, other) in l'.standIns;
      Ends(l', other);
      StandsIn(l', off, other);
    } else {
      Ends(l', off);
    }
  }

  lemma {:induction false} ChainSurvivesWriteOff(l: Ledger, links: set<(AlbumId, Key)>, album: AlbumId, off: Key,
                                                 at: Time, key: Key, chain: seq<Key>)
    requires WritesOff(l.t.items, links, album, off) && SoundRows(l.t) && IsChain(l, key, chain)
    ensures Accounted(RowEntered(l, links, album, off, at), key)
    decreases |chain|
  {
    hide IsCopy, WritesOff;
    var l' := RowEntered(l, links, album, off, at);
    if key == off {
      OffIsAccounted(l, links, album, off, at);
    } else if |chain| == 1 {
      WrittenOffRow(l, links, album, off, at);
      Ends(l', key);
    } else {
      Onwards(l, key, chain);
      ChainSurvivesWriteOff(l, links, album, off, at, chain[1], chain[1..]);
      assert (key, chain[1]) in l'.standIns;
      StandsIn(l', key, chain[1]);
    }
  }

  lemma StandInsAfterWriteOff(l: Ledger, links: set<(AlbumId, Key)>, album: AlbumId, off: Key, at: Time)
    requires SoundRows(l.t) && StandInsHold(l)
    ensures StandInsHold(RowEntered(l, links, album, off, at))
  {
    if WritesOff(l.t.items, links, album, off) {
      WrittenOffRow(l, links, album, off, at);
    }
  }

  /** One row more written off: it is accounted for, and everything written off before still is. */
  lemma OneRowWrittenOff(l: Ledger, links: set<(AlbumId, Key)>, album: AlbumId, off: Key, at: Time)
    requires NoneLostSilently(l)
    ensures NoneLostSilently(RowEntered(l, links, album, off, at))
    ensures WritesOff(l.t.items, links, album, off) ==>
      var l' := RowEntered(l, links, album, off, at);
      off in l'.asked <==> l'.t.items[off].needsReview
  {
    var l' := RowEntered(l, links, album, off, at);
    StandInsAfterWriteOff(l, links, album, off, at);
    if WritesOff(l.t.items, links, album, off) {
      WrittenOffRow(l, links, album, off, at);
      hide StandInsHold, WritesOff, WriteOffOne, IsChain;
      forall k | k in l'.off
        ensures Accounted(l', k)
      {
        if k == off {
          OffIsAccounted(l, links, album, off, at);
        } else {
          var chain :| IsChain(l, k, chain);
          ChainSurvivesWriteOff(l, links, album, off, at, k, chain);
        }
      }
    }
  }

  /** So it is for a whole UPDATE, rows written off earlier in it no longer counting as copies. */
  lemma {:induction false} RowsWrittenOff(l: Ledger, links: set<(AlbumId, Key)>, album: AlbumId, departed: seq<Key>,
                                          at: Time)
    requires NoneLostSilently(l)
    ensures var l' := RowsEntered(l, links, album, departed, at);
      && NoneLostSilently(l')
      && l'.t == l.t.(items := WriteOffAll(l.t.items, links, album, departed, at))
  {
    hide NoneLostSilently;
    if departed != [] {
      var front := departed[..|departed| - 1];
      RowsWrittenOff(l, links, album, front, at);
      OneRowWrittenOff(RowsEntered(l, links, album, front, at), links, album, departed[|departed| - 1], at);
    }
  }

  // Accounts are about rows, not links.
  lemma LinksAside(l: Ledger, t: Tables)
    requires NoneLostSilently(l) && t.items == l.t.items
    ensures NoneLostSilently(l.(t := t))
  {
    var l' := l.(t := t);
    forall k | k in l.off
      ensures Accounted(l', k)
    {
      var chain :| IsChain(l, k, chain);
      assert IsChain(l', k, chain);
    }
  }

  // ---- Any other write ----

  // A file on record stays on record, and an item only stops being missing by being listed again.
  lemma FilesOnRecord(t: Tables, w: Write)
    requires IssuedByTheEngine(w) && !w.Reconcile? && !w.Forget?
    ensures t.items.Keys <= Apply(t, w).items.Keys
    ensures forall k :: k in t.items && t.items[k].localPath.Some? ==> Apply(t, w).items[k].localPath.Some?
    ensures forall k :: IsMissing(Apply(t, w).items, k) ==> IsMissing(t.items, k)
  {
  }

  // A chain that reaches a question withdrawn reaches a file instead.
  lemma ChainGoesOn(l: Ledger, l': Ledger, k: Key, chain: seq<Key>)
    requires IsChain(l, k, chain) && StandInsHold(l) && l'.standIns == l.standIns
    requires forall x :: x in l.t.items && l.t.items[x].localPath.Some? ==>
      x in l'.t.items && l'.t.items[x].localPath.Some?
    requires forall x :: x in l.asked ==> x in l'.asked || !IsMissing(l'.t.items, x)
    requires forall x :: IsMissing(l'.t.items, x) ==> IsMissing(l.t.items, x)
    requires IsMissing(l'.t.items, k)
    ensures IsChain(l', k, chain)
  {
    var last := chain[|chain| - 1];
    if |chain| > 1 {
      assert (chain[|chain| - 2], last) in l.standIns;
      assert last in l.t.items && l.t.items[last].localPath.Some?;
    }
    assert IsMissing(l'.t.items, last) ==> IsMissing(l.t.items, last);
  }

  lemma OtherWrites(l: Ledger, w: Write)
    requires NoneLostSilently(l) && IssuedByTheEngine(w) && !w.Reconcile? && !w.Forget?
    ensures NoneLostSilently(Entered(l, w))
  {
    var l' := Entered(l, w);
    SoundRowsKept(l.t, w);
    FilesOnRecord(l.t, w);
    hide Apply, SoundRows, IsChain;
    forall k | k in l'.off
      ensures Accounted(l', k)
    {
      var chain :| IsChain(l, k, chain);
      ChainGoesOn(l, l', k, chain);
    }
  }

  // ---- A row forgotten ----

  // The duplicates command forgets an item only beside a backed-up copy of it.
  ghost predicate Allowed(l: Ledger, w: Write) {
    IssuedByTheEngine(w) && (w.Forget? && w.key in l.t.items ==> ACopyRemains(l.t.items, w.key))
  }

  lemma {:induction false} ChainSurvivesForgetting(l: Ledger, key: Key, k: Key, chain: seq<Key>)
    requires SoundRows(l.t) && key in l.t.items && ACopyRemains(l.t.items, key)
    requires IsChain(l, k, chain) && k != key
    ensures Accounted(Entered(l, Forget(key)), k)
    decreases |chain|
  {
    hide IsCopy;
    var l' := Entered(l, Forget(key));
    if |chain| == 1 {
      Ends(l', k);
    } else {
      Onwards(l, k, chain);
      if chain[1] == key {
        var other :| other in l.t.items && other != key && l.t.items[other].state == Done
                     && IsCopy(l.t.items[key], l.t.items[other]);
        assert other in StandInsOf(l.t.items, key);
        assert (k, key) in l.standIns && (k, other) in l'.standIns;
        Ends(l', other);
        StandsIn(l', k, other);
      } else {
        ChainSurvivesForgetting(l, key, chain[1], chain[1..]);
        assert (k, chain[1]) in l'.standIns;
        StandsIn(l', k, chain[1]);
      }
    }
  }

  lemma Forgetting(l: Ledger, key: Key)
    requires NoneLostSilently(l) && Allowed(l, Forget(key))
    ensures NoneLostSilently(Entered(l, Forget(key)))
  {
    hide IsCopy;
    var l' := Entered(l, Forget(key));
    SoundRowsKept(l.t, Forget(key));
    if key in l.t.items {
      forall k | k in l'.off
        ensures Accounted(l', k)
      {
        var chain :| IsChain(l, k, chain);
        ChainSurvivesForgetting(l, key, k, chain);
      }
    } else {
      LinksAside(l, Apply(l.t, Forget(key)));
    }
  }

  // ---- A whole history ----

  lemma EntryKeepsAccounts(l: Ledger, w: Write)
    requires NoneLostSilently(l) && Allowed(l, w)
    ensures NoneLostSilently(Entered(l, w))
  {
    hide NoneLostSilently;
    if w.Reconcile? {
      RowsWrittenOff(l, l.t.links, w.album, w.departed, w.at);
      LinksAside(RowsEntered(l, l.t.links, w.album, w.departed, w.at), Apply(l.t, w));
    } else if w.Forget? {
      Forgetting(l, w.key);
    } else {
      OtherWrites(l, w);
    }
  }

  ghost predicate AllowedHistory(l: Ledger, writes: seq<Write>)
    decreases |writes|
  {
    writes == [] || (Allowed(l, writes[0]) && AllowedHistory(Entered(l, writes[0]), writes[1..]))
  }

  function Closed(l: Ledger, writes: seq<Write>): Ledger
    decreases |writes|
  {
    if writes == [] then l else Closed(Entered(l, writes[0]), writes[1..])
  }

  /**
   No photo is lost in silence. Over any history of everything the lister, the workers, the user and
   the duplicates command write, every item that stands written off leads from copy to copy to an
   item the store has a file for, or to one whose question stands.
   */
  lemma {:induction false} NoSilentLoss(l: Ledger, writes: seq<Write>)
    requires NoneLostSilently(l) && AllowedHistory(l, writes)
    ensures NoneLostSilently(Closed(l, writes))
    ensures Closed(l, writes).t == Replay(l.t, writes)
    decreases |writes|
  {
    hide NoneLostSilently, Allowed, Apply;
    if writes != [] {
      EntryKeepsAccounts(l, writes[0]);
      NoSilentLoss(Entered(l, writes[0]), writes[1..]);
    }
  }

  /** Unless some file on record has gone and is being fetched again, that item is backed up. */
  lemma BackedUpOrAsked(l: Ledger, key: Key) returns (end: Key)
    requires NoneLostSilently(l) && key in l.off
    requires forall k :: k in l.t.items && l.t.items[k].localPath.Some? ==>
      l.t.items[k].state == Done || l.t.items[k].state == MissingUpstream
    ensures end in l.asked || (end in l.t.items && l.t.items[end].state == Done)
    ensures end == key || exists chain :: IsChain(l, key, chain) && chain[|chain| - 1] == end
  {
    var chain :| IsChain(l, key, chain);
    end := chain[|chain| - 1];
  }

  // ---- Who is asked about ----

  // A backed-up copy that the same statement has not written off by the time it comes to this key.
  predicate ACopyStands(t: Tables, album: AlbumId, before: seq<Key>, key: Key)
    requires key in t.items
  {
    exists other | other in t.items :: Stands(t, album, before, key, other) && IsCopy(t.items[key], t.items[other])
  }

  predicate Stands(t: Tables, album: AlbumId, before: seq<Key>, key: Key, other: Key)
    requires other in t.items
  {
    && other != key && t.items[other].state == Done
    && !(other in before && WritesOff(t.items, t.links, album, other))
  }

  lemma StillTheSamePhotos(t: Tables, album: AlbumId, before: seq<Key>, at: Time)
    ensures var mid := WriteOffAll(t.items, t.links, album, before, at);
      mid.Keys == t.items.Keys && forall a, b :: a in t.items && b in t.items ==>
        (IsCopy(t.items[a], t.items[b]) <==> IsCopy(mid[a], mid[b]))
  {
    WriteOffMeaning(t.items, t.links, album, before, at);
  }

  lemma CopiesSoFar(t: Tables, album: AlbumId, before: seq<Key>, at: Time, key: Key)
    requires key in t.items
    ensures key in WriteOffAll(t.items, t.links, album, before, at)
    ensures ACopyRemains(WriteOffAll(t.items, t.links, album, before, at), key) <==> ACopyStands(t, album, before, key)
  {
    StillTheSamePhotos(t, album, before, at);
    hide IsCopy, WritesOff;
    WriteOffMeaning(t.items, t.links, album, before, at);
  }

  /**
   Who is asked about: of the items one statement writes off, exactly those of which no copy stands
   when it comes to them. Of two copies that depart together it is the later.
   */
  lemma {:induction false} AskedExactly(t: Tables, album: AlbumId, departed: seq<Key>, at: Time, i: nat)
    requires i < |departed| && departed[i] !in departed[..i]
    requires WritesOff(t.items, t.links, album, departed[i])
    ensures departed[i] in WriteOffAll(t.items, t.links, album, departed, at)
    ensures WriteOffAll(t.items, t.links, album, departed, at)[departed[i]].needsReview
      <==> !ACopyStands(t, album, departed[..i], departed[i])
    decreases |departed|
  {
    hide ACopyRemains, ACopyStands;
    var front, key := departed[..|departed| - 1], departed[i];
    WriteOffMeaning(t.items, t.links, album, front, at);
    if i == |front| {
      CopiesSoFar(t, album, front, at, key);
    } else {
      assert front[..i] == departed[..i] && front[i] == key;
      AskedExactly(t, album, front, at, i);
      assert key in front;
    }
  }

  /**
   The same in the columns. A row written off by a statement is put up for review exactly if no done
   row, of those the statement has not already written off when it comes to it, has its hash, or its
   file name and capture date at a size recorded no smaller.
   */
  lemma AskedInTheColumns(t: Tables, album: AlbumId, departed: seq<Key>, at: Time, i: nat)
    requires i < |departed| && departed[i] !in departed[..i] && departed[i] in t.items
    requires t.items[departed[i]].missingSince.None?
    requires forall a :: (a, departed[i]) in t.links ==> a == album
    ensures var after := WriteOffAll(t.items, t.links, album, departed, at);
      && departed[i] in after && after[departed[i]].state == MissingUpstream
      && (after[departed[i]].needsReview <==>
            !exists other :: other in t.items && StillDone(t, album, departed[..i], departed[i], other)
               && var row, copy := t.items[departed[i]], t.items[other];
                  || (row.sha.Some? && copy.sha == row.sha)
                  || (&& row.filename != "" && copy.filename == row.filename
                      && row.captured.Some? && copy.captured == row.captured
                      && row.size.Some? && copy.size.Some? && copy.size.value >= row.size.value))
  {
    var key := departed[i];
    assert WritesOff(t.items, t.links, album, key);
    AskedExactly(t, album, departed, at, i);
    WriteOffMeaning(t.items, t.links, album, departed, at);
    forall other | other in t.items
      ensures Stands(t, album, departed[..i], key, other) <==> StillDone(t, album, departed[..i], key, other)
    {
      OnlyLinkedHere(t, album, other);
    }
  }

  predicate StillDone(t: Tables, album: AlbumId, before: seq<Key>, key: Key, other: Key)
    requires other in t.items
  {
    && other != key && t.items[other].state == Done
    && (other in before && t.items[other].missingSince.None? ==>
          exists link | link in t.links :: link.1 == other && link.0 != album)
  }

  lemma OnlyLinkedHere(t: Tables, album: AlbumId, key: Key)
    requires key in t.items
    ensures WritesOff(t.items, t.links, album, key) <==>
      t.items[key].missingSince.None? && !exists link | link in t.links :: link.1 == key && link.0 != album
  {
  }

  // A backed-up row of other bytes that passes for a copy by name, second and size, still standing.
  predicate ANamesakeStands(t: Tables, album: AlbumId, before: seq<Key>, key: Key)
    requires key in t.items
  {
    exists other | other in t.items ::
      && Stands(t, album, before, key, other)
      && t.items[other].sha != t.items[key].sha && SameNameCopy(t.items[key], t.items[other])
  }

  predicate AnotherHolderStands(t: Tables, album: AlbumId, before: seq<Key>, key: Key)
    requires key in t.items
  {
    exists other | other in t.items ::
      Stands(t, album, before, key, other) && SameBytesCopy(t.items[key], t.items[other])
  }

  /**
   The last holder of some bytes goes with a question exactly if no namesake of other bytes stands
   when it goes; while another holder stands there is none.
   */
  lemma TheLastCopyAsks(t: Tables, album: AlbumId, departed: seq<Key>, at: Time, i: nat)
    requires i < |departed| && departed[i] !in departed[..i]
    requires WritesOff(t.items, t.links, album, departed[i]) && t.items[departed[i]].sha.Some?
    ensures departed[i] in WriteOffAll(t.items, t.links, album, departed, at)
    ensures var asked := WriteOffAll(t.items, t.links, album, departed, at)[departed[i]].needsReview;
      if AnotherHolderStands(t, album, departed[..i], departed[i]) then !asked
      else asked <==> !ANamesakeStands(t, album, departed[..i], departed[i])
  {
    AskedExactly(t, album, departed, at, i);
    var before, key := departed[..i], departed[i];
    if AnotherHolderStands(t, album, before, key) {
      var other :| other in t.items && Stands(t, album, before, key, other)
                   && SameBytesCopy(t.items[key], t.items[other]);
      assert IsCopy(t.items[key], t.items[other]);
    } else if ANamesakeStands(t, album, before, key) {
      var other :| other in t.items && Stands(t, album, before, key, other)
                   && SameNameCopy(t.items[key], t.items[other]);
      assert IsCopy(t.items[key], t.items[other]);
    }
  }

  // Every row of some bytes is written off.
  ghost predicate AllWrittenOff(l: Ledger, bytes: Digest) {
    forall k :: k in l.t.items && l.t.items[k].sha == Some(bytes) ==> k in l.off
  }

  // Nothing of other bytes stands in for any of these.
  ghost predicate NoStrangerStandsIn(l: Ledger, bytes: Digest) {
    forall p: (Key, Key) :: p in l.standIns && p.0 in l.t.items && l.t.items[p.0].sha == Some(bytes) ==>
      p.1 in l.t.items && l.t.items[p.1].sha == Some(bytes)
  }

  lemma {:induction false} ChainStaysInClass(l: Ledger, bytes: Digest, key: Key, chain: seq<Key>, i: nat)
    requires NoStrangerStandsIn(l, bytes) && IsChain(l, key, chain) && i < |chain|
    requires key in l.t.items && l.t.items[key].sha == Some(bytes)
    ensures chain[i] in l.t.items && l.t.items[chain[i]].sha == Some(bytes)
  {
    if i > 0 {
      ChainStaysInClass(l, bytes, key, chain, i - 1);
      assert (chain[i - 1], chain[i]) in l.standIns;
    }
  }

  /** When every holder of some bytes stands written off, and no stranger for any, a question stands about one. */
  lemma AClassGoneIsAskedAbout(l: Ledger, bytes: Digest, key: Key)
    requires NoneLostSilently(l) && AllWrittenOff(l, bytes) && NoStrangerStandsIn(l, bytes)
    requires key in l.t.items && l.t.items[key].sha == Some(bytes)
    ensures exists k :: k in l.t.items && l.t.items[k].sha == Some(bytes) && k in l.asked
  {
    var chain :| IsChain(l, key, chain);
    ChainStaysInClass(l, bytes, key, chain, |chain| - 1);
  }

  /** A larger namesake of other bytes is enough to let the last copy go unasked. */
  lemma ANamesakeKeepsItQuiet() returns (t: Tables, bytes: Digest)
    ensures SoundRows(t) && 1 in t.items && t.items[1].sha == Some(bytes)
    ensures forall k :: k in t.items && t.items[k].sha == Some(bytes) ==> k == 1
    ensures var l := Entered(Ledger(t, {}, {}, {}), Reconcile(Library, [1], 7));
      AllWrittenOff(l, bytes) && 1 in l.off && l.asked == {} && ANamesakeStands(t, Library, [], 1)
  {
    bytes := Sha256([1]);
    var small := Row("a.jpg", Some(5), Some(1), Some(bytes), Done, 0, None, Some(Pool(1, "a.jpg")), Some(6), None,
                     false, "", false);
    var large := small.(size := Some(2), sha := Some(Sha256([1, 2])), localPath := Some(Pool(2, "a.jpg")));
    var items := map[1 := small, 2 := large];
    t := Tables(items, {(Library, 1), (Library, 2)}, map[], map[]);
    var l := Ledger(t, {}, {}, {});
    assert [1][..0] == [];
    assert RowsEntered(l, t.links, Library, [], 7) == l;
    assert IsCopy(small, items[2]);
    assert ACopyRemains(items, 1);
    assert RowsEntered(l, t.links, Library, [1], 7) == RowEntered(l, t.links, Library, 1, 7);
    assert WriteOffAll(items, t.links, Library, [1], 7) == WriteOffOne(items, t.links, Library, 1, 7);
    assert Stands(t, Library, [], 1, 2) && SameNameCopy(items[1], items[2]);
  }
}
