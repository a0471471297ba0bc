/**
 The one thing that deletes a file of the pool: the duplicates command, which removes what is written
 off while a copy of the photograph is backed up. internal/store/twins.go and
 internal/syncer/twins.go.
 */
module Twins {
  import opened Basics
  import opened StoreState
  import opened StoreClass
  import opened FileSystem
  import opened PoolDisk

  // ---- Pairing each written-off item with its best copy ----

  datatype Pairing = Pairing(writtenOff: Key, kept: Key, sameBytes: bool)

  // The two joins of the query: each written-off row with a file, beside each backed-up copy of it.
  predicate Joins(items: map<Key, Row>, p: Pairing) {
    && p.writtenOff in items && p.kept in items && p.writtenOff != p.kept
    && items[p.writtenOff].state == MissingUpstream && items[p.writtenOff].localPath.Some?
    && items[p.kept].state == Done && items[p.kept].localPath.Some?
    && (if p.sameBytes then SameBytesCopy(items[p.writtenOff], items[p.kept])
        else SameNameCopy(items[p.writtenOff], items[p.kept]))
  }

  // Sorting NULL before every number, as SQLite does.
  function Rank(n: Option<int>): (bool, int) {
    match n case None => (false, 0) case Some(i) => (true, i)
  }

  predicate RankBelow(a: (bool, int), b: (bool, int)) {
    (!a.0 && b.0) || (a.0 == b.0 && a.1 < b.1)
  }

  function SizeRank(items: map<Key, Row>, k: Key): (bool, int) {
    Rank(if k in items then items[k].size else None)
  }

  // At least as good a copy: the same bytes before the same name, and then the larger.
  predicate AsGood(items: map<Key, Row>, p: Pairing, q: Pairing) {
    || (p.sameBytes && !q.sameBytes)
    || (p.sameBytes == q.sameBytes && !RankBelow(SizeRank(items, p.kept), SizeRank(items, q.kept)))
  }

  // The earlier written-off photo first, the undated before any, then by key; and of its copies the better.
  predicate InOrder(items: map<Key, Row>, p: Pairing, q: Pairing)
    requires Joins(items, p) && Joins(items, q)
  {
    var a, b := Rank(items[p.writtenOff].captured), Rank(items[q.writtenOff].captured);
    || RankBelow(a, b)
    || (a == b && p.writtenOff < q.writtenOff)
    || (p.writtenOff == q.writtenOff && AsGood(items, p, q))
  }

  ghost predicate AnswersTheQuery(items: map<Key, Row>, rows: seq<Pairing>) {
    && (forall p :: p in rows <==> Joins(items, p))
    && (forall i, j :: 0 <= i < j < |rows| ==> InOrder(items, rows[i], rows[j]))
  }

  // Every written-off item that has a copy, once, beside a copy as good as any it has.
  ghost predicate PairedOnce(items: map<Key, Row>, pairs: seq<Pairing>) {
    && (forall i :: 0 <= i < |pairs| ==> Joins(items, pairs[i]))
    && (forall i, j :: 0 <= i < j < |pairs| ==> pairs[i].writtenOff != pairs[j].writtenOff)
    && (forall q :: Joins(items, q) ==>
          exists i :: 0 <= i < |pairs| && pairs[i].writtenOff == q.writtenOff && AsGood(items, pairs[i], q))
  }

  // Some pairing of the item is as good a copy as this one.
  ghost predicate Covered(items: map<Key, Row>, pairs: seq<Pairing>, q: Pairing) {
    exists a :: 0 <= a < |pairs| && pairs[a].writtenOff == q.writtenOff && AsGood(items, pairs[a], q)
  }

  lemma CoveredStill(items: map<Key, Row>, pairs: seq<Pairing>, more: seq<Pairing>, q: Pairing)
    requires Covered(items, pairs, q)
    ensures Covered(items, pairs + more, q)
  {
    var a :| 0 <= a < |pairs| && pairs[a].writtenOff == q.writtenOff && AsGood(items, pairs[a], q);
    assert (pairs + more)[a] == pairs[a];
  }

  lemma CoveredByLast(items: map<Key, Row>, rows: seq<Pairing>, i: nat, pairs: seq<Pairing>)
    requires AnswersTheQuery(items, rows) && i < |rows| && pairs != []
    requires pairs[|pairs| - 1] in rows[..i] && pairs[|pairs| - 1].writtenOff == rows[i].writtenOff
    ensures Covered(items, pairs, rows[i])
  {
    var j :| 0 <= j < i && rows[j] == pairs[|pairs| - 1];
    assert rows[j] in rows && rows[i] in rows;
    assert InOrder(items, rows[j], rows[i]);
  }

  /** Keeps the first row of each written-off item, which is the best of them. */
  method FirstOfEach(items: map<Key, Row>, rows: seq<Pairing>) returns (pairs: seq<Pairing>)
    requires AnswersTheQuery(items, rows)
    ensures PairedOnce(items, pairs)
  {
    hide Covered, InOrder, Joins, AsGood;
    pairs := [];
    for i := 0 to |rows|
      invariant pairs == [] <==> i == 0
      invariant i > 0 ==> pairs[|pairs| - 1].writtenOff == rows[i - 1].writtenOff
      invariant forall p :: p in pairs ==> p in rows[..i]
      invariant forall a, b :: 0 <= a < b < |pairs| ==> pairs[a].writtenOff != pairs[b].writtenOff
      invariant forall q :: q in rows[..i] ==> Covered(items, pairs, q)
    {
      assert rows[..i + 1] == rows[..i] + [rows[i]];
      if pairs == [] || pairs[|pairs| - 1].writtenOff != rows[i].writtenOff {
        forall a | 0 <= a < |pairs|
          ensures pairs[a].writtenOff != rows[i].writtenOff
        {
          NeverAgain(items, rows, i, pairs[a]);
        }
        forall q | q in rows[..i]
          ensures Covered(items, pairs + [rows[i]], q)
        {
          CoveredStill(items, pairs, [rows[i]], q);
        }
        pairs := pairs + [rows[i]];
        CoveredByItself(items, pairs);
      } else {
        CoveredByLast(items, rows, i, pairs);
      }
    }
    assert rows[..|rows|] == rows;
    EveryPairCovered(items, rows, pairs);
  }

  lemma CoveredByItself(items: map<Key, Row>, pairs: seq<Pairing>)
    requires pairs != []
    ensures Covered(items, pairs, pairs[|pairs| - 1])
  {
    assert AsGood(items, pairs[|pairs| - 1], pairs[|pairs| - 1]);
  }

  lemma EveryPairCovered(items: map<Key, Row>, rows: seq<Pairing>, pairs: seq<Pairing>)
    requires AnswersTheQuery(items, rows)
    requires forall p :: p in pairs ==> p in rows
    requires forall a, b :: 0 <= a < b < |pairs| ==> pairs[a].writtenOff != pairs[b].writtenOff
    requires forall q :: q in rows ==> Covered(items, pairs, q)
    ensures PairedOnce(items, pairs)
  {
    forall q | Joins(items, q)
      ensures exists i :: 0 <= i < |pairs| && pairs[i].writtenOff == q.writtenOff && AsGood(items, pairs[i], q)
    {
      assert q in rows;
      assert Covered(items, pairs, q);
    }
    forall i | 0 <= i < |pairs|
      ensures Joins(items, pairs[i])
    {
      assert pairs[i] in pairs;
    }
  }

  // Once the order has moved past a written-off item it does not come back to it.
  lemma NeverAgain(items: map<Key, Row>, rows: seq<Pairing>, i: nat, p: Pairing)
    requires AnswersTheQuery(items, rows) && 0 < i < |rows|
    requires p in rows[..i] && rows[i - 1].writtenOff != rows[i].writtenOff
    ensures p.writtenOff != rows[i].writtenOff
  {
    var j :| 0 <= j < i && rows[j] == p;
    assert rows[i] in rows && rows[i - 1] in rows && p in rows;
    assert j < i - 1 ==> InOrder(items, rows[j], rows[i - 1]);
    assert InOrder(items, rows[i - 1], rows[i]);
  }

  // In the columns: the copy of an item by its bytes, and the copy by its name, second and size.
  predicate SharesItsHash(items: map<Key, Row>, w: Key, c: Key)
    requires w in items && c in items
  {
    c != w && items[c].state == Done && items[c].localPath.Some? && items[w].sha.Some? && items[c].sha == items[w].sha
  }

  predicate SharesItsNameNoSmaller(items: map<Key, Row>, w: Key, c: Key)
    requires w in items && c in items
  {
    && c != w && items[c].state == Done && items[c].localPath.Some?
    && items[w].filename != "" && items[c].filename == items[w].filename
    && items[w].captured.Some? && items[c].captured == items[w].captured
    && items[w].size.Some? && items[c].size.Some? && items[w].size.value <= items[c].size.value
  }

  lemma JoinsInTheColumns(items: map<Key, Row>, w: Key, c: Key)
    requires w in items && c in items
    ensures Joins(items, Pairing(w, c, true)) <==>
      items[w].state == MissingUpstream && items[w].localPath.Some? && SharesItsHash(items, w, c)
    ensures Joins(items, Pairing(w, c, false)) <==>
      items[w].state == MissingUpstream && items[w].localPath.Some? && SharesItsNameNoSmaller(items, w, c)
  {
  }

  /**
   Which items a pass comes to: a written-off item with a file, exactly if some backed-up row shares
   its hash, or its name and second at no smaller a size.
   */
  lemma WhoIsPaired(items: map<Key, Row>, pairs: seq<Pairing>, w: Key)
    requires PairedOnce(items, pairs) && w in items
    ensures (exists i :: 0 <= i < |pairs| && pairs[i].writtenOff == w) <==>
      && items[w].state == MissingUpstream && items[w].localPath.Some?
      && exists c :: c in items && (SharesItsHash(items, w, c) || SharesItsNameNoSmaller(items, w, c))
  {
    hide SharesItsHash, SharesItsNameNoSmaller, AsGood;
    if i :| 0 <= i < |pairs| && pairs[i].writtenOff == w {
      JoinsInTheColumns(items, w, pairs[i].kept);
      assert pairs[i] == Pairing(w, pairs[i].kept, pairs[i].sameBytes);
    }
    if items[w].state == MissingUpstream && items[w].localPath.Some? {
      if c :| c in items && (SharesItsHash(items, w, c) || SharesItsNameNoSmaller(items, w, c)) {
        JoinsInTheColumns(items, w, c);
        assert Joins(items, Pairing(w, c, SharesItsHash(items, w, c)));
      }
    }
  }

  /** Beside what: a row that shares its hash if any does, and of such rows one recorded no smaller than any other. */
  lemma PairedWithTheBest(items: map<Key, Row>, pairs: seq<Pairing>, i: nat, c: Key)
    requires PairedOnce(items, pairs) && i < |pairs| && c in items
    ensures var p := pairs[i];
      && p.writtenOff in items && p.kept in items
      && (if p.sameBytes then SharesItsHash(items, p.writtenOff, p.kept)
          else SharesItsNameNoSmaller(items, p.writtenOff, p.kept))
      && (SharesItsHash(items, p.writtenOff, c) ==> p.sameBytes)
      && ((if p.sameBytes then SharesItsHash(items, p.writtenOff, c) else SharesItsNameNoSmaller(items, p.writtenOff, c))
          && items[c].size.Some? ==>
            items[p.kept].size.Some? && items[p.kept].size.value >= items[c].size.value)
  {
    var p := pairs[i];
    JoinsInTheColumns(items, p.writtenOff, p.kept);
    JoinsInTheColumns(items, p.writtenOff, c);
    AsGoodAsAny(items, pairs, i, Pairing(p.writtenOff, c, true));
    AsGoodAsAny(items, pairs, i, Pairing(p.writtenOff, c, false));
    hide PairedOnce;
  }

  lemma AsGoodAsAny(items: map<Key, Row>, pairs: seq<Pairing>, i: nat, q: Pairing)
    requires PairedOnce(items, pairs) && i < |pairs| && pairs[i].writtenOff == q.writtenOff
    ensures Joins(items, pairs[i])
    ensures Joins(items, q) ==> AsGood(items, pairs[i], q)
  {
  }

  // ---- Removing them ----

  datatype Removal = Removal(pairing: Pairing, refused: bool, removed: bool)

  datatype Cleanup = Cleanup(removals: seq<Removal>, removed: nat, freed: nat, refused: nat)

  // The bytes of the files these removals removed.
  function FreedBy(items: map<Key, Row>, removals: seq<Removal>): nat {
    if removals == [] then 0
    else
      var last := removals[|removals| - 1];
      FreedBy(items, removals[..|removals| - 1])
      + match last case Removal(pairing, _, removed) =>
          if removed && pairing.writtenOff in items && items[pairing.writtenOff].size.Some? then
            items[pairing.writtenOff].size.value
          else 0
  }

  lemma FreedNext(items: map<Key, Row>, removals: seq<Removal>, next: Removal)
    ensures FreedBy(items, removals + [next]) == FreedBy(items, removals)
      + if next.removed && next.pairing.writtenOff in items then SizeOf(items[next.pairing.writtenOff]) else 0
  {
    assert (removals + [next])[..|removals|] == removals;
  }

  // The tables without some rows and everything that points at them.
  function WithoutAll(t: Tables, gone: set<Key>): Tables {
    Tables(t.items - gone, (set link | link in t.links && link.1 !in gone), t.albums, t.selection - gone)
  }

  function PathOf(items: map<Key, Row>, k: Key): Path
    requires k in items && items[k].localPath.Some?
  {
    items[k].localPath.value
  }

  // The kept copy of a pairing is there and reads as what was recorded for it.
  predicate KeptIsIntact(items: map<Key, Row>, d: Disk, p: Pairing)
    requires Joins(items, p)
  {
    HashesTo(d, PathOf(items, p.kept), items[p.kept].sha)
  }

  // The names some written-off files had are gone; no other name and no file's bytes are touched.
  ghost predicate OnlyUnlinked(items: map<Key, Row>, d: Disk, e: Disk, unlinked: set<Key>)
    requires forall k :: k in unlinked ==> k in items && items[k].localPath.Some?
  {
    && e.data == d.data
    && (forall q :: q in e.names ==> q in d.names && e.names[q] == d.names[q])
    && (forall q :: q in d.names && q !in e.names ==> exists k :: k in unlinked && PathOf(items, k) == q)
    && (forall k :: k in unlinked ==> PathOf(items, k) !in e.names)
  }

  lemma KeptStaysIntact(items: map<Key, Row>, d: Disk, e: Disk, unlinked: set<Key>, p: Pairing)
    requires PathsAreTheirOwn(items) && Joins(items, p)
    requires forall k :: k in unlinked ==> k in items && items[k].state == MissingUpstream && items[k].localPath.Some?
    requires OnlyUnlinked(items, d, e, unlinked)
    ensures KeptIsIntact(items, e, p) <==> KeptIsIntact(items, d, p)
  {
    assert forall k :: k in unlinked ==> k != p.kept && PathOf(items, k).key == k;
    assert PathOf(items, p.kept).key == p.kept;
  }

  lemma UnlinkOne(items: map<Key, Row>, d: Disk, e: Disk, unlinked: set<Key>, k: Key)
    requires forall j :: j in unlinked + {k} ==> j in items && items[j].localPath.Some?
    requires OnlyUnlinked(items, d, e, unlinked)
    ensures OnlyUnlinked(items, d, Removed(e, PathOf(items, k)), unlinked + {k})
  {
    var path, f := PathOf(items, k), Removed(e, PathOf(items, k));
    forall q | q in d.names && q !in f.names
      ensures exists j :: j in unlinked + {k} && PathOf(items, j) == q
    {
      if q == path {
        assert k in unlinked + {k} && PathOf(items, k) == q;
      } else {
        var j :| j in unlinked && PathOf(items, j) == q;
        assert j in unlinked + {k};
      }
    }
  }

  lemma ForgetOneMore(t: Tables, gone: set<Key>, k: Key)
    ensures Apply(WithoutAll(t, gone), Forget(k)) == WithoutAll(t, gone + {k})
  {
    var u, v := Apply(WithoutAll(t, gone), Forget(k)), WithoutAll(t, gone + {k});
    assert u.items == v.items && u.links == v.links && u.selection == v.selection;
  }

  // How far a pass has got: the rows forgotten are the ones whose file is gone, but for the one
  // between the two statements when it stopped.
  ghost predicate Cleaned(t: Tables, d: Disk, u: Tables, e: Disk, pairs: seq<Pairing>, unlinked: set<Key>,
                          forgotten: set<Key>)
  {
    && (forall k :: k in unlinked ==>
          && k in t.items && t.items[k].localPath.Some? && t.items[k].state == MissingUpstream
          && exists i :: 0 <= i < |pairs| && pairs[i].writtenOff == k && Joins(t.items, pairs[i])
                         && KeptIsIntact(t.items, e, pairs[i]))
    && OnlyUnlinked(t.items, d, e, unlinked)
    && forgotten <= unlinked
    && u == WithoutAll(t, forgotten)
  }

  /**
   What a pass may have done to the backup: a name it removed belonged to a written-off item whose
   kept copy is still a backed-up row, as it was, over a file that still hashes to its record — for
   a copy of the same bytes, to the written-off item's own hash. No other name, no file's bytes and
   no other row changed.
   */
  lemma NothingLostByCleaning(t: Tables, d: Disk, u: Tables, e: Disk, pairs: seq<Pairing>, unlinked: set<Key>,
                              forgotten: set<Key>, q: Path)
    returns (p: Pairing)
    requires PathsAreTheirOwn(t.items) && Cleaned(t, d, u, e, pairs, unlinked, forgotten)
    requires q in d.names && q !in e.names
    ensures p in pairs && Joins(t.items, p) && q == PathOf(t.items, p.writtenOff)
    ensures p.kept in u.items && u.items[p.kept] == t.items[p.kept] && u.items[p.kept].state == Done
    ensures HashesTo(e, PathOf(t.items, p.kept), u.items[p.kept].sha)
    ensures p.sameBytes ==> HashesTo(e, PathOf(t.items, p.kept), t.items[p.writtenOff].sha)
    ensures t.items[p.writtenOff].state == MissingUpstream && p.writtenOff != p.kept
    ensures !p.sameBytes ==>
      var gone, kept := t.items[p.writtenOff], t.items[p.kept];
      && gone.filename == kept.filename && gone.filename != ""
      && gone.captured.Some? && kept.captured == gone.captured
      && gone.size.Some? && kept.size.Some? && kept.size.value >= gone.size.value
    ensures forall k :: k in t.items && k !in unlinked ==> k in u.items && u.items[k] == t.items[k]
  {
    var k :| k in unlinked && PathOf(t.items, k) == q;
    var i :| 0 <= i < |pairs| && pairs[i].writtenOff == k && Joins(t.items, pairs[i])
             && KeptIsIntact(t.items, e, pairs[i]);
    p := pairs[i];
    assert p.kept !in forgotten;
  }

  lemma NothingCleaned(t: Tables, d: Disk, pairs: seq<Pairing>)
    ensures Cleaned(t, d, t, d, pairs, {}, {})
  {
    assert WithoutAll(t, {}) == t;
  }

  // What the pass reads next is as it was when the pairings were made.
  lemma TwinStands(t: Tables, d: Disk, u: Tables, e: Disk, pairs: seq<Pairing>, unlinked: set<Key>,
                   forgotten: set<Key>, i: nat)
    requires PathsAreTheirOwn(t.items) && PairedOnce(t.items, pairs) && i < |pairs|
    requires Cleaned(t, d, u, e, pairs, unlinked, forgotten) && pairs[i].writtenOff !in forgotten
    ensures var p := pairs[i];
      && Joins(t.items, p)
      && p.kept in u.items && u.items[p.kept] == t.items[p.kept]
      && p.writtenOff in u.items && u.items[p.writtenOff] == t.items[p.writtenOff]
      && (KeptIsIntact(t.items, e, p) <==> KeptIsIntact(t.items, d, p))
  {
    assert pairs[i].kept !in forgotten;
    KeptStaysIntact(t.items, d, e, unlinked, pairs[i]);
  }

  lemma UnlinkedOneMore(t: Tables, d: Disk, u: Tables, e: Disk, pairs: seq<Pairing>, unlinked: set<Key>,
                        forgotten: set<Key>, i: nat)
    requires PathsAreTheirOwn(t.items) && PairedOnce(t.items, pairs) && i < |pairs|
    requires Cleaned(t, d, u, e, pairs, unlinked, forgotten) && KeptIsIntact(t.items, d, pairs[i])
    ensures var w := pairs[i].writtenOff;
      var f := Removed(e, PathOf(t.items, w));
      && Cleaned(t, d, u, f, pairs, unlinked + {w}, forgotten)
      && Cleaned(t, d, Apply(u, Forget(w)), f, pairs, unlinked + {w}, forgotten + {w})
  {
    hide OnlyUnlinked, KeptIsIntact;
    var w := pairs[i].writtenOff;
    var f := Removed(e, PathOf(t.items, w));
    UnlinkOne(t.items, d, e, unlinked, w);
    forall j | 0 <= j < |pairs| && KeptIsIntact(t.items, e, pairs[j])
      ensures KeptIsIntact(t.items, f, pairs[j])
    {
      KeptStaysIntact(t.items, d, e, unlinked, pairs[j]);
      KeptStaysIntact(t.items, d, f, unlinked + {w}, pairs[j]);
    }
    KeptStaysIntact(t.items, d, f, unlinked + {w}, pairs[i]);
    ForgetOneMore(t, forgotten, w);
  }

  // First the file, then its row. Where the file is gone already, an earlier pass got no further.
  method ForgetTwin(store: Store, pool: Pool, ghost t: Tables, ghost d: Disk, pairs: seq<Pairing>, i: nat,
                    ghost unlinked: set<Key>, forgetWorks: bool)
    returns (done: bool, ghost unlinkedNow: set<Key>)
    requires PathsAreTheirOwn(t.items) && PairedOnce(t.items, pairs) && i < |pairs|
    requires Cleaned(t, d, store.Contents(), pool.d, pairs, unlinked, unlinked)
    requires pairs[i].writtenOff !in unlinked && KeptIsIntact(t.items, d, pairs[i])
    modifies store, pool
    ensures done ==> unlinkedNow == unlinked + {pairs[i].writtenOff}
                     && Cleaned(t, d, store.Contents(), pool.d, pairs, unlinkedNow, unlinkedNow)
    ensures !done ==> unlinked <= unlinkedNow <= unlinked + {pairs[i].writtenOff}
                      && Cleaned(t, d, store.Contents(), pool.d, pairs, unlinkedNow, unlinked)
    ensures old(pool.faults) == [] ==> pool.faults == [] && (forgetWorks ==> done)
  {
    TwinStands(t, d, store.Contents(), pool.d, pairs, unlinked, unlinked, i);
    UnlinkedOneMore(t, d, store.Contents(), pool.d, pairs, unlinked, unlinked, i);
    hide Cleaned, PairedOnce, KeptIsIntact, WithoutAll;
    var twin := pairs[i].writtenOff;
    var ok, missing := pool.Remove(store.items[twin].localPath.value);
    if !ok && !missing {
      return false, unlinked;
    }
    unlinkedNow := unlinked + {twin};
    if !forgetWorks {
      return false, unlinkedNow;
    }
    store.Perform(Forget(twin));
    done := true;
  }

  // What a pass says of each pairing it came to: removed or refused, and on a disk that answers
  // refused exactly if the kept copy is not intact.
  ghost predicate Reported(items: map<Key, Row>, d: Disk, pairs: seq<Pairing>, removals: seq<Removal>, gone: set<Key>,
                           remove: bool, calm: bool)
    requires PairedOnce(items, pairs)
  {
    && |removals| <= |pairs|
    && (forall i :: 0 <= i < |removals| ==> ReportedAs(items, d, pairs[i], removals[i], gone, remove, calm))
  }

  ghost predicate ReportedAs(items: map<Key, Row>, d: Disk, p: Pairing, r: Removal, gone: set<Key>, remove: bool,
                             calm: bool)
    requires Joins(items, p)
  {
    && r.pairing == p
    && (r.removed <==> p.writtenOff in gone)
    && (r.removed <==> remove && !r.refused)
    && (calm ==> (r.refused <==> !KeptIsIntact(items, d, p)))
  }

  lemma NothingReported(items: map<Key, Row>, d: Disk, pairs: seq<Pairing>, remove: bool, calm: bool)
    requires PairedOnce(items, pairs)
    ensures Reported(items, d, pairs, [], {}, remove, calm)
  {
  }

  lemma ReportedNext(items: map<Key, Row>, d: Disk, pairs: seq<Pairing>, removals: seq<Removal>, gone: set<Key>,
                     remove: bool, calm: bool, i: nat, refused: bool)
    requires PairedOnce(items, pairs) && Reported(items, d, pairs, removals, gone, remove, calm)
    requires |removals| == i < |pairs| && pairs[i].writtenOff !in gone
    requires calm ==> (refused <==> !KeptIsIntact(items, d, pairs[i]))
    ensures Reported(items, d, pairs, removals + [Removal(pairs[i], refused, !refused && remove)],
                     if !refused && remove then gone + {pairs[i].writtenOff} else gone, remove, calm)
  {
    hide PairedOnce, Joins, ReportedAs, KeptIsIntact;
    TwinIsNew(items, pairs, i);
    var gone' := if !refused && remove then gone + {pairs[i].writtenOff} else gone;
    forall j | 0 <= j < i
      ensures ReportedAs(items, d, pairs[j], removals[j], gone', remove, calm)
    {
      ReportedStill(items, d, pairs[j], removals[j], gone, remove, calm, pairs[i].writtenOff);
    }
    ReportedNow(items, d, pairs[i], refused, gone, remove, calm);
  }

  lemma ReportedStill(items: map<Key, Row>, d: Disk, p: Pairing, r: Removal, gone: set<Key>, remove: bool, calm: bool,
                      other: Key)
    requires Joins(items, p) && ReportedAs(items, d, p, r, gone, remove, calm) && p.writtenOff != other
    ensures ReportedAs(items, d, p, r, gone + {other}, remove, calm)
  {
  }

  lemma ReportedNow(items: map<Key, Row>, d: Disk, p: Pairing, refused: bool, gone: set<Key>, remove: bool, calm: bool)
    requires Joins(items, p) && p.writtenOff !in gone && (calm ==> (refused <==> !KeptIsIntact(items, d, p)))
    ensures ReportedAs(items, d, p, Removal(p, refused, !refused && remove),
                       if !refused && remove then gone + {p.writtenOff} else gone, remove, calm)
  {
  }

  lemma TwinIsNew(items: map<Key, Row>, pairs: seq<Pairing>, i: nat)
    requires PairedOnce(items, pairs) && i < |pairs|
    ensures forall j :: 0 <= j <= i ==> Joins(items, pairs[j])
    ensures forall j :: 0 <= j < i ==> pairs[j].writtenOff != pairs[i].writtenOff
  {
  }

  // What re-reading the kept copies has found so far, each read once.
  ghost predicate VerdictsHold(t: Tables, d: Disk, pairs: seq<Pairing>, verified: map<Key, bool>, calm: bool)
    requires PairedOnce(t.items, pairs)
  {
    forall j :: 0 <= j < |pairs| && pairs[j].kept in verified ==>
      && (verified[pairs[j].kept] ==> KeptIsIntact(t.items, d, pairs[j]))
      && (calm ==> (verified[pairs[j].kept] <==> KeptIsIntact(t.items, d, pairs[j])))
  }

  method VerifyKept(store: Store, pool: Pool, ghost t: Tables, ghost d: Disk, pairs: seq<Pairing>, i: nat,
                    ghost unlinked: set<Key>, verified: map<Key, bool>, ghost calm: bool)
    returns (now: map<Key, bool>)
    requires PathsAreTheirOwn(t.items) && PairedOnce(t.items, pairs) && i < |pairs|
    requires Cleaned(t, d, store.Contents(), pool.d, pairs, unlinked, unlinked)
    requires pairs[i].writtenOff !in unlinked
    requires VerdictsHold(t, d, pairs, verified, calm) && (calm ==> pool.faults == [])
    modifies pool`faults
    ensures pairs[i].kept in now && VerdictsHold(t, d, pairs, now, calm) && (calm ==> pool.faults == [])
  {
    now := verified;
    var kept := pairs[i].kept;
    if kept !in verified {
      TwinStands(t, d, store.Contents(), pool.d, pairs, unlinked, unlinked, i);
      hide Cleaned, PairedOnce, VerdictsHold;
      var intact := pool.IsIntact(store.items[kept].localPath.value, store.items[kept].sha);
      VerdictsGrow(t, d, pairs, verified, calm, i, intact);
      now := verified[kept := intact];
    }
  }

  lemma VerdictsGrow(t: Tables, d: Disk, pairs: seq<Pairing>, verified: map<Key, bool>, calm: bool, i: nat, intact: bool)
    requires PairedOnce(t.items, pairs) && VerdictsHold(t, d, pairs, verified, calm) && i < |pairs|
    requires intact ==> KeptIsIntact(t.items, d, pairs[i])
    requires calm ==> (intact <==> KeptIsIntact(t.items, d, pairs[i]))
    ensures VerdictsHold(t, d, pairs, verified[pairs[i].kept := intact], calm)
  {
  }

  /**
   One pass over the pairings: verify the kept copy once however many items it stands in for, then
   unlink the written-off file, then forget its row. forgetFails says which of the forgetting
   statements fail, and upTo where the pass is cancelled. A pass on a disk and a store that answer
   forgets exactly the items whose kept copy is intact, whatever an earlier pass left half done.
   */
  method RemoveTwins(store: Store, pool: Pool, pairs: seq<Pairing>, remove: bool, upTo: nat, forgetFails: set<nat>)
    returns (cleanup: Cleanup, stoppedAt: Option<nat>, ghost unlinked: set<Key>, ghost forgotten: set<Key>)
    requires PairedOnce(store.items, pairs) && PathsAreTheirOwn(store.items)
    modifies store, pool
    ensures Cleaned(old(store.Contents()), old(pool.d), store.Contents(), pool.d, pairs, unlinked, forgotten)
    ensures !remove ==> unlinked == {}
    ensures stoppedAt.None? ==> unlinked == forgotten
    ensures stoppedAt.Some? ==> stoppedAt.value < |pairs| && unlinked - forgotten <= {pairs[stoppedAt.value].writtenOff}
    ensures old(pool.faults) == [] && forgetFails == {} ==> (stoppedAt.None? <==> upTo >= |pairs|)
    ensures cleanup.removed == |forgotten| && cleanup.freed == FreedBy(old(store.items), cleanup.removals)
    ensures |cleanup.removals| == if stoppedAt.Some? then stoppedAt.value else |pairs|
    ensures Reported(old(store.items), old(pool.d), pairs, cleanup.removals, forgotten, remove, old(pool.faults) == [])
    ensures remove ==> cleanup.removed + cleanup.refused == |cleanup.removals|
  {
    hide Cleaned, KeptIsIntact, VerdictsHold, FreedBy, Reported, PairedOnce;
    ghost var t, d, calm := store.Contents(), pool.d, pool.faults == [];
    cleanup, stoppedAt, unlinked, forgotten := Cleanup([], 0, 0, 0), None, {}, {};
    NothingFreed(t.items);
    NothingReported(t.items, d, pairs, remove, calm);
    var verified: map<Key, bool> := map[];
    NothingCleaned(t, d, pairs);
    NothingVerified(t, d, pairs, calm);
    for i := 0 to |pairs|
      invariant Cleaned(t, d, store.Contents(), pool.d, pairs, unlinked, unlinked)
      invariant unlinked == forgotten && i <= upTo
      invariant forall k :: k in unlinked ==> exists j :: 0 <= j < i && pairs[j].writtenOff == k
      invariant !remove ==> unlinked == {}
      invariant calm ==> pool.faults == []
      invariant VerdictsHold(t, d, pairs, verified, calm)
      invariant cleanup.removed == |unlinked| && cleanup.freed == FreedBy(t.items, cleanup.removals)
      invariant |cleanup.removals| == i && (remove ==> cleanup.removed + cleanup.refused == i)
      invariant Reported(t.items, d, pairs, cleanup.removals, unlinked, remove, calm)
    {
      if i >= upTo {
        return cleanup, Some(i), unlinked, forgotten;
      }
      TwinIsNew(t.items, pairs, i);
      verified := VerifyKept(store, pool, t, d, pairs, i, unlinked, verified, calm);
      Verdict(t, d, pairs, verified, calm, i);
      var removal := Removal(pairs[i], !verified[pairs[i].kept], verified[pairs[i].kept] && remove);
      FreedNext(t.items, cleanup.removals, removal);
      ReportedNext(t.items, d, pairs, cleanup.removals, unlinked, remove, calm, i, removal.refused);
      if verified[pairs[i].kept] && remove {
        TwinStands(t, d, store.Contents(), pool.d, pairs, unlinked, unlinked, i);
        var size := SizeOf(store.items[pairs[i].writtenOff]);
        var done, now := ForgetTwin(store, pool, t, d, pairs, i, unlinked, i !in forgetFails);
        unlinked := now;
        if !done {
          return cleanup, Some(i), unlinked, forgotten;
        }
        forgotten := unlinked;
        cleanup := cleanup.(removed := cleanup.removed + 1,
                            freed := cleanup.freed + size);
      }
      if !verified[pairs[i].kept] {
        cleanup := cleanup.(refused := cleanup.refused + 1);
      }
      cleanup := cleanup.(removals := cleanup.removals + [removal]);
    }
  }

  // A pairing of an item not forgotten is still one, over the same files.
  lemma StillJoins(t: Tables, d: Disk, u: Tables, e: Disk, pairs: seq<Pairing>, unlinked: set<Key>,
                   forgotten: set<Key>, p: Pairing)
    requires Cleaned(t, d, u, e, pairs, unlinked, forgotten)
    requires Joins(t.items, p) && p.writtenOff !in forgotten
    ensures Joins(u.items, p)
    ensures KeptIsIntact(u.items, e, p) <==> KeptIsIntact(t.items, e, p)
  {
  }

  /**
   A pass that stopped between unlinking a file and forgetting its row is finished by the next. The
   item is paired again, with a copy no worse, and a pass that comes to its end on a disk that answers
   forgets it exactly if that copy is intact — as it does if the pairing is the one made before.
   */
  lemma TheNextPassFinishes(t: Tables, d: Disk, u: Tables, e: Disk, pairs: seq<Pairing>, unlinked: set<Key>,
                            forgotten: set<Key>, twin: Key, again: seq<Pairing>, removals: seq<Removal>,
                            forgottenNow: set<Key>)
    returns (p: Pairing, i: nat)
    requires Cleaned(t, d, u, e, pairs, unlinked, forgotten) && twin in unlinked - forgotten
    requires PairedOnce(u.items, again) && |removals| == |again|
    requires Reported(u.items, e, again, removals, forgottenNow, true, true)
    ensures p in pairs && p.writtenOff == twin && Joins(u.items, p) && KeptIsIntact(u.items, e, p)
    ensures i < |again| && again[i].writtenOff == twin && AsGood(u.items, again[i], p)
    ensures twin in forgottenNow <==> KeptIsIntact(u.items, e, again[i])
    ensures p in again ==> twin in forgottenNow
  {
    p := CopyOfUnlinked(t, d, u, e, pairs, unlinked, forgotten, twin);
    i := PairedAgain(u.items, again, p);
    hide Cleaned, PairedOnce, Joins, AsGood, KeptIsIntact;
    assert ReportedAs(u.items, e, again[i], removals[i], forgottenNow, true, true);
  }

  lemma CopyOfUnlinked(t: Tables, d: Disk, u: Tables, e: Disk, pairs: seq<Pairing>, unlinked: set<Key>,
                       forgotten: set<Key>, twin: Key) returns (p: Pairing)
    requires Cleaned(t, d, u, e, pairs, unlinked, forgotten) && twin in unlinked - forgotten
    ensures p in pairs && p.writtenOff == twin && Joins(u.items, p) && KeptIsIntact(u.items, e, p)
  {
    var j :| 0 <= j < |pairs| && pairs[j].writtenOff == twin && Joins(t.items, pairs[j])
             && KeptIsIntact(t.items, e, pairs[j]);
    p := pairs[j];
    StillJoins(t, d, u, e, pairs, unlinked, forgotten, p);
  }

  lemma PairedAgain(items: map<Key, Row>, again: seq<Pairing>, p: Pairing) returns (i: nat)
    requires PairedOnce(items, again) && Joins(items, p)
    ensures i < |again| && again[i].writtenOff == p.writtenOff && AsGood(items, again[i], p)
    ensures forall m :: 0 <= m < |again| ==> Joins(items, again[m])
    ensures p in again ==> again[i] == p
  {
    i :| 0 <= i < |again| && again[i].writtenOff == p.writtenOff && AsGood(items, again[i], p);
  }

  lemma NothingFreed(items: map<Key, Row>)
    ensures FreedBy(items, []) == 0
  {
  }

  lemma NothingVerified(t: Tables, d: Disk, pairs: seq<Pairing>, calm: bool)
    requires PairedOnce(t.items, pairs)
    ensures VerdictsHold(t, d, pairs, map[], calm)
  {
  }

  lemma Verdict(t: Tables, d: Disk, pairs: seq<Pairing>, verified: map<Key, bool>, calm: bool, i: nat)
    requires PairedOnce(t.items, pairs) && VerdictsHold(t, d, pairs, verified, calm)
    requires i < |pairs| && pairs[i].kept in verified
    ensures verified[pairs[i].kept] ==> KeptIsIntact(t.items, d, pairs[i])
    ensures calm ==> (verified[pairs[i].kept] <==> KeptIsIntact(t.items, d, pairs[i]))
  {
  }
}
