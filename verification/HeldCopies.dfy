/** The store's two questions about rows that hold the same bytes: internal/store/copies.go. */
module HeldCopies {
  import opened Basics
  import opened StoreState

  predicate BackedUpWithAHash(row: Row) {
    row.state == Done && row.localPath.Some? && row.sha.Some?
  }

  // ORDER BY downloaded_at, media_key: a missing date comes first.
  predicate NoLater(items: map<Key, Row>, a: Key, b: Key)
    requires a in items && b in items
  {
    match (items[a].downloadedAt, items[b].downloadedAt)
    case (None, None) => a <= b
    case (None, Some(_)) => true
    case (Some(_), None) => false
    case (Some(s), Some(t)) => s < t || (s == t && a <= b)
  }

  // Every backed-up row with these bytes.
  function HoldersOf(items: map<Key, Row>, bytes: Digest): set<Key> {
    set k | k in items && BackedUpWithAHash(items[k]) && items[k].sha == Some(bytes)
  }

  predicate IsEarliest(items: map<Key, Row>, of: set<Key>, key: Key) {
    key in of && of <= items.Keys && forall other | other in of :: NoLater(items, key, other)
  }

  lemma OneMoreRow(items: map<Key, Row>, seen: set<Key>, held: Key, other: Key)
    requires IsEarliest(items, seen, held) && other in items
    ensures IsEarliest(items, seen + {other}, if NoLater(items, held, other) then held else other)
  {
  }

  /** The earliest downloaded of the rows, other than the item's own, that hold these bytes. */
  method HeldCopyOf(items: map<Key, Row>, bytes: Digest, key: Key) returns (held: Option<Key>)
    ensures held.None? <==> HoldersOf(items, bytes) - {key} == {}
    ensures held.Some? ==> IsEarliest(items, HoldersOf(items, bytes) - {key}, held.value)
    ensures held.None? ==> forall k :: k in items && k != key ==> !HasTheBytes(items[k], bytes)
    ensures held.Some? ==>
      && held.value in items && held.value != key && HasTheBytes(items[held.value], bytes)
      && forall k :: k in items && k != key && k != held.value && HasTheBytes(items[k], bytes) ==>
           DownloadedLater(items, held.value, k)
  {
    hide IsEarliest, NoLater, DownloadedLater, HasTheBytes;
    var left := HoldersOf(items, bytes) - {key};
    ghost var all, seen := left, {};
    held := None;
    while left != {}
      invariant seen + left == all <= items.Keys
      invariant held.None? <==> seen == {}
      invariant held.Some? ==> held.value in items && IsEarliest(items, seen, held.value)
      decreases |left|
    {
      var other :| other in left;
      if held.None? {
        OnlyRow(items, other);
        held := Some(other);
      } else {
        OneMoreRow(items, seen, held.value, other);
        if !NoLater(items, held.value, other) {
          held := Some(other);
        }
      }
      seen, left := seen + {other}, left - {other};
    }
    TheEarliestInTheColumns(items, bytes, key);
    if held.Some? {
      EarliestOfAll(items, all, held.value);
    }
  }

  // In the columns: backed up to a file with this hash.
  predicate HasTheBytes(row: Row, bytes: Digest) {
    row.state == Done && row.localPath.Some? && row.sha == Some(bytes)
  }

  // A row downloaded after another, or at the same moment under a later key; a row without a date
  // counts as downloaded before any with one.
  predicate DownloadedLater(items: map<Key, Row>, first: Key, second: Key)
    requires first in items && second in items
  {
    var a, b := items[first].downloadedAt, items[second].downloadedAt;
    || (a.None? && b.Some?)
    || (a.Some? && b.Some? && a.value < b.value)
    || (a == b && first < second)
  }

  lemma TheEarliestInTheColumns(items: map<Key, Row>, bytes: Digest, key: Key)
    ensures forall k :: k in HoldersOf(items, bytes) - {key} <==> k in items && k != key && HasTheBytes(items[k], bytes)
    ensures forall h, k :: h in items && k in items && h != k ==> (NoLater(items, h, k) <==> DownloadedLater(items, h, k))
  {
  }

  lemma EarliestOfAll(items: map<Key, Row>, of: set<Key>, h: Key)
    requires IsEarliest(items, of, h)
    ensures h in of && of <= items.Keys && forall k :: k in of ==> NoLater(items, h, k)
  {
  }

  lemma OnlyRow(items: map<Key, Row>, key: Key)
    requires key in items
    ensures IsEarliest(items, {} + {key}, key)
  {
  }

  lemma OneEarliest(items: map<Key, Row>, of: set<Key>, a: Key, b: Key)
    requires IsEarliest(items, of, a) && IsEarliest(items, of, b)
    ensures a == b
  {
    assert NoLater(items, a, b) && NoLater(items, b, a);
  }

  // ---- Groups ----

  // What the query answers: the rows whose bytes another row holds too, equal hashes together,
  // and within a hash the earliest download first.
  ghost predicate AnswersInOrder(items: map<Key, Row>, keys: seq<Key>) {
    && Distinct(keys)
    && (forall k :: k in keys <==>
          k in items && BackedUpWithAHash(items[k]) && |HoldersOf(items, items[k].sha.value)| > 1)
    && (forall i, j :: 0 <= i < j < |keys| && items[keys[i]].sha == items[keys[j]].sha ==>
          && NoLater(items, keys[i], keys[j])
          && (forall m :: i < m < j ==> items[keys[m]].sha == items[keys[i]].sha))
  }

  function Concat(groups: seq<seq<Key>>): seq<Key> {
    if groups == [] then [] else Concat(groups[..|groups| - 1]) + groups[|groups| - 1]
  }

  ghost predicate SameBytes(items: map<Key, Row>, group: seq<Key>) {
    && group != [] && group[0] in items
    && forall k :: k in group ==> k in items && items[k].sha == items[group[0]].sha
  }

  // Neighbouring groups hold different bytes.
  ghost predicate Split(items: map<Key, Row>, groups: seq<seq<Key>>) {
    && (forall g :: 0 <= g < |groups| ==> SameBytes(items, groups[g]))
    && (forall g :: 0 < g < |groups| ==> items[groups[g - 1][0]].sha != items[groups[g][0]].sha)
  }

  /** Gathers runs of equal hashes, appending to the last group in place. */
  method GatherRuns(items: map<Key, Row>, keys: seq<Key>) returns (groups: seq<seq<Key>>)
    requires forall k :: k in keys ==> k in items
    ensures Concat(groups) == keys
    ensures Split(items, groups)
  {
    groups := [];
    for i := 0 to |keys|
      invariant Concat(groups) == keys[..i]
      invariant Split(items, groups)
    {
      assert keys[..i + 1] == keys[..i] + [keys[i]];
      var last := |groups| - 1;
      if last >= 0 && items[groups[last][0]].sha == items[keys[i]].sha {
        ghost var before := groups;
        groups := groups[last := groups[last] + [keys[i]]];
        assert groups[..last] == before[..last];
        assert Concat(groups) == Concat(before) + [keys[i]];
      } else {
        assert (groups + [[keys[i]]])[..|groups|] == groups;
        groups := groups + [[keys[i]]];
      }
    }
    assert keys[..|keys|] == keys;
  }

  // Where group g begins in the concatenation.
  function Start(groups: seq<seq<Key>>, g: nat): nat
    requires g <= |groups|
  {
    |Concat(groups[..g])|
  }

  lemma {:induction false} ConcatAt(groups: seq<seq<Key>>, g: nat, j: nat)
    requires g < |groups| && j < |groups[g]|
    ensures Start(groups, g) + j < |Concat(groups)|
    ensures Concat(groups)[Start(groups, g) + j] == groups[g][j]
    decreases |groups|
  {
    var front := groups[..|groups| - 1];
    if g < |front| {
      ConcatAt(front, g, j);
      assert front[..g] == groups[..g];
    } else {
      assert groups[..g] == front;
    }
  }

  lemma {:induction false} ConcatHas(groups: seq<seq<Key>>, k: Key)
    ensures k in Concat(groups) <==> exists g :: 0 <= g < |groups| && k in groups[g]
  {
    if groups != [] {
      var front := groups[..|groups| - 1];
      ConcatHas(front, k);
      assert forall g :: 0 <= g < |front| ==> front[g] == groups[g];
    }
  }

  lemma {:induction false} StartsGrow(groups: seq<seq<Key>>, g: nat, h: nat)
    requires g < h <= |groups|
    ensures Start(groups, g) + |groups[g]| <= Start(groups, h)
    decreases h
  {
    assert groups[..h][..h - 1] == groups[..h - 1];
    if g < h - 1 {
      StartsGrow(groups, g, h - 1);
    }
  }

  // Two groups of the same bytes would have a group of other bytes between them.
  lemma GroupsDiffer(items: map<Key, Row>, keys: seq<Key>, groups: seq<seq<Key>>, g: nat, h: nat)
    requires AnswersInOrder(items, keys) && Concat(groups) == keys && Split(items, groups)
    requires g < h < |groups|
    ensures items[groups[g][0]].sha != items[groups[h][0]].sha
  {
    if items[groups[g][0]].sha == items[groups[h][0]].sha {
      ConcatAt(groups, g, 0);
      ConcatAt(groups, h, 0);
      ConcatAt(groups, g + 1, 0);
      StartsGrow(groups, g, h);
      StartsGrow(groups, g, g + 1);
      if g + 1 < h {
        StartsGrow(groups, g + 1, h);
      }
    }
  }

  /**
   The groups are the classes of rows that share their bytes, each complete, none of one row, and
   each led by the row every later copy should link to.
   */
  lemma GroupsAreTheClasses(items: map<Key, Row>, keys: seq<Key>, groups: seq<seq<Key>>, g: nat)
    requires AnswersInOrder(items, keys) && Concat(groups) == keys && Split(items, groups) && g < |groups|
    ensures groups[g][0] in items && items[groups[g][0]].sha.Some?
    ensures Elements(groups[g]) == HoldersOf(items, items[groups[g][0]].sha.value)
    ensures |groups[g]| > 1
    ensures Distinct(groups[g])
    ensures IsEarliest(items, Elements(groups[g]), groups[g][0])
  {
    var group := groups[g];
    ConcatAt(groups, g, 0);
    assert group[0] in keys;
    var bytes := items[group[0]].sha.value;
    forall k | k in group
      ensures k in HoldersOf(items, bytes)
    {
      ConcatHas(groups, k);
    }
    forall k | k in HoldersOf(items, bytes)
      ensures k in group
    {
      ConcatHas(groups, k);
      var h :| 0 <= h < |groups| && k in groups[h];
      if h < g {
        GroupsDiffer(items, keys, groups, h, g);
      } else if g < h {
        GroupsDiffer(items, keys, groups, g, h);
      }
    }
    assert Elements(group) == HoldersOf(items, bytes);
    forall i, j | 0 <= i < j < |group|
      ensures group[i] != group[j] && NoLater(items, group[i], group[j])
    {
      ConcatAt(groups, g, i);
      ConcatAt(groups, g, j);
      assert items[group[i]].sha == items[group[j]].sha;
    }
    DistinctCount(group);
  }
}
