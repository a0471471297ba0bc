/**
 Marking a stretch of an album by its two ends, where the store has to know what lies between.
 internal/store/grid.go:10-16, 156-185.
 */
module GridSelection {
  import opened Basics
  import opened StoreState
  import opened StoreClass
  import opened StoredTimes

  // ---- Text is totally ordered ----

  lemma {:induction false} TextTotal(a: string, b: string)
    ensures TextBelow(a, b) || a == b || TextBelow(b, a)
    ensures !(TextBelow(a, b) && TextBelow(b, a))
    decreases |a|
  {
    if a != "" && b != "" {
      TextTotal(a[1..], b[1..]);
      assert a == [a[0]] + a[1..] && b == [b[0]] + b[1..];
    }
  }

  lemma {:induction false} TextTransitive(a: string, b: string, c: string)
    requires TextBelow(a, b) && TextBelow(b, c)
    ensures TextBelow(a, c)
    decreases |a|
  {
    if a != "" && a[0] == b[0] == c[0] {
      TextTransitive(a[1..], b[1..], c[1..]);
    }
  }

  // ---- The two orders ----

  // ORDER BY captured_at, media_key: NULL before any text.
  predicate Before(items: map<Key, Row>, a: Key, b: Key)
    requires a in items && b in items
  {
    match (items[a].captured, items[b].captured)
    case (None, None) => a < b
    case (None, Some(_)) => true
    case (Some(_), None) => false
    case (Some(s), Some(t)) =>
      TextBelow(FormatTime(s), FormatTime(t)) || (FormatTime(s) == FormatTime(t) && a < b)
  }

  // An item's place, its date read as the empty string if it has none.
  function PlaceText(row: Row): string {
    match row.captured
    case None => ""
    case Some(t) => FormatTime(t)
  }

  // One row value no greater than another.
  predicate NoFurther(items: map<Key, Row>, a: Key, b: Key)
    requires a in items && b in items
  {
    var x, y := PlaceText(items[a]), PlaceText(items[b]);
    TextBelow(x, y) || (x == y && a <= b)
  }

  /** Reading no date as the empty string sorts the same as NULL does. */
  lemma PlacesSortTheSame(items: map<Key, Row>, a: Key, b: Key)
    requires a in items && b in items
    ensures NoFurther(items, a, b) <==> a == b || Before(items, a, b)
    ensures NoFurther(items, b, a) <==> a == b || !Before(items, a, b)
  {
    hide FormatTime;
    NeverEmpty(items[a].captured);
    NeverEmpty(items[b].captured);
    TextTotal(PlaceText(items[a]), PlaceText(items[b]));
    NotBelowItself(PlaceText(items[a]));
  }

  lemma NeverEmpty(captured: Option<Time>)
    ensures captured.Some? ==> FormatTime(captured.value) != ""
  {
  }

  // ---- The statement ----

  // The end nearer the start of the grid; an end the store has never seen is no end.
  function LowEnd(items: map<Key, Row>, from: Key, to: Key): Option<Key> {
    if from in items && to in items then Some(if NoFurther(items, from, to) then from else to)
    else if from in items then Some(from)
    else if to in items then Some(to)
    else None
  }

  function HighEnd(items: map<Key, Row>, from: Key, to: Key): Option<Key> {
    if from in items && to in items then Some(if NoFurther(items, from, to) then to else from)
    else LowEnd(items, from, to)
  }

  // A comparison with a place that is not there holds of nothing.
  predicate InRange(t: Tables, album: AlbumId, from: Key, to: Key, key: Key) {
    && (album, key) in t.links && key in t.items
    && LowEnd(t.items, from, to).Some? && HighEnd(t.items, from, to).Some?
    && NoFurther(t.items, LowEnd(t.items, from, to).value, key)
    && NoFurther(t.items, key, HighEnd(t.items, from, to).value)
  }

  function Marked(selection: map<Key, bool>, keys: set<Key>, selected: bool): map<Key, bool> {
    selection + map k | k in keys :: selected
  }

  function KeysInRange(t: Tables, album: AlbumId, from: Key, to: Key): set<Key> {
    set k | k in t.items && InRange(t, album, from, to, k)
  }

  lemma InRangeIsKnown(t: Tables, album: AlbumId, from: Key, to: Key, key: Key)
    ensures key in KeysInRange(t, album, from, to) <==> InRange(t, album, from, to, key)
    ensures KeysInRange(t, album, from, to) <= t.items.Keys
  {
  }

  lemma MarkOne(selection: map<Key, bool>, keys: set<Key>, selected: bool, key: Key)
    ensures Marked(selection, {}, selected) == selection
    ensures Marked(selection, keys + {key}, selected) == Marked(selection, keys, selected)[key := selected]
  {
  }

  /** The marking, row by row: each member whose place lies between the two ends gets the mark asked for. */
  method SelectRange(store: Store, album: AlbumId, from: Key, to: Key, selected: bool)
    modifies store`selection
    ensures store.selection
         == Marked(old(store.selection), KeysInRange(old(store.Contents()), album, from, to), selected)
  {
    hide InRange, KeysInRange, Marked;
    var t := store.Contents();
    ghost var wanted := KeysInRange(t, album, from, to);
    var todo := t.items.Keys;
    MarkOne(t.selection, {}, selected, 0);
    InRangeIsKnown(t, album, from, to, 0);
    assert wanted - todo == {};
    while todo != {}
      invariant todo <= t.items.Keys
      invariant store.selection == Marked(t.selection, wanted - todo, selected)
      decreases |todo|
    {
      var key :| key in todo;
      InRangeIsKnown(t, album, from, to, key);
      if InRange(t, album, from, to, key) {
        MarkOne(t.selection, wanted - todo, selected, key);
        assert wanted - (todo - {key}) == wanted - todo + {key};
        store.selection := store.selection[key := selected];
      } else {
        assert wanted - (todo - {key}) == wanted - todo;
      }
      todo := todo - {key};
    }
    assert wanted - {} == wanted;
  }

  // ---- What a range is ----

  /**
   What is marked: a member with one end at or before it and one at or after it in the order of the
   grid, wherever the ends are, and the same one if the store knows only one.
   */
  lemma WhatARangeHolds(t: Tables, album: AlbumId, from: Key, to: Key, key: Key)
    ensures key in KeysInRange(t, album, from, to) <==>
      && (album, key) in t.links && key in t.items
      && (exists a :: (a == from || a == to) && a in t.items && (a == key || Before(t.items, a, key)))
      && (exists b :: (b == from || b == to) && b in t.items && (b == key || Before(t.items, key, b)))
  {
    hide Before, NoFurther;
    if key in t.items {
      forall end | end == from || end == to
        ensures end in t.items ==> (NoFurther(t.items, end, key) <==> end == key || Before(t.items, end, key))
        ensures end in t.items ==> (NoFurther(t.items, key, end) <==> end == key || Before(t.items, key, end))
      {
        if end in t.items {
          PlacesSortTheSame(t.items, end, key);
          PlacesSortTheSame(t.items, key, end);
        }
      }
      if from in t.items && to in t.items {
        PlacesAreTransitive(t.items, from, to, key);
      }
    }
  }

  lemma PlacesAreTransitive(items: map<Key, Row>, from: Key, to: Key, key: Key)
    requires from in items && to in items && key in items
    ensures NoFurther(items, from, to) || NoFurther(items, to, from)
    ensures NoFurther(items, from, to) && NoFurther(items, to, key) ==> NoFurther(items, from, key)
    ensures NoFurther(items, to, from) && NoFurther(items, from, key) ==> NoFurther(items, to, key)
    ensures NoFurther(items, from, to) && NoFurther(items, key, from) ==> NoFurther(items, key, to)
    ensures NoFurther(items, to, from) && NoFurther(items, key, to) ==> NoFurther(items, key, from)
  {
    NoFurtherStill(items, from, to, key);
    NoFurtherStill(items, to, from, key);
    NoFurtherStill(items, key, from, to);
    NoFurtherStill(items, key, to, from);
    TextTotal(PlaceText(items[from]), PlaceText(items[to]));
  }

  lemma NoFurtherStill(items: map<Key, Row>, a: Key, b: Key, c: Key)
    requires a in items && b in items && c in items
    ensures NoFurther(items, a, b) && NoFurther(items, b, c) ==> NoFurther(items, a, c)
  {
    hide PlaceText;
    var x, y, z := PlaceText(items[a]), PlaceText(items[b]), PlaceText(items[c]);
    if TextBelow(x, y) && TextBelow(y, z) {
      TextTransitive(x, y, z);
    }
  }

  // The whole of an album, page after page.
  ghost predicate InAlbumOrder(t: Tables, album: AlbumId, page: seq<Key>) {
    && (forall k :: k in page <==> (album, k) in t.links && k in t.items)
    && (forall i, j :: 0 <= i < j < |page| ==> page[i] != page[j] && Before(t.items, page[i], page[j]))
  }

  lemma PlacedAlike(t: Tables, album: AlbumId, page: seq<Key>, i: nat, j: nat)
    requires InAlbumOrder(t, album, page) && i < |page| && j < |page|
    ensures page[i] in t.items && page[j] in t.items
    ensures NoFurther(t.items, page[i], page[j]) <==> i <= j
  {
    hide Before, NoFurther;
    assert page[i] in page && page[j] in page;
    PlacesSortTheSame(t.items, page[i], page[j]);
    PlacesSortTheSame(t.items, page[j], page[i]);
  }

  /**
   A range with its ends in either order is the contiguous stretch of the album's own order between
   the two, both included, undated items and all; and nothing else.
   */
  lemma ARangeIsAStretch(t: Tables, album: AlbumId, page: seq<Key>, i: nat, j: nat)
    requires InAlbumOrder(t, album, page) && i <= j < |page|
    ensures KeysInRange(t, album, page[i], page[j]) == Elements(page[i..j + 1])
    ensures KeysInRange(t, album, page[j], page[i]) == Elements(page[i..j + 1])
  {
    hide NoFurther, InAlbumOrder, LowEnd, HighEnd, KeysInRange;
    EndsAre(t, album, page, i, j);
    forall k
      ensures k in KeysInRange(t, album, page[i], page[j]) <==> k in page[i..j + 1]
      ensures k in KeysInRange(t, album, page[j], page[i]) <==> k in page[i..j + 1]
    {
      MembersAreOnThePage(t, album, page, k);
      InRangeIsKnown(t, album, page[i], page[j], k);
      InRangeIsKnown(t, album, page[j], page[i], k);
      if k in page {
        var m :| 0 <= m < |page| && page[m] == k;
        PlacedAlike(t, album, page, i, m);
        PlacedAlike(t, album, page, m, j);
        OnceOnThePage(t, album, page, i, j + 1, m);
      }
    }
  }

  lemma MembersAreOnThePage(t: Tables, album: AlbumId, page: seq<Key>, k: Key)
    requires InAlbumOrder(t, album, page)
    ensures k in page <==> (album, k) in t.links && k in t.items
  {
  }

  lemma OnceOnThePage(t: Tables, album: AlbumId, page: seq<Key>, i: nat, upto: nat, m: nat)
    requires InAlbumOrder(t, album, page) && i <= upto <= |page| && m < |page|
    ensures page[m] in page[i..upto] <==> i <= m < upto
  {
    if i <= m < upto {
      assert page[i..upto][m - i] == page[m];
    }
  }

  lemma EndsAre(t: Tables, album: AlbumId, page: seq<Key>, i: nat, j: nat)
    requires InAlbumOrder(t, album, page) && i <= j < |page|
    ensures LowEnd(t.items, page[i], page[j]) == LowEnd(t.items, page[j], page[i]) == Some(page[i])
    ensures HighEnd(t.items, page[i], page[j]) == HighEnd(t.items, page[j], page[i]) == Some(page[j])
  {
    hide NoFurther, InAlbumOrder;
    PlacedAlike(t, album, page, i, j);
    PlacedAlike(t, album, page, j, i);
  }

  /**
   The album's order is the order the photos were taken, undated ones first, for every date of four
   digits.
   */
  lemma TheAlbumRunsInTime(t: Tables, album: AlbumId, page: seq<Key>, i: nat, j: nat)
    requires InAlbumOrder(t, album, page) && i < j < |page|
    requires forall k :: k in page && t.items[k].captured.Some? ==> InFourDigits(StampOf(t.items[k].captured.value).year)
    ensures page[i] in t.items && page[j] in t.items
    ensures var a, b := t.items[page[i]].captured, t.items[page[j]].captured;
      && (b.None? ==> a.None?)
      && (a.Some? && b.Some? ==> a.value < b.value || (a == b && page[i] < page[j]))
  {
    hide FormatTime, StampOf;
    assert page[i] in page && page[j] in page;
    var a, b := t.items[page[i]].captured, t.items[page[j]].captured;
    if a.Some? && b.Some? {
      StoredOrderIsTimeOrder(a.value, b.value);
    }
  }
}
