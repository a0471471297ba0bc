/**
 What a walk of the library timeline proves about the members it did not see: internal/syncer/library.go
 without the store. The timeline is served newest capture first, each by the clock of
 its camera, so the order wobbles.
 */
module LibraryWalk {
  import opened Basics
  import opened StoreState

  const BOUNDARY_WOBBLE: Time := 48 * HOUR
  const FULL_WALK_INTERVAL: Time := 7 * 24 * HOUR - 12 * HOUR

  /** One page of a listing; more is whether it names a next page. */
  datatype Page = Page(items: seq<Item>, more: bool)

  /** How a walk that was not cut short ended. */
  datatype Stop =
    | EndOfTimeline
    | DateBound
    | KnownGround(heldFrom: Time)

  // ---- The rules ----

  predicate WalksNewOnly(library: AlbumRow, now: Time) {
    && library.newOnly
    && !IsZero(ParseTime(library.walkedInFullAt))
    && (library.weeklyFullWalk ==> now - ParseTime(library.walkedInFullAt) < FULL_WALK_INTERVAL)
  }

  predicate OlderThan(item: Item, since: Time) {
    !IsZero(since) && !IsZero(item.captured) && item.captured < since
  }

  predicate WalkedPastTheBound(page: seq<Item>, since: Time) {
    |page| > 0 && OlderThan(page[|page| - 1], since)
  }

  predicate AllHeld(page: seq<Item>, members: map<Key, Time>) {
    forall item | item in page :: item.key in members
  }

  // The oldest capture among the dated items of a page, or no date if it has none.
  function OldestCapture(page: seq<Item>): Time {
    if page == [] then 0
    else
      var before, captured := OldestCapture(page[..|page| - 1]), page[|page| - 1].captured;
      if !IsZero(captured) && (IsZero(before) || captured < before) then captured else before
  }

  function Later(a: Time, b: Time): Time {
    if a > b then a else b
  }

  function ReconcilableFrom(since: Time, walkedItAll: bool): Time {
    if walkedItAll then since else since + BOUNDARY_WOBBLE
  }

  predicate Reconcilable(captured: Time, vouchedFrom: Time) {
    if IsZero(vouchedFrom) then true
    else if IsZero(captured) then false
    else captured >= vouchedFrom
  }

  // What reading a page makes of a walk: nothing yet, or the way it ends there.
  function StopAt(page: Page, since: Time, newOnly: bool, members: map<Key, Time>): Option<Stop> {
    if !page.more then Some(EndOfTimeline)
    else if WalkedPastTheBound(page.items, since) then Some(DateBound)
    else if newOnly && AllHeld(page.items, members) && !IsZero(OldestCapture(page.items)) then
      Some(KnownGround(OldestCapture(page.items)))
    else None
  }

  function VouchedFrom(since: Time, stop: Stop): Time {
    match stop
    case EndOfTimeline => ReconcilableFrom(since, true)
    case DateBound => ReconcilableFrom(since, false)
    case KnownGround(heldFrom) => Later(ReconcilableFrom(since, false), ReconcilableFrom(heldFrom, false))
  }

  function SeenIn(items: seq<Item>, since: Time): set<Key> {
    set item | item in items && !OlderThan(item, since) :: item.key
  }

  function DeparturesOf(members: map<Key, Time>, seen: set<Key>, vouchedFrom: Time): set<Key> {
    set k | k in members && k !in seen && Reconcilable(members[k], vouchedFrom)
  }

  // ---- The loops ----

  /** Known ground: a page of nothing but members, one of them dated, and the oldest date on it. */
  method FindKnownGround(page: seq<Item>, members: map<Key, Time>) returns (oldest: Time, held: bool)
    ensures held <==> AllHeld(page, members) && !IsZero(OldestCapture(page))
    ensures held ==> oldest == OldestCapture(page)
    ensures !held ==> IsZero(oldest)
  {
    oldest := 0;
    for i := 0 to |page|
      invariant AllHeld(page[..i], members)
      invariant oldest == OldestCapture(page[..i])
    {
      assert page[..i + 1][..i] == page[..i];
      if page[i].key !in members {
        return 0, false;
      }
      var captured := page[i].captured;
      if !IsZero(captured) && (IsZero(oldest) || captured < oldest) {
        oldest := captured;
      }
    }
    assert page[..|page|] == page;
    held := !IsZero(oldest);
  }

  /** The unseen members above the floor, one by one in whatever order the map gives them. */
  method Departures(members: map<Key, Time>, seen: set<Key>, vouchedFrom: Time) returns (gone: seq<Key>)
    ensures Elements(gone) == DeparturesOf(members, seen, vouchedFrom)
    ensures Distinct(gone)
  {
    gone := [];
    var left := members.Keys;
    while left != {}
      invariant left <= members.Keys
      invariant Elements(gone) == set k | k in DeparturesOf(members, seen, vouchedFrom) && k !in left
      invariant Distinct(gone)
      decreases |left|
    {
      var key :| key in left;
      left := left - {key};
      if !(key in seen || !Reconcilable(members[key], vouchedFrom)) {
        assert key !in Elements(gone) && Elements(gone + [key]) == Elements(gone) + {key};
        gone := gone + [key];
      }
    }
  }

  // ---- What Google serves ----

  function Flatten(pages: seq<Page>): seq<Item> {
    if pages == [] then [] else Flatten(pages[..|pages| - 1]) + pages[|pages| - 1].items
  }

  // The pages read are the timeline from its newest end, all of it once a page names no next.
  predicate Serves(timeline: seq<Item>, pages: seq<Page>) {
    && IsPrefix(Flatten(pages), timeline)
    && (pages != [] && !pages[|pages| - 1].more ==> Flatten(pages) == timeline)
  }

  // The order wobbles by less than two days; an undated item may stand anywhere.
  predicate NewestFirstWithinTheWobble(timeline: seq<Item>) {
    forall i, j :: 0 <= i < j < |timeline| && !IsZero(timeline[i].captured) && !IsZero(timeline[j].captured)
      ==> timeline[j].captured < timeline[i].captured + BOUNDARY_WOBBLE
  }

  // The date the library recorded for a photo is the one Google still gives it.
  predicate DateAgrees(members: map<Key, Time>, timeline: seq<Item>, key: Key) {
    forall item | item in timeline :: item.key == key && key in members ==> members[key] == item.captured
  }

  // A walk read these pages and ended this way on the last of them.
  predicate Completes(pages: seq<Page>, since: Time, newOnly: bool, members: map<Key, Time>, stop: Stop) {
    && pages != []
    && (forall i :: 0 <= i < |pages| - 1 ==> StopAt(pages[i], since, newOnly, members) == None)
    && StopAt(pages[|pages| - 1], since, newOnly, members) == Some(stop)
  }

  function KeysOf(items: seq<Item>): set<Key> {
    set item | item in items :: item.key
  }

  // A floor of "no date" reads as a walk that vouches for everything, which only one that reached
  // the end of the timeline does.
  predicate FloorIsADate(since: Time, stop: Stop) {
    stop.EndOfTimeline? || !IsZero(VouchedFrom(since, stop))
  }

  // ---- No false write-off ----

  lemma {:induction false} OldestIsOldest(page: seq<Item>)
    ensures forall item :: item in page && !IsZero(item.captured) ==>
      !IsZero(OldestCapture(page)) && OldestCapture(page) <= item.captured
    ensures !IsZero(OldestCapture(page)) ==> exists item :: item in page && item.captured == OldestCapture(page)
  {
    if page != [] {
      OldestIsOldest(page[..|page| - 1]);
      var last := page[|page| - 1];
      assert forall item :: item in page <==> item in page[..|page| - 1] || item == last;
    }
  }

  // An item of the timeline the walk never reached lies below what the walk vouches for.
  lemma BelowTheStop(timeline: seq<Item>, pages: seq<Page>, since: Time, newOnly: bool,
                     members: map<Key, Time>, stop: Stop, j: nat)
    requires Completes(pages, since, newOnly, members, stop)
    requires Serves(timeline, pages) && NewestFirstWithinTheWobble(timeline)
    requires |Flatten(pages)| <= j < |timeline|
    ensures !stop.EndOfTimeline?
    ensures IsZero(timeline[j].captured) || timeline[j].captured < VouchedFrom(since, stop)
  {
    var last := pages[|pages| - 1].items;
    var front := |Flatten(pages)| - |last|;
    forall i | 0 <= i < |last|
      ensures timeline[front + i] == last[i]
    {
      assert Flatten(pages)[front + i] == last[i];
    }
    if stop.DateBound? {
      assert timeline[front + |last| - 1] == last[|last| - 1];
    } else if stop.KnownGround? {
      OldestIsOldest(last);
      var i :| 0 <= i < |last| && last[i].captured == OldestCapture(last);
      assert timeline[front + i].captured == stop.heldFrom;
    }
  }

  /**
   However the walk ended — the end of the list, the date bound, known ground — what departs is
   exactly the members the timeline no longer holds, as far down as the walk vouches for: no item
   still in the timeline is among them.
   */
  lemma WalkDepartsExactly(timeline: seq<Item>, pages: seq<Page>, since: Time, newOnly: bool,
                           members: map<Key, Time>, stop: Stop, key: Key)
    requires Completes(pages, since, newOnly, members, stop)
    requires Serves(timeline, pages) && NewestFirstWithinTheWobble(timeline)
    requires DateAgrees(members, timeline, key)
    requires FloorIsADate(since, stop)
    ensures key in DeparturesOf(members, SeenIn(Flatten(pages), since), VouchedFrom(since, stop))
      <==> key in members && key !in KeysOf(timeline) && Reconcilable(members[key], VouchedFrom(since, stop))
  {
    var read, floor := Flatten(pages), VouchedFrom(since, stop);
    if key in members && key in KeysOf(timeline) && key !in SeenIn(read, since) {
      var j :| 0 <= j < |timeline| && timeline[j].key == key;
      if j < |read| {
        assert timeline[j] == read[j] && read[j] in read;
        assert OlderThan(timeline[j], since);
        if stop.KnownGround? {
          assert floor >= since + BOUNDARY_WOBBLE;
        }
      } else {
        BelowTheStop(timeline, pages, since, newOnly, members, stop, j);
      }
      assert members[timeline[j].key] == timeline[j].captured;
    }
    if key in SeenIn(read, since) {
      var item :| item in read && item.key == key;
      var i :| 0 <= i < |read| && read[i] == item;
      assert timeline[i] == item;
    }
  }

  /**
   The floor in nanoseconds. Of the members the timeline no longer holds, a walk to the end departs
   those dated at its bound or later, or all of them if it has none; a walk stopped by its bound those
   dated two days above it; and one stopped at known ground those two days above both. An undated
   member departs only with a whole walk without a bound.
   */
  lemma WhatABoundedWalkDeparts(timeline: seq<Item>, pages: seq<Page>, since: Time, newOnly: bool,
                                members: map<Key, Time>, stop: Stop, key: Key)
    requires Completes(pages, since, newOnly, members, stop)
    requires Serves(timeline, pages) && NewestFirstWithinTheWobble(timeline)
    requires DateAgrees(members, timeline, key)
    requires match stop
      case EndOfTimeline => true
      case DateBound => since + 172_800_000_000_000 != 0
      case KnownGround(h) => (if since > h then since else h) + 172_800_000_000_000 != 0
    ensures key in DepartedBy(pages, since, stop, members) <==>
      && key in members && (forall item :: item in timeline ==> item.key != key)
      && var date := members[key];
         match stop
         case EndOfTimeline => since == 0 || (date != 0 && date >= since)
         case DateBound => date != 0 && date >= since + 172_800_000_000_000
         case KnownGround(h) => date != 0 && date >= since + 172_800_000_000_000 && date >= h + 172_800_000_000_000
  {
    WalkDepartsExactly(timeline, pages, since, newOnly, members, stop, key);
  }

  // What a completed walk hands to its reconciliation.
  function DepartedBy(pages: seq<Page>, since: Time, stop: Stop, members: map<Key, Time>): set<Key> {
    DeparturesOf(members, SeenIn(Flatten(pages), since), VouchedFrom(since, stop))
  }

  /**
   Where a page ends a walk: it names no next page; or its last item is dated before the bound; or, on
   a walk only for what is new, every item is a member, one is dated, and known ground is the earliest
   date on it.
   */
  lemma WhereAPageEndsAWalk(page: Page, since: Time, newOnly: bool, members: map<Key, Time>)
    ensures var n, stop := |page.items|, StopAt(page, since, newOnly, members);
      && (stop == Some(EndOfTimeline) <==> !page.more)
      && (stop == Some(DateBound) <==>
            page.more && n > 0 && since != 0 && page.items[n - 1].captured != 0 && page.items[n - 1].captured < since)
      && (forall h :: stop == Some(KnownGround(h)) <==>
            && page.more && !(n > 0 && since != 0 && page.items[n - 1].captured != 0 && page.items[n - 1].captured < since)
            && newOnly && (forall item :: item in page.items ==> item.key in members)
            && (exists item :: item in page.items && item.captured == h) && h != 0
            && (forall item :: item in page.items && item.captured != 0 ==> h <= item.captured))
  {
    OldestIsOldest(page.items);
  }

  /** What a walk records: every item but those dated before its bound. */
  lemma WhatAWalkRecords(items: seq<Item>, since: Time, key: Key)
    ensures key in SeenIn(items, since) <==>
      exists item :: item in items && item.key == key && (since == 0 || item.captured == 0 || item.captured >= since)
  {
  }

  /**
   A walk looks only for what is new if it is told to and a whole walk is remembered, one of less than
   six and a half days ago if there is to be one a week.
   */
  lemma WhenAWalkLooksOnlyForNew(library: AlbumRow, now: Time)
    ensures WalksNewOnly(library, now) <==>
      && library.newOnly
      && library.walkedInFullAt.Some? && library.walkedInFullAt != Some(0)
      && (!library.weeklyFullWalk || now - library.walkedInFullAt.value < 561_600_000_000_000)
  {
  }

  /** A whole walk with no date bound departs the members less the timeline, no more and no less. */
  lemma WholeWalkDepartsTheRest(timeline: seq<Item>, pages: seq<Page>, newOnly: bool, members: map<Key, Time>)
    requires Completes(pages, 0, newOnly, members, EndOfTimeline)
    requires Serves(timeline, pages)
    ensures DeparturesOf(members, SeenIn(Flatten(pages), 0), VouchedFrom(0, EndOfTimeline))
         == members.Keys - KeysOf(timeline)
  {
    assert Flatten(pages) == timeline;
  }

  // A completed walk of an honest timeline under which an item still there departs.
  predicate DepartsTheLiving(timeline: seq<Item>, pages: seq<Page>, since: Time, newOnly: bool,
                             members: map<Key, Time>, stop: Stop, key: Key) {
    && Completes(pages, since, newOnly, members, stop)
    && Serves(timeline, pages) && NewestFirstWithinTheWobble(timeline) && DateAgrees(members, timeline, key)
    && key in KeysOf(timeline)
    && key in DeparturesOf(members, SeenIn(Flatten(pages), since), VouchedFrom(since, stop))
  }

  // A timeline of one page and one item more, which the page ended the walk before.
  lemma OnePageAndOneMore(page: seq<Item>, next: Item, since: Time, newOnly: bool, members: map<Key, Time>, stop: Stop)
    requires StopAt(Page(page, true), since, newOnly, members) == Some(stop)
    ensures Flatten([Page(page, true)]) == page
    ensures Completes([Page(page, true)], since, newOnly, members, stop)
    ensures Serves(page + [next], [Page(page, true)]) && next.key in KeysOf(page + [next])
  {
    var pages := [Page(page, true)];
    assert pages[..0] == [] && Flatten([]) == [];
    assert next in page + [next];
  }

  /**
   The floor has to be a date. A bound of two days before Go's zero time makes it "no date", and
   then a photo that is still in the timeline departs.
   */
  lemma AFloorOfNoDateDepartsTheLiving() returns (timeline: seq<Item>, pages: seq<Page>, members: map<Key, Time>)
    ensures DepartsTheLiving(timeline, pages, -BOUNDARY_WOBBLE, false, members, DateBound, 1)
  {
    hide Flatten, Completes, Serves, KeysOf;
    var since := -BOUNDARY_WOBBLE;
    var passed, next := Item(0, since - HOUR, "", false), Item(1, since, "", false);
    timeline, members := [passed] + [next], map[1 := since];
    pages := [Page([passed], true)];
    OnePageAndOneMore([passed], next, since, false, members, DateBound);
  }

  // Known ground two days before Go's zero time, under no later a bound, does the same.
  lemma KnownGroundOfNoDateDepartsTheLiving(since: Time, heldFrom: Time)
    returns (timeline: seq<Item>, pages: seq<Page>, members: map<Key, Time>)
    requires Later(since, heldFrom) == -BOUNDARY_WOBBLE
    ensures DepartsTheLiving(timeline, pages, since, true, members, KnownGround(heldFrom), 1)
  {
    hide Flatten, Completes, Serves, KeysOf, OldestCapture;
    var held, undated, next := Item(0, heldFrom, "", false), Item(2, 0, "", false), Item(1, heldFrom, "", false);
    timeline, members := [held, undated] + [next], map[0 := heldFrom, 1 := heldFrom, 2 := 0];
    pages := [Page([held, undated], true)];
    OldestOfTwo(held, undated);
    OnePageAndOneMore([held, undated], next, since, true, members, KnownGround(heldFrom));
  }

  lemma OldestOfTwo(dated: Item, undated: Item)
    requires IsZero(undated.captured)
    ensures OldestCapture([dated, undated]) == dated.captured
  {
    assert [dated, undated][..1] == [dated] && [dated][..0] == [];
    assert OldestCapture([dated]) == dated.captured;
  }

  // No completed walk that ends this way departs a photo that is still there.
  ghost predicate NeverDepartsTheLiving(since: Time, stop: Stop) {
    forall timeline, pages, newOnly, members, key :: !DepartsTheLiving(timeline, pages, since, newOnly, members, stop, key)
  }

  /** No walk departs the living exactly if its floor is a date: there is one bound under which some do. */
  lemma SafeExactlyWhenTheFloorIsADate(since: Time, stop: Stop)
    ensures NeverDepartsTheLiving(since, stop) <==> FloorIsADate(since, stop)
    ensures FloorIsADate(since, stop) <==>
      match stop
      case EndOfTimeline => true
      case DateBound => since != -172_800_000_000_000
      case KnownGround(heldFrom) => (if since > heldFrom then since else heldFrom) != -172_800_000_000_000
  {
    if FloorIsADate(since, stop) {
      forall timeline, pages, newOnly, members, key
        ensures !DepartsTheLiving(timeline, pages, since, newOnly, members, stop, key)
      {
        if DepartsTheLiving(timeline, pages, since, newOnly, members, stop, key) {
          WalkDepartsExactly(timeline, pages, since, newOnly, members, stop, key);
          assert false;
        }
      }
    } else if stop.DateBound? {
      var timeline, pages, members := AFloorOfNoDateDepartsTheLiving();
      assert DepartsTheLiving(timeline, pages, since, false, members, stop, 1);
    } else {
      var timeline, pages, members := KnownGroundOfNoDateDepartsTheLiving(since, stop.heldFrom);
      assert DepartsTheLiving(timeline, pages, since, true, members, stop, 1);
    }
  }
}
