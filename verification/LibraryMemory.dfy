/**
 What the library's row remembers of whole walks, over any history of saved instructions, modes set
 on their own, and walks begun, abandoned and finished: a walk may stop at known ground only on the
 strength of a whole walk, and which histories make that a walk of what is asked for now.
 */
module LibraryMemory {
  import opened Basics
  import opened StoreState
  import opened LibraryWalk

  // What decides how far down a walk has to reach.
  datatype Reach = Reach(mode: SyncMode, since: Option<Time>)

  /** Everything that happens to the library's row, or to a walk of it. */
  datatype Event =
    | Saved(to: LibraryInstruction)        // the whole instruction, which may forget the last whole walk
    | ModeSet(mode: SyncMode)              // the mode alone, as of any album, which forgets nothing
    | Began                                // a walk reads the row
    | Abandoned
    | Finished(at: Time, stop: Stop)

  function ReachOf(row: AlbumRow): Reach {
    Reach(row.mode, row.since)
  }

  function Happens(row: AlbumRow, event: Event): AlbumRow {
    match event
    case Saved(to) => Instructed(row, to)
    case ModeSet(mode) => row.(mode := mode)
    case Began => row
    case Abandoned => row
    case Finished(at, stop) =>
      row.(walkedInFullAt := if stop.KnownGround? then row.walkedInFullAt else Some(at), lastSyncedAt := Some(at))
  }

  function RowAfter(row: AlbumRow, history: seq<Event>): AlbumRow
    decreases |history|
  {
    if history == [] then row else Happens(RowAfter(row, history[..|history| - 1]), history[|history| - 1])
  }

  // The row before event i, which is the row after the i events before it.
  function RowAt(row: AlbumRow, history: seq<Event>, i: nat): AlbumRow {
    if i <= |history| then RowAfter(row, history[..i]) else RowAfter(row, history)
  }

  lemma RowNext(row: AlbumRow, history: seq<Event>, i: nat)
    requires i < |history|
    ensures RowAt(row, history, i + 1) == Happens(RowAt(row, history, i), history[i])
  {
    assert history[..i + 1][..i] == history[..i];
  }

  // Where the walk under way began, if one is.
  function WalkFrom(history: seq<Event>): Option<nat>
    decreases |history|
  {
    if history == [] then None
    else
      match history[|history| - 1]
      case Began => Some(|history| - 1)
      case Abandoned => None
      case Finished(_, _) => None
      case _ => WalkFrom(history[..|history| - 1])
  }

  // One walk at a time, and only a walk that began finishes.
  ghost predicate OneWalkAtATime(history: seq<Event>) {
    forall i :: 0 <= i < |history| ==>
      && (history[i].Began? ==> WalkFrom(history[..i]).None?)
      && (history[i].Finished? ==> WalkFrom(history[..i]).Some?)
  }

  lemma {:induction false} WalkGoesOn(history: seq<Event>, k: nat)
    requires k <= |history| && WalkFrom(history[..k]).Some?
    ensures var b := WalkFrom(history[..k]).value;
      b < k && history[b].Began? && forall m :: b < m < k ==> history[m].Saved? || history[m].ModeSet?
    decreases k
  {
    var front := history[..k];
    if !front[k - 1].Began? {
      assert front[..k - 1] == history[..k - 1];
      WalkGoesOn(history, k - 1);
    }
  }

  // ---- Whole walks ----

  predicate Whole(event: Event) {
    event.Finished? && !event.stop.KnownGround?
  }

  // A whole walk ended just before event i; 0 stands for one the row remembered from before, taken
  // to have been of what the row then asked for.
  predicate WholeBy(row: AlbumRow, history: seq<Event>, i: nat) {
    if i == 0 then row.walkedInFullAt.Some? else i <= |history| && Whole(history[i - 1])
  }

  function EndedAt(row: AlbumRow, history: seq<Event>, i: nat): Time
    requires WholeBy(row, history, i)
  {
    if i == 0 then row.walkedInFullAt.value else history[i - 1].at
  }

  // Where that walk began.
  function BeganAt(row: AlbumRow, history: seq<Event>, i: nat): nat
    requires WholeBy(row, history, i)
  {
    if i == 0 then 0 else match WalkFrom(history[..i - 1]) case Some(b) => b case None => i
  }

  ghost predicate LastWhole(row: AlbumRow, history: seq<Event>, i: nat) {
    WholeBy(row, history, i) && forall j :: i < j <= |history| ==> !WholeBy(row, history, j)
  }

  predicate Moves(row: AlbumRow, history: seq<Event>, j: nat)
    requires j < |history|
  {
    ReachOf(RowAt(row, history, j + 1)) != ReachOf(RowAt(row, history, j))
  }

  // No saved instruction has moved the reach since.
  ghost predicate NotForgotten(row: AlbumRow, history: seq<Event>, i: nat) {
    forall j :: i <= j < |history| && history[j].Saved? ==> !Moves(row, history, j)
  }

  /**
   A whole walk of exactly what is asked for now: the mode and date have been the same since before
   it began.
   */
  ghost predicate StillCounts(row: AlbumRow, history: seq<Event>, i: nat) {
    && WholeBy(row, history, i)
    && forall j :: BeganAt(row, history, i) <= j <= |history| ==>
         ReachOf(RowAt(row, history, j)) == ReachOf(RowAfter(row, history))
  }

  lemma Shorter(row: AlbumRow, front: seq<Event>, last: Event, i: nat)
    ensures i <= |front| ==> RowAt(row, front + [last], i) == RowAt(row, front, i)
    ensures i <= |front| ==> (WholeBy(row, front + [last], i) <==> WholeBy(row, front, i))
    ensures i < |front| ==> (Moves(row, front + [last], i) <==> Moves(row, front, i))
  {
    if i <= |front| {
      assert (front + [last])[..i] == front[..i];
      if i < |front| {
        assert (front + [last])[..i + 1] == front[..i + 1];
      }
    }
  }

  // What an event does to the memory.
  lemma OneEvent(row: AlbumRow, event: Event)
    ensures var now := Happens(row, event);
      && now.walkedInFullAt == (
           if Whole(event) then Some(event.at)
           else if event.Saved? && ReachOf(now) != ReachOf(row) then None
           else row.walkedInFullAt)
      && (ReachOf(now) != ReachOf(row) ==> event.Saved? || event.ModeSet?)
  {
  }

  /**
   What the row remembers: the last whole walk, unless an instruction saved since has moved the mode
   or the date.
   */
  lemma {:induction false} RemembersTheLastUnlessForgotten(row: AlbumRow, history: seq<Event>)
    ensures RowAfter(row, history).walkedInFullAt.Some? <==>
      exists i: nat :: LastWhole(row, history, i) && NotForgotten(row, history, i)
    ensures forall i: nat :: LastWhole(row, history, i) && NotForgotten(row, history, i) ==>
      RowAfter(row, history).walkedInFullAt == Some(EndedAt(row, history, i))
    decreases |history|
  {
    if history == [] {
      assert row.walkedInFullAt.Some? ==> LastWhole(row, history, 0) && NotForgotten(row, history, 0);
      return;
    }
    var front, last := history[..|history| - 1], history[|history| - 1];
    assert history == front + [last];
    RemembersTheLastUnlessForgotten(row, front);
    OneEvent(RowAfter(row, front), last);
    RowsAtTheEnd(row, front, last);
    forall i: nat
      ensures LastWhole(row, history, i) <==> if Whole(last) then i == |history| else LastWhole(row, front, i)
      ensures LastWhole(row, history, i) && !Whole(last) ==>
        (NotForgotten(row, history, i)
         <==> NotForgotten(row, front, i) && !(last.Saved? && Moves(row, history, |front|)))
    {
      LastOneMore(row, front, last, i);
    }
    if Whole(last) {
      assert LastWhole(row, history, |history|) && NotForgotten(row, history, |history|);
    } else if i: nat :| LastWhole(row, front, i) && NotForgotten(row, front, i) {
      assert LastWhole(row, history, i);
    }
  }

  lemma RowsAtTheEnd(row: AlbumRow, front: seq<Event>, last: Event)
    ensures RowAfter(row, front + [last]) == Happens(RowAfter(row, front), last)
    ensures RowAt(row, front + [last], |front|) == RowAfter(row, front)
    ensures RowAt(row, front + [last], |front| + 1) == RowAfter(row, front + [last])
  {
    assert (front + [last])[..|front|] == front;
    assert (front + [last])[..|front| + 1] == front + [last];
  }

  lemma LastOneMore(row: AlbumRow, front: seq<Event>, last: Event, i: nat)
    ensures LastWhole(row, front + [last], i) <==> if Whole(last) then i == |front| + 1 else LastWhole(row, front, i)
    ensures i <= |front| ==>
      (NotForgotten(row, front + [last], i)
       <==> NotForgotten(row, front, i) && !(last.Saved? && Moves(row, front + [last], |front|)))
  {
    var history := front + [last];
    forall j: nat | j <= |front|
      ensures WholeBy(row, history, j) <==> WholeBy(row, front, j)
    {
      Shorter(row, front, last, j);
    }
    forall j: nat | j < |front|
      ensures Moves(row, history, j) <==> Moves(row, front, j)
    {
      Shorter(row, front, last, j);
    }
    hide Moves;
    assert WholeBy(row, history, |history|) <==> Whole(last);
    if i <= |front| && NotForgotten(row, history, i) {
      forall j | i <= j < |front| && front[j].Saved?
        ensures !Moves(row, front, j)
      {
        assert history[j].Saved?;
      }
    }
  }

  // ---- When the memory is true ----

  // The mode was moved on its own while a whole walk was remembered, and neither a whole walk nor a
  // saved instruction that moved anything has come since.
  ghost predicate ModeMovedUnderMemory(row: AlbumRow, history: seq<Event>, j: nat) {
    && j < |history| && history[j].ModeSet? && Moves(row, history, j)
    && RowAt(row, history, j).walkedInFullAt.Some?
    && (forall k :: j < k < |history| ==> !Whole(history[k]))
    && NotForgotten(row, history, j + 1)
  }

  // The mode or date was moved in the middle of a walk that went on to finish whole at event k, and
  // neither another whole walk nor a saved instruction that moved anything has come since.
  ghost predicate MovedMidWalk(row: AlbumRow, history: seq<Event>, j: nat, k: nat) {
    && j < k < |history| && Moves(row, history, j) && Whole(history[k])
    && WalkFrom(history[..k]).Some? && WalkFrom(history[..k]).value < j
    && (forall m :: k < m < |history| ==> !Whole(history[m]))
    && NotForgotten(row, history, k + 1)
  }

  ghost predicate Misremembers(row: AlbumRow, history: seq<Event>) {
    || (exists j: nat :: ModeMovedUnderMemory(row, history, j))
    || (exists j: nat, k: nat :: MovedMidWalk(row, history, j, k))
  }

  ghost predicate MemoryIsTrue(row: AlbumRow, history: seq<Event>) {
    RowAfter(row, history).walkedInFullAt.Some? <==> exists i: nat :: StillCounts(row, history, i)
  }

  // Nothing has moved over a stretch on which no event moves it.
  lemma {:induction false} NothingMoved(row: AlbumRow, history: seq<Event>, from: nat, upto: nat)
    requires from <= upto <= |history|
    requires forall j :: from <= j < upto ==> !Moves(row, history, j)
    ensures ReachOf(RowAt(row, history, from)) == ReachOf(RowAt(row, history, upto))
    decreases upto
  {
    if from < upto {
      NothingMoved(row, history, from, upto - 1);
      assert !Moves(row, history, upto - 1);
    }
  }

  lemma CountsUnlessMoved(row: AlbumRow, history: seq<Event>, i: nat)
    requires WholeBy(row, history, i) && OneWalkAtATime(history)
    ensures BeganAt(row, history, i) <= i
    ensures StillCounts(row, history, i) <==>
      forall j :: BeganAt(row, history, i) <= j < |history| ==> !Moves(row, history, j)
  {
    if i > 0 && WalkFrom(history[..i - 1]).Some? {
      WalkGoesOn(history, i - 1);
    }
    var from := BeganAt(row, history, i);
    assert history[..|history|] == history;
    if forall j :: from <= j < |history| ==> !Moves(row, history, j) {
      forall j | from <= j <= |history|
        ensures ReachOf(RowAt(row, history, j)) == ReachOf(RowAfter(row, history))
      {
        NothingMoved(row, history, j, |history|);
      }
    }
  }

  // A later whole walk began after an earlier one had ended.
  lemma WalksDoNotOverlap(row: AlbumRow, history: seq<Event>, i: nat, k: nat)
    requires OneWalkAtATime(history) && WholeBy(row, history, i) && WholeBy(row, history, k) && i < k
    ensures i <= BeganAt(row, history, k)
  {
    assert history[k - 1].Finished?;
    WalkGoesOn(history, k - 1);
  }

  // The last whole walk is the one to ask about.
  lemma TheLastCounts(row: AlbumRow, history: seq<Event>, i: nat, last: nat)
    requires OneWalkAtATime(history) && StillCounts(row, history, i) && LastWhole(row, history, last)
    ensures StillCounts(row, history, last)
  {
    assert i <= last;
    CountsUnlessMoved(row, history, i);
    CountsUnlessMoved(row, history, last);
    if i < last {
      WalksDoNotOverlap(row, history, i, last);
    }
  }

  lemma FindTheLast(row: AlbumRow, history: seq<Event>, i: nat) returns (last: nat)
    requires WholeBy(row, history, i)
    ensures LastWhole(row, history, last) && i <= last
  {
    last := i;
    while exists j :: last < j <= |history| && WholeBy(row, history, j)
      invariant WholeBy(row, history, last) && i <= last
      decreases |history| - last
    {
      var j :| last < j <= |history| && WholeBy(row, history, j);
      last := j;
    }
  }

  // A walk that still counts is remembered, whatever the history.
  lemma WhatCountsIsRemembered(row: AlbumRow, history: seq<Event>, i: nat)
    requires OneWalkAtATime(history) && StillCounts(row, history, i)
    ensures RowAfter(row, history).walkedInFullAt.Some?
  {
    var last := FindTheLast(row, history, i);
    TheLastCounts(row, history, i, last);
    CountsUnlessMoved(row, history, last);
    assert NotForgotten(row, history, last);
    RemembersTheLastUnlessForgotten(row, history);
  }

  lemma PrefixAgrees(row: AlbumRow, history: seq<Event>, j: nat)
    requires j <= |history|
    ensures forall m: nat :: m <= j ==> (WholeBy(row, history[..j], m) <==> WholeBy(row, history, m))
    ensures forall m: nat :: m > j ==> !WholeBy(row, history[..j], m)
    ensures forall m: nat :: m < j ==> (Moves(row, history[..j], m) <==> Moves(row, history, m))
  {
    var front := history[..j];
    forall m: nat | m < j
      ensures Moves(row, front, m) <==> Moves(row, history, m)
    {
      assert front[..m] == history[..m] && front[..m + 1] == history[..m + 1];
    }
  }

  // The memory before event j, of a walk not forgotten by the end.
  lemma RememberedMeanwhile(row: AlbumRow, history: seq<Event>, last: nat, j: nat)
    requires LastWhole(row, history, last) && NotForgotten(row, history, last) && last <= j <= |history|
    ensures RowAt(row, history, j).walkedInFullAt.Some?
  {
    var front := history[..j];
    PrefixAgrees(row, history, j);
    hide Moves, WholeBy;
    assert LastWhole(row, front, last);
    forall m | last <= m < j && front[m].Saved?
      ensures !Moves(row, front, m)
    {
      assert history[m].Saved?;
    }
    assert NotForgotten(row, front, last);
    RemembersTheLastUnlessForgotten(row, front);
  }

  // If the last whole walk is remembered and does not count, it is for one of the two reasons.
  lemma OneOfTwoReasons(row: AlbumRow, history: seq<Event>, last: nat)
    requires OneWalkAtATime(history) && LastWhole(row, history, last) && NotForgotten(row, history, last)
    requires !StillCounts(row, history, last)
    ensures Misremembers(row, history)
  {
    hide Moves;
    CountsUnlessMoved(row, history, last);
    var j: nat :| BeganAt(row, history, last) <= j < |history| && Moves(row, history, j);
    OnlyTheseMove(row, history, j);
    forall k | last <= k < |history|
      ensures !Whole(history[k])
    {
      assert !WholeBy(row, history, k + 1);
    }
    if j >= last {
      assert history[j].ModeSet?;
      RememberedMeanwhile(row, history, last, j);
      assert ModeMovedUnderMemory(row, history, j);
    } else {
      assert history[last - 1].Finished?;
      WalkGoesOn(history, last - 1);
      assert j != last - 1 && !history[j].Began?;
      assert MovedMidWalk(row, history, j, last - 1);
    }
  }

  lemma OnlyTheseMove(row: AlbumRow, history: seq<Event>, j: nat)
    requires j < |history| && Moves(row, history, j)
    ensures history[j].Saved? || history[j].ModeSet?
  {
    RowNext(row, history, j);
    OneEvent(RowAt(row, history, j), history[j]);
  }

  // A mode moved under the memory leaves a memory of a walk that does not count.
  lemma AMovedModeIsNotNoticed(row: AlbumRow, history: seq<Event>, j: nat)
    requires OneWalkAtATime(history) && ModeMovedUnderMemory(row, history, j)
    ensures !MemoryIsTrue(row, history)
  {
    var front := history[..j];
    RemembersTheLastUnlessForgotten(row, front);
    var i: nat :| LastWhole(row, front, i) && NotForgotten(row, front, i);
    StillTheLast(row, history, j, i);
    RemembersTheLastUnlessForgotten(row, history);
    CountsUnlessMoved(row, history, i);
    NoneCounts(row, history, i, j);
  }

  lemma StillTheLast(row: AlbumRow, history: seq<Event>, j: nat, i: nat)
    requires ModeMovedUnderMemory(row, history, j)
    requires LastWhole(row, history[..j], i) && NotForgotten(row, history[..j], i)
    ensures LastWhole(row, history, i) && NotForgotten(row, history, i) && i <= j
  {
    var front := history[..j];
    PrefixAgrees(row, history, j);
    forall m: nat | j < m <= |history|
      ensures !WholeBy(row, history, m)
    {
      assert !Whole(history[m - 1]);
    }
    hide Moves, WholeBy;
    assert i <= j;
    forall m | i <= m < |history| && history[m].Saved?
      ensures !Moves(row, history, m)
    {
      if m < j {
        assert front[m].Saved?;
      }
    }
  }

  lemma ASaveMidWalkIsNotNoticed(row: AlbumRow, history: seq<Event>, j: nat, k: nat)
    requires OneWalkAtATime(history) && MovedMidWalk(row, history, j, k)
    ensures !MemoryIsTrue(row, history)
  {
    assert WholeBy(row, history, k + 1);
    assert LastWhole(row, history, k + 1);
    RemembersTheLastUnlessForgotten(row, history);
    NoneCounts(row, history, k + 1, j);
  }

  lemma NoneCounts(row: AlbumRow, history: seq<Event>, last: nat, j: nat)
    requires OneWalkAtATime(history) && LastWhole(row, history, last)
    requires j < |history| && Moves(row, history, j) && BeganAt(row, history, last) <= j
    ensures forall i: nat :: !StillCounts(row, history, i)
  {
    forall i: nat
      ensures !StillCounts(row, history, i)
    {
      if StillCounts(row, history, i) {
        TheLastCounts(row, history, i, last);
        CountsUnlessMoved(row, history, last);
      }
    }
  }

  /**
   A whole walk is remembered if and only if one of what is asked for now was made, exactly when
   neither of two things has happened: the mode set on its own under the memory, or the mode or date
   moved in the middle of the walk remembered.
   */
  lemma RemembersExactlyWhatCounts(row: AlbumRow, history: seq<Event>)
    requires OneWalkAtATime(history)
    ensures MemoryIsTrue(row, history) <==> !Misremembers(row, history)
  {
    hide StillCounts, LastWhole, NotForgotten, ModeMovedUnderMemory, MovedMidWalk;
    if j: nat :| ModeMovedUnderMemory(row, history, j) {
      AMovedModeIsNotNoticed(row, history, j);
    } else if j: nat, k: nat :| MovedMidWalk(row, history, j, k) {
      ASaveMidWalkIsNotNoticed(row, history, j, k);
    } else if i: nat :| StillCounts(row, history, i) {
      WhatCountsIsRemembered(row, history, i);
    } else {
      RemembersTheLastUnlessForgotten(row, history);
      if last: nat :| LastWhole(row, history, last) && NotForgotten(row, history, last) {
        OneOfTwoReasons(row, history, last);
      }
    }
  }

  /**
   A walk that stops at known ground does so on the strength of the last whole walk, unforgotten;
   with the weekly option, of one younger than six and a half days. Unless the row misremembers, the
   mode and date in force now have been in force since before that walk began.
   */
  lemma KnownGroundNeedsAWholeWalk(row: AlbumRow, history: seq<Event>, pages: seq<Page>,
                                   members: map<Key, Time>, now: Time, heldFrom: Time)
    returns (i: nat)
    requires OneWalkAtATime(history)
    requires var library := RowAfter(row, history);
      Completes(pages, ParseTime(library.since), WalksNewOnly(library, now), members, KnownGround(heldFrom))
    ensures LastWhole(row, history, i) && NotForgotten(row, history, i)
    ensures RowAfter(row, history).newOnly
    ensures RowAfter(row, history).weeklyFullWalk ==> now - EndedAt(row, history, i) < 561_600_000_000_000
    ensures StillCounts(row, history, i) <==> !Misremembers(row, history)
  {
    RemembersTheLastUnlessForgotten(row, history);
    i :| LastWhole(row, history, i) && NotForgotten(row, history, i);
    RemembersExactlyWhatCounts(row, history);
    if k: nat :| StillCounts(row, history, k) {
      TheLastCounts(row, history, k, i);
    }
  }

  /** Unfollowed and followed again by its mode alone, the library keeps the memory of its last whole walk. */
  lemma UnfollowingKeepsTheMemory(row: AlbumRow, at: Time)
    requires row.mode != SyncNone
    ensures var history := [Began, Finished(at, EndOfTimeline), ModeSet(SyncNone), ModeSet(row.mode)];
      && OneWalkAtATime(history) && Misremembers(row, history)
      && RowAfter(row, history).walkedInFullAt == Some(at)
      && forall i: nat :: !StillCounts(row, history, i)
  {
    var history := [Began, Finished(at, EndOfTimeline), ModeSet(SyncNone), ModeSet(row.mode)];
    assert history[..0] == [] && history[..1] == [Began] && [Began][..0] == [];
    assert history[..2] == [Began, history[1]] && history[..2][..1] == [Began];
    assert history[..3] == [Began, history[1], history[2]] && history[..3][..2] == history[..2];
    assert history[..4] == history;
    assert WalkFrom(history[..1]) == Some(0);
    RowNext(row, history, 0);
    RowNext(row, history, 1);
    RowNext(row, history, 2);
    RowNext(row, history, 3);
    assert Moves(row, history, 2);
    assert ModeMovedUnderMemory(row, history, 2);
    RemembersExactlyWhatCounts(row, history);
  }

  /** Saved in the middle of a walk, a new date is taken for one already walked. */
  lemma ASaveMidWalkIsTakenForWalked(row: AlbumRow, to: LibraryInstruction, at: Time)
    requires row.since != NullableTime(to.since)
    ensures var history := [Began, Saved(to), Finished(at, EndOfTimeline)];
      && OneWalkAtATime(history) && Misremembers(row, history)
      && RowAfter(row, history).walkedInFullAt == Some(at)
      && forall i: nat :: !StillCounts(row, history, i)
  {
    var history := [Began, Saved(to), Finished(at, EndOfTimeline)];
    assert history[..0] == [] && history[..1] == [Began] && [Began][..0] == [];
    assert history[..2] == [Began, history[1]] && history[..2][..1] == [Began];
    assert history[..3] == history;
    assert WalkFrom(history[..1]) == Some(0) && WalkFrom(history[..2]) == Some(0);
    assert Moves(row, history, 1);
    assert MovedMidWalk(row, history, 1, 2);
    RemembersExactlyWhatCounts(row, history);
  }
}
