/**
 The circuit breaker and the run's tally, over the outcomes of a run in whatever order the workers
 report them. internal/syncer/retry.go and the worker loop of internal/syncer/queue.go.
 */
module Breaker {
  import opened Basics

  /** Why a download failed. */
  datatype Cause =
    | NoFollowedAlbum
    | ContextEnded
    | DeadlinePassed
    | SessionRejected
    | ProtocolDrift
    | UnknownContentHost
    | Truncated
    | RangeIgnored
    | SignedUrlRejected
    | Http(status: nat)
    | Otherwise

  // Which failures a second attempt may not repeat.
  predicate Retryable(cause: Cause) {
    match cause
    case ContextEnded => false
    case DeadlinePassed => false
    case SessionRejected => false
    case ProtocolDrift => false
    case UnknownContentHost => false
    case Http(status) => status == 429 || status >= 500
    case _ => true
  }

  /** What one item came to: its size, or why it failed and the words it failed with. */
  datatype Outcome = Landed(bytes: nat) | Fault(cause: Cause, words: string, lastWords: Option<string>)

  // An outcome that says nothing of how the far end is doing.
  predicate TellsNothing(o: Outcome) {
    o.Fault? && (o.cause.NoFollowedAlbum? || RepeatsItsRecordedFailure(o))
  }

  predicate RepeatsItsRecordedFailure(o: Outcome)
    requires o.Fault?
  {
    (o.cause.ProtocolDrift? || o.cause.UnknownContentHost?) && o.lastWords == Some(o.words)
  }

  predicate Counts(o: Outcome) {
    o.Fault? && !TellsNothing(o)
  }

  /**
   What the retry loop and the breaker make of a cause: only an end of the run or a deadline, a session
   refused, a changed protocol, a strange host, and an answer under 500 other than 429 are final; and
   only an item nobody follows, and a protocol or host failure in the very words the item failed with
   last, say nothing of the far end.
   */
  lemma WhatFailuresSay(o: Outcome)
    ensures o.Fault? ==>
      (!Retryable(o.cause) <==>
         || o.cause == ContextEnded || o.cause == DeadlinePassed || o.cause == SessionRejected
         || o.cause == ProtocolDrift || o.cause == UnknownContentHost
         || (o.cause.Http? && o.cause.status < 500 && o.cause.status != 429))
    ensures Counts(o) <==>
      && o.Fault? && o.cause != NoFollowedAlbum
      && !((o.cause == ProtocolDrift || o.cause == UnknownContentHost)
           && o.lastWords.Some? && o.lastWords.value == o.words)
  {
  }

  // ---- What a trip means ----

  function CountIn(outcomes: seq<Outcome>): nat {
    if outcomes == [] then 0
    else CountIn(outcomes[..|outcomes| - 1]) + (if Counts(outcomes[|outcomes| - 1]) then 1 else 0)
  }

  predicate NoneLanded(outcomes: seq<Outcome>) {
    forall o | o in outcomes :: !o.Landed?
  }

  // The history ends with a stretch in which nothing landed and at least this many failures counted.
  ghost predicate EndsInAStreak(outcomes: seq<Outcome>, length: nat) {
    exists from :: 0 <= from <= |outcomes| && NoneLanded(outcomes[from..]) && CountIn(outcomes[from..]) >= length
  }

  // The failures counted since anything last landed.
  function Streak(outcomes: seq<Outcome>): nat {
    if outcomes == [] then 0
    else
      var before, last := Streak(outcomes[..|outcomes| - 1]), outcomes[|outcomes| - 1];
      if last.Landed? then 0 else if Counts(last) then before + 1 else before
  }

  lemma {:induction false} StreakIsAStretch(outcomes: seq<Outcome>) returns (from: nat)
    ensures from <= |outcomes| && NoneLanded(outcomes[from..]) && CountIn(outcomes[from..]) == Streak(outcomes)
    decreases |outcomes|
  {
    if outcomes == [] {
      from := 0;
    } else {
      var front, last := outcomes[..|outcomes| - 1], outcomes[|outcomes| - 1];
      if last.Landed? {
        from := |outcomes|;
      } else {
        from := StreakIsAStretch(front);
        assert outcomes[from..] == front[from..] + [last];
        assert outcomes[from..][..|outcomes[from..]| - 1] == front[from..];
      }
    }
  }

  lemma {:induction false} NoStretchIsLonger(outcomes: seq<Outcome>, from: nat)
    requires from <= |outcomes| && NoneLanded(outcomes[from..])
    ensures CountIn(outcomes[from..]) <= Streak(outcomes)
    decreases |outcomes|
  {
    if from < |outcomes| {
      var front, last := outcomes[..|outcomes| - 1], outcomes[|outcomes| - 1];
      assert outcomes[from..] == front[from..] + [last];
      assert outcomes[from..][..|outcomes[from..]| - 1] == front[from..];
      assert last in outcomes[from..];
      assert forall o :: o in front[from..] ==> o in outcomes[from..];
      NoStretchIsLonger(front, from);
    }
  }

  /** The count kept one outcome at a time is the longest stretch the history ends in. */
  lemma StreakIsTheLongest(outcomes: seq<Outcome>, length: nat)
    ensures EndsInAStreak(outcomes, length) <==> Streak(outcomes) >= length
  {
    var from := StreakIsAStretch(outcomes);
    if EndsInAStreak(outcomes, length) {
      var f :| 0 <= f <= |outcomes| && NoneLanded(outcomes[f..]) && CountIn(outcomes[f..]) >= length;
      NoStretchIsLonger(outcomes, f);
    }
  }

  // ---- The breaker ----

  // A threshold of less than one trips at the first failure that counts.
  function TripsAt(threshold: int): nat {
    if threshold < 1 then 1 else threshold
  }

  ghost predicate StreakAt(outcomes: seq<Outcome>, threshold: int, i: nat) {
    i < |outcomes| && EndsInAStreak(outcomes[..i + 1], TripsAt(threshold))
  }

  // The outcome at i is the first to end a long enough streak.
  ghost predicate FirstTrip(outcomes: seq<Outcome>, threshold: int, i: nat) {
    StreakAt(outcomes, threshold, i) && forall j: nat :: j < i ==> !StreakAt(outcomes, threshold, j)
  }

  ghost predicate TripsOn(outcomes: seq<Outcome>, threshold: int, i: nat, cause: Cause) {
    FirstTrip(outcomes, threshold, i) && outcomes[i].Fault? && outcomes[i].cause == cause
  }

  // The history tripped on this cause, or on none.
  ghost predicate AccountsFor(history: seq<Outcome>, threshold: int, tripped: Option<Cause>) {
    match tripped
    case None => forall i: nat :: !FirstTrip(history, threshold, i)
    case Some(cause) => exists i: nat :: TripsOn(history, threshold, i, cause)
  }

  class CircuitBreaker {
    const threshold: int
    var consecutive: nat
    var trippedCause: Option<Cause>
    ghost var history: seq<Outcome>

    constructor (threshold: int)
      ensures Valid() && this.threshold == threshold && history == [] && trippedCause.None?
    {
      this.threshold := threshold;
      consecutive, trippedCause, history := 0, None, [];
    }

    ghost predicate Valid()
      reads this
    {
      && consecutive == Streak(history)
      && (trippedCause.None? ==> consecutive < TripsAt(threshold))
      && AccountsFor(history, threshold, trippedCause)
    }

    method Succeed(ghost o: Outcome)
      requires Valid() && o.Landed?
      modifies this
      ensures Valid() && history == old(history) + [o] && trippedCause == old(trippedCause)
    {
      hide FirstTrip, TripsOn;
      consecutive := 0;
      history := history + [o];
      TripsStay(old(history), o, threshold);
      StillTripped(old(history), o, threshold, trippedCause);
    }

    /** Counts a failure against the far end; the answer is whether this was the one too many. */
    method Fail(cause: Cause, ghost o: Outcome) returns (tripped: bool)
      requires Valid() && Counts(o) && o.cause == cause
      modifies this
      ensures Valid() && history == old(history) + [o]
      ensures tripped <==> old(trippedCause).None? && trippedCause.Some?
      ensures tripped <==> FirstTrip(history, threshold, |old(history)|)
    {
      hide FirstTrip, TripsOn;
      consecutive := consecutive + 1;
      history := history + [o];
      TripsStay(old(history), o, threshold);
      StillTripped(old(history), o, threshold, trippedCause);
      if consecutive < threshold || trippedCause.Some? {
        return false;
      }
      trippedCause := Some(cause);
      tripped := true;
    }

    // An outcome the breaker is not told of.
    ghost method Ignore(o: Outcome)
      requires Valid() && TellsNothing(o)
      modifies this`history
      ensures Valid() && history == old(history) + [o]
    {
      hide FirstTrip, TripsOn;
      history := history + [o];
      TripsStay(old(history), o, threshold);
      StillTripped(old(history), o, threshold, trippedCause);
    }
  }

  // One more outcome leaves the first trip where it was, or is it.
  lemma TripsStay(before: seq<Outcome>, o: Outcome, threshold: int)
    ensures Streak(before + [o]) == if o.Landed? then 0 else Streak(before) + (if Counts(o) then 1 else 0)
    ensures forall i: nat :: i < |before| ==> (FirstTrip(before, threshold, i) <==> FirstTrip(before + [o], threshold, i))
    ensures forall i: nat, cause :: TripsOn(before, threshold, i, cause) ==> TripsOn(before + [o], threshold, i, cause)
    ensures FirstTrip(before + [o], threshold, |before|) <==>
      Streak(before + [o]) >= TripsAt(threshold) && forall i: nat :: !FirstTrip(before, threshold, i)
    ensures Counts(o) && FirstTrip(before + [o], threshold, |before|) ==>
      TripsOn(before + [o], threshold, |before|, o.cause)
  {
    var after := before + [o];
    assert after[..|before|] == before;
    assert after[..|before| + 1] == after;
    forall j: nat | j < |before|
      ensures StreakAt(after, threshold, j) <==> StreakAt(before, threshold, j)
    {
      assert after[..j + 1] == before[..j + 1];
    }
    StreakIsTheLongest(after, TripsAt(threshold));
    if j: nat :| StreakAt(before, threshold, j) {
      var i := EarliestStreak(before, threshold, j);
      assert FirstTrip(before, threshold, i);
    }
  }

  lemma StillTripped(before: seq<Outcome>, o: Outcome, threshold: int, tripped: Option<Cause>)
    requires AccountsFor(before, threshold, tripped)
    ensures tripped.Some? ==> AccountsFor(before + [o], threshold, tripped) && !FirstTrip(before + [o], threshold, |before|)
    ensures tripped.None? ==>
      && (FirstTrip(before + [o], threshold, |before|) <==> Streak(before + [o]) >= TripsAt(threshold))
      && (Streak(before + [o]) < TripsAt(threshold) ==> AccountsFor(before + [o], threshold, None))
      && (Streak(before + [o]) >= TripsAt(threshold) && Counts(o) ==>
            AccountsFor(before + [o], threshold, Some(o.cause)))
  {
    hide StreakAt, Counts, Streak, FirstTrip;
    TripsStay(before, o, threshold);
    TripsAreInside(before + [o], threshold);
    if tripped.Some? {
      var i: nat :| TripsOn(before, threshold, i, tripped.value);
      assert FirstTrip(before, threshold, i) && TripsOn(before + [o], threshold, i, tripped.value);
    }
  }

  lemma TripsAreInside(outcomes: seq<Outcome>, threshold: int)
    ensures forall i: nat :: FirstTrip(outcomes, threshold, i) ==> i < |outcomes|
  {
  }

  lemma EarliestStreak(outcomes: seq<Outcome>, threshold: int, some: nat) returns (i: nat)
    requires StreakAt(outcomes, threshold, some)
    ensures FirstTrip(outcomes, threshold, i)
  {
    i := 0;
    while !StreakAt(outcomes, threshold, i)
      invariant i <= some
      invariant forall j: nat :: j < i ==> !StreakAt(outcomes, threshold, j)
      decreases some - i
    {
      i := i + 1;
    }
  }

  // ---- The tally ----

  datatype Report = Report(downloaded: nat, failed: nat, skipped: nat, bytes: nat)

  // How many outcomes a test holds of.
  function HowMany(outcomes: seq<Outcome>, test: Outcome -> bool): nat {
    if outcomes == [] then 0
    else HowMany(outcomes[..|outcomes| - 1], test) + (if test(outcomes[|outcomes| - 1]) then 1 else 0)
  }

  predicate IsDownload(o: Outcome) {
    o.Landed?
  }

  predicate IsSkip(o: Outcome) {
    o.Fault? && o.cause.NoFollowedAlbum?
  }

  predicate IsFailure(o: Outcome) {
    o.Fault? && !o.cause.NoFollowedAlbum?
  }

  function BytesOf(outcomes: seq<Outcome>): nat {
    if outcomes == [] then 0
    else
      var last := outcomes[|outcomes| - 1];
      BytesOf(outcomes[..|outcomes| - 1]) + (if last.Landed? then last.bytes else 0)
  }

  function Counted(outcomes: seq<Outcome>): Report {
    Report(HowMany(outcomes, IsDownload), HowMany(outcomes, IsFailure), HowMany(outcomes, IsSkip), BytesOf(outcomes))
  }

  lemma CountedNext(outcomes: seq<Outcome>, o: Outcome)
    ensures var r := Counted(outcomes);
      Counted(outcomes + [o]) ==
        match o
        case Landed(size) => r.(downloaded := r.downloaded + 1, bytes := r.bytes + size)
        case Fault(cause, _, _) =>
          if cause.NoFollowedAlbum? then r.(skipped := r.skipped + 1) else r.(failed := r.failed + 1)
  {
    assert (outcomes + [o])[..|outcomes|] == outcomes;
  }

  /**
   Everything the workers report, in the order they report it. Each item counts once, and the run
   stops on the cause of the first failure to end a streak of threshold failures with no success
   between them, if there is one; the breaker says so once.
   */
  method Tally(threshold: int, outcomes: seq<Outcome>)
    returns (report: Report, tripped: Option<Cause>, announced: seq<nat>)
    ensures report == Counted(outcomes)
    ensures report.downloaded + report.failed + report.skipped == |outcomes|
    ensures tripped.None? <==> forall i: nat :: !FirstTrip(outcomes, threshold, i)
    ensures tripped.Some? ==>
      |announced| == 1 && TripsOn(outcomes, threshold, announced[0], tripped.value)
    ensures tripped.None? ==> announced == []
  {
    hide FirstTrip, TripsOn, Streak, Counted;
    NothingCounted();
    var breaker := new CircuitBreaker(threshold);
    report, announced := Report(0, 0, 0, 0), [];
    for n := 0 to |outcomes|
      invariant breaker.Valid() && breaker.threshold == threshold && fresh(breaker)
      invariant breaker.history == outcomes[..n]
      invariant report == Counted(outcomes[..n]) && report.downloaded + report.failed + report.skipped == n
      invariant breaker.trippedCause.None? ==> announced == []
      invariant breaker.trippedCause.Some? ==> |announced| == 1 && FirstTrip(outcomes[..n], threshold, announced[0])
    {
      var o := outcomes[n];
      assert outcomes[..n + 1] == outcomes[..n] + [o];
      TripsStay(outcomes[..n], o, threshold);
      TripsAreInside(outcomes[..n], threshold);
      CountedNext(outcomes[..n], o);
      match o {
        case Landed(size) =>
          report := report.(downloaded := report.downloaded + 1, bytes := report.bytes + size);
          breaker.Succeed(o);
        case Fault(cause, _, _) =>
          if cause.NoFollowedAlbum? {
            report := report.(skipped := report.skipped + 1);
          } else {
            report := report.(failed := report.failed + 1);
          }
          if TellsNothing(o) {
            breaker.Ignore(o);
          } else {
            var now := breaker.Fail(cause, o);
            if now {
              announced := announced + [n];
            }
          }
      }
    }
    assert outcomes[..|outcomes|] == outcomes;
    tripped := breaker.trippedCause;
    assert AccountsFor(outcomes, threshold, tripped);
    if tripped.Some? {
      ghost var i: nat :| TripsOn(outcomes, threshold, i, tripped.value);
      TrippedOnTheFirst(outcomes, threshold, i, tripped.value);
      OneFirstTrip(outcomes, threshold, i, announced[0]);
    }
  }

  lemma NothingCounted()
    ensures Counted([]) == Report(0, 0, 0, 0)
  {
  }

  lemma TrippedOnTheFirst(outcomes: seq<Outcome>, threshold: int, i: nat, cause: Cause)
    requires TripsOn(outcomes, threshold, i, cause)
    ensures FirstTrip(outcomes, threshold, i)
  {
  }

  lemma OneFirstTrip(outcomes: seq<Outcome>, threshold: int, i: nat, j: nat)
    requires FirstTrip(outcomes, threshold, i) && FirstTrip(outcomes, threshold, j)
    ensures i == j
  {
  }
}
