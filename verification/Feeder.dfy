/**
 The work feeder: handing the workers everything a run owes while the listing is still finding out
 what that is. internal/syncer/queue.go.
 */
module Feeder {
  import opened Basics

  /** What the outside world is at one instant: the work list, favourites and newest first, whole. */
  datatype Moment = Moment(pending: seq<Key>, listingOver: bool)

  // Time, and what happens in it: nothing about the work list is known but what a query answers.
  type World = nat -> Moment

  datatype Ending = NothingLeft | CapReached | Cancelled | NoRoom | StoreError

  // Pending with its LIMIT.
  function Limited(pending: seq<Key>, limit: nat): seq<Key> {
    if |pending| <= limit then pending else pending[..limit]
  }

  // The listing ends, once and for all, and no query answers an item twice.
  ghost predicate Lawful(world: World, endsAt: nat) {
    && (forall t: nat :: Distinct(world(t).pending))
    && (forall t: nat :: t >= endsAt ==> world(t).listingOver)
    && (forall s: nat, t: nat :: s <= t && world(s).listingOver ==> world(t).listingOver)
  }

  /** Everything chance decides about a run. */
  datatype Chances = Chances(
    roomAt: nat -> bool,         // whether the disk has headroom
    cancelledAt: Option<nat>,    // when the run's context is cancelled, if it is
    sendsAnyway: nat -> bool,    // whether a send wins over a cancellation
    queryFails: nat -> bool,
    napLasts: nat -> nat)        // how long a wait for the listing takes

  // What of a batch has not been handed out, in its order and once each.
  function NewIn(sent: seq<Key>, batch: seq<Key>): seq<Key> {
    if batch == [] then []
    else
      var front, last := NewIn(sent, batch[..|batch| - 1]), batch[|batch| - 1];
      if last in sent || last in front then front else front + [last]
  }

  class Feed {
    const world: World
    const chances: Chances
    const cap: nat
    ghost const endsAt: nat
    var clock: nat
    var sent: seq<Key>

    constructor (world: World, chances: Chances, cap: nat, ghost endsAt: nat)
      ensures this.world == world && this.chances == chances && this.cap == cap && this.endsAt == endsAt
      ensures sent == [] && clock == 0
    {
      this.world, this.chances, this.cap, this.endsAt := world, chances, cap, endsAt;
      clock, sent := 0, [];
    }

    // Nothing is handed out twice, and no more than a run may take.
    ghost predicate Valid()
      reads this
    {
      Lawful(world, endsAt) && Distinct(sent) && |sent| <= cap
    }

    predicate CancelledBy(now: nat) {
      chances.cancelledAt.Some? && now >= chances.cancelledAt.value
    }

    // Room at all times, no query that fails and no cancellation up to now.
    ghost predicate Unhindered(now: nat)
      reads this
    {
      && (forall t: nat :: chances.roomAt(t))
      && (forall t: nat :: !chances.queryFails(t))
      && !CancelledBy(now)
    }

    /**
     Sends on whatever of a batch is new, first come first, while there is room and the run's allowance
     lasts.
     */
    method Offer(batch: seq<Key>) returns (handedOut: nat, roomLeft: bool)
      requires Valid()
      modifies this
      ensures Valid() && clock >= old(clock)
      ensures |sent| == |old(sent)| + handedOut && IsPrefix(old(sent), sent)
      ensures forall k :: k in sent ==> k in old(sent) || k in batch
      ensures exists n: nat :: n <= |batch| && sent == old(sent) + NewIn(old(sent), batch[..n])
      ensures !roomLeft ==> !chances.roomAt(clock)
      ensures roomLeft && |sent| < cap && !CancelledBy(clock) ==> forall k :: k in batch ==> k in sent
    {
      handedOut, roomLeft := 0, true;
      ghost var sent0 := sent;
      assert NewIn(sent0, batch[..0]) == [];
      for i := 0 to |batch|
        invariant Valid() && clock >= old(clock) && roomLeft
        invariant |sent| == |old(sent)| + handedOut && IsPrefix(old(sent), sent)
        invariant forall k :: k in sent ==> k in old(sent) || k in batch
        invariant forall k :: k in batch[..i] ==> k in sent
        invariant sent == sent0 + NewIn(sent0, batch[..i])
      {
        assert batch[..i + 1] == batch[..i] + [batch[i]] && batch[..i + 1][..i] == batch[..i];
        if batch[i] in sent { continue; }
        if |sent| >= cap { return; }
        if !chances.roomAt(clock) {
          return handedOut, false;
        }
        clock := clock + 1;
        if CancelledBy(clock) && !chances.sendsAnyway(clock) { return; }
        ghost var before := sent;
        sent := sent + [batch[i]];
        assert sent[..|before|] == before;
        handedOut := handedOut + 1;
      }
      assert batch[..|batch|] == batch;
    }

    /**
     Feeds the workers until there is nothing more to give. Each key goes out at most once and at
     most cap of them do. It stops early only for the cap, a cancellation, a full disk or a failing
     query; where none of those comes, everything pending at a query begun after the listing had
     ended was handed out. It always comes to an end once the listing does.
     */
    method Run(backlog: seq<Key>) returns (ending: Ending, ghost sampledAt: nat, ghost queriedAt: nat)
      requires Valid() && sent == []
      modifies this
      ensures Distinct(sent) && |sent| <= cap
      ensures forall k :: k in sent ==> k in backlog || exists t: nat :: k in world(t).pending
      ensures ending == NothingLeft ==>
        && sampledAt < queriedAt && world(sampledAt).listingOver
        && (forall k :: k in world(queriedAt).pending ==> k in sent)
      ensures ending == CapReached ==> |sent| == cap
      ensures ending == Cancelled ==> CancelledBy(clock)
      ensures ending == NoRoom ==> !chances.roomAt(clock)
      ensures ending == StoreError ==> chances.queryFails(clock)
      ensures Unhindered(clock) && |sent| < cap ==>
        && world(sampledAt).listingOver && sampledAt < queriedAt
        && (forall k :: k in world(queriedAt).pending ==> k in sent)
    {
      var batch, listingOver := backlog, false;
      sampledAt, queriedAt := 0, 0;
      while true
        invariant Valid()
        invariant forall k :: k in sent ==> k in backlog || exists t: nat :: k in world(t).pending
        invariant forall k :: k in batch ==> k in backlog || exists t: nat :: k in world(t).pending
        invariant listingOver ==>
          sampledAt < queriedAt && world(sampledAt).listingOver && batch == Limited(world(queriedAt).pending, cap)
        decreases if clock < endsAt then endsAt - clock else 0, cap - |sent|, if listingOver then 0 else 1
      {
        var handedOut, roomLeft := Offer(batch);
        if !roomLeft {
          return NoRoom, sampledAt, queriedAt;
        }
        if |sent| >= cap {
          return CapReached, sampledAt, queriedAt;
        }
        if CancelledBy(clock) {
          return Cancelled, sampledAt, queriedAt;
        }
        if handedOut == 0 {
          if listingOver {
            LimitDidNotBite(world(queriedAt).pending, cap, sent);
            return NothingLeft, sampledAt, queriedAt;
          }
          clock := clock + chances.napLasts(clock);
          if CancelledBy(clock) {
            return Cancelled, sampledAt, queriedAt;
          }
        }

        // Sampled before the query: a listing that ends in between gets one more look.
        clock := clock + 1;
        listingOver, sampledAt := world(clock).listingOver, clock;
        clock := clock + 1;
        if chances.queryFails(clock) {
          return StoreError, sampledAt, queriedAt;
        }
        batch, queriedAt := Limited(world(clock).pending, cap), clock;
      }
    }
  }

  // A list all of which went out under the cap was not cut short by its limit.
  lemma LimitDidNotBite(pending: seq<Key>, cap: nat, sent: seq<Key>)
    requires Distinct(pending) && Distinct(sent) && |sent| < cap
    requires forall k :: k in Limited(pending, cap) ==> k in sent
    ensures Limited(pending, cap) == pending
  {
    var taken := Limited(pending, cap);
    DistinctCount(taken);
    DistinctCount(sent);
    SubsetCount(Elements(taken), Elements(sent));
  }

  /**
   Sampling after the query instead would lose whatever the listing wrote last: there is a world in
   which the listing is over when sampled and the query just before it missed an item.
   */
  lemma SamplingAfterwardsWouldMiss() returns (world: World, queriedAt: nat, sampledAt: nat)
    ensures Lawful(world, 2) && queriedAt < sampledAt && world(sampledAt).listingOver
    ensures world(queriedAt).pending == [] && world(sampledAt).pending != []
  {
    world := (t: nat) => if t < 2 then Moment([], false) else Moment([7], true);
    queriedAt, sampledAt := 1, 2;
  }
}
