/**
 The thumbnail cache: one upstream request per key however many cells ask at once, and eviction
 oldest first. internal/thumbs/thumbs.go.
 */
module Thumbs {
  import opened Basics

  // ---- One fetch at a time ----

  type Request = nat
  type FetchId = nat

  datatype Answer = Bytes(of: nat) | Cancelled | Broken

  datatype Stage =
    | Looking                              // about to take the lock
    | Waiting(on: FetchId)
    | Fetching(id: FetchId)                // leading, upstream request under way
    | Unregistering(id: FetchId, answer: Answer)
    | Returned(answer: Answer)

  /**
   Every request in the cache for the keys they want. done holds the answers of the fetches whose
   channel is closed; waiting is the cache's own map.
   */
  datatype Cache = Cache(wants: map<Request, Key>, stages: map<Request, Stage>, cancelled: set<Request>,
                         waiting: map<Key, FetchId>, leader: map<FetchId, Request>, done: map<FetchId, Answer>)

  datatype Step =
    | Arrive(r: Request, key: Key)
    | Abandon(r: Request)                  // the browser lets the request go
    | Look(r: Request, id: FetchId)        // under the lock: join the fetch there is, or register one
    | Upstream(r: Request, answer: Answer) // the fetch ends, and its channel is closed
    | Unregister(r: Request)
    | Wake(r: Request)                     // the fetch waited on has ended
    | OwnContextEnds(r: Request)

  predicate Enabled(c: Cache, step: Step) {
    match step
    case Arrive(r, _) => r !in c.stages
    case Abandon(r) => r in c.stages
    case Look(r, id) => r in c.stages && r in c.wants && c.stages[r].Looking? && id !in c.leader
    case Upstream(r, answer) =>
      r in c.stages && c.stages[r].Fetching? && (answer.Cancelled? ==> r in c.cancelled)
    case Unregister(r) => r in c.stages && r in c.wants && c.stages[r].Unregistering?
    case Wake(r) => r in c.stages && c.stages[r].Waiting? && c.stages[r].on in c.done
    case OwnContextEnds(r) => r in c.stages && c.stages[r].Waiting? && r in c.cancelled
  }

  function Next(c: Cache, step: Step): Cache
    requires Enabled(c, step)
  {
    match step
    case Arrive(r, key) => c.(wants := c.wants[r := key], stages := c.stages[r := Looking])
    case Abandon(r) => c.(cancelled := c.cancelled + {r})
    case Look(r, id) =>
      var key := c.wants[r];
      if key in c.waiting then c.(stages := c.stages[r := Waiting(c.waiting[key])])
      else c.(stages := c.stages[r := Fetching(id)], waiting := c.waiting[key := id], leader := c.leader[id := r])
    case Upstream(r, answer) =>
      var id := c.stages[r].id;
      c.(stages := c.stages[r := Unregistering(id, answer)], done := c.done[id := answer])
    case Unregister(r) =>
      c.(stages := c.stages[r := Returned(c.stages[r].answer)], waiting := c.waiting - {c.wants[r]})
    case Wake(r) =>
      var answer := c.done[c.stages[r].on];
      c.(stages := c.stages[r := if answer.Cancelled? then Looking else Returned(answer)])
    case OwnContextEnds(r) => c.(stages := c.stages[r := Returned(Cancelled)])
  }

  // A request that has registered a fetch and not yet taken the registration down.
  predicate Leads(c: Cache, r: Request) {
    r in c.stages && (c.stages[r].Fetching? || c.stages[r].Unregistering?)
  }

  // A leader's registration is its own.
  ghost predicate LeadersRegistered(c: Cache) {
    forall r :: Leads(c, r) ==>
      && r in c.wants && c.wants[r] in c.waiting && c.waiting[c.wants[r]] == c.stages[r].id
      && c.stages[r].id in c.leader && c.leader[c.stages[r].id] == r
  }

  // A registration is some leader's.
  ghost predicate RegistrationsLed(c: Cache) {
    forall key :: key in c.waiting ==>
      && c.waiting[key] in c.leader && Leads(c, c.leader[c.waiting[key]])
      && c.leader[c.waiting[key]] in c.wants && c.wants[c.leader[c.waiting[key]]] == key
  }

  // A fetch waited on was made for the same key.
  ghost predicate WaitersMatch(c: Cache) {
    forall r :: r in c.stages && c.stages[r].Waiting? ==>
      && r in c.wants && c.stages[r].on in c.leader && c.leader[c.stages[r].on] in c.wants
      && c.wants[c.leader[c.stages[r].on]] == c.wants[r]
  }

  ghost predicate CancellationsOwn(c: Cache) {
    && (forall r :: r in c.stages && c.stages[r] == Returned(Cancelled) ==> r in c.cancelled)
    && (forall r :: r in c.stages && c.stages[r].Unregistering? && c.stages[r].answer.Cancelled? ==> r in c.cancelled)
  }

  // A fetch of the key this request wants ended in this answer.
  ghost predicate FetchedFor(c: Cache, r: Request, answer: Answer)
    requires r in c.wants
  {
    exists id :: id in c.done && c.done[id] == answer && id in c.leader && c.leader[id] in c.wants
                 && c.wants[c.leader[id]] == c.wants[r]
  }

  // Every fetch ends once.
  ghost predicate FetchesEndOnce(c: Cache) {
    && (forall id :: id in c.done ==> id in c.leader)
    && (forall r :: r in c.stages && c.stages[r].Fetching? ==> c.stages[r].id !in c.done)
    && (forall r :: r in c.stages && c.stages[r].Unregistering? ==>
          c.stages[r].id in c.done && c.done[c.stages[r].id] == c.stages[r].answer)
  }

  // What a request is told is how a fetch of its own key ended.
  ghost predicate AnswersFetched(c: Cache) {
    forall r :: r in c.stages && r in c.wants && c.stages[r].Returned? && !c.stages[r].answer.Cancelled? ==>
      FetchedFor(c, r, c.stages[r].answer)
  }

  ghost predicate Inv(c: Cache) {
    && c.stages.Keys == c.wants.Keys
    && LeadersRegistered(c) && RegistrationsLed(c) && WaitersMatch(c) && CancellationsOwn(c) && FetchesEndOnce(c)
    && AnswersFetched(c)
  }

  /** A cache nobody has asked anything of. */
  lemma Begins()
    ensures Inv(Cache(map[], map[], {}, map[], map[], map[]))
  {
  }

  lemma StepKeepsLeaders(c: Cache, step: Step)
    requires Inv(c) && Enabled(c, step)
    ensures LeadersRegistered(Next(c, step))
  {
    hide WaitersMatch, CancellationsOwn, FetchesEndOnce, AnswersFetched;
    var d := Next(c, step);
    forall s | Leads(d, s)
      ensures s in d.wants && d.wants[s] in d.waiting && d.waiting[d.wants[s]] == d.stages[s].id
      ensures d.stages[s].id in d.leader && d.leader[d.stages[s].id] == s
    {
      if s in c.stages && (step.Upstream? || s != step.r) {
        assert Leads(c, s);
        if step.Unregister? {
          assert Leads(c, step.r);
        }
      }
    }
  }

  lemma StepKeepsRegistrations(c: Cache, step: Step)
    requires Inv(c) && Enabled(c, step)
    ensures RegistrationsLed(Next(c, step))
  {
    hide WaitersMatch, CancellationsOwn, FetchesEndOnce, AnswersFetched;
    var d := Next(c, step);
    forall key | key in d.waiting
      ensures d.waiting[key] in d.leader && Leads(d, d.leader[d.waiting[key]])
      ensures d.leader[d.waiting[key]] in d.wants && d.wants[d.leader[d.waiting[key]]] == key
    {
    }
  }

  lemma StepKeepsWaiters(c: Cache, step: Step)
    requires Inv(c) && Enabled(c, step)
    ensures WaitersMatch(Next(c, step))
  {
    hide LeadersRegistered, CancellationsOwn, FetchesEndOnce, AnswersFetched;
  }

  lemma StepKeepsCancellations(c: Cache, step: Step)
    requires Inv(c) && Enabled(c, step)
    ensures CancellationsOwn(Next(c, step)) && Next(c, step).stages.Keys == Next(c, step).wants.Keys
  {
    hide LeadersRegistered, RegistrationsLed, WaitersMatch, FetchesEndOnce, AnswersFetched;
  }

  lemma StepKeepsEndings(c: Cache, step: Step)
    requires Inv(c) && Enabled(c, step)
    ensures FetchesEndOnce(Next(c, step))
  {
    hide RegistrationsLed, CancellationsOwn, AnswersFetched;
    if step.Upstream? {
      assert Leads(c, step.r);
    }
    assert forall r :: r in c.stages && (c.stages[r].Fetching? || c.stages[r].Unregistering?) ==> Leads(c, r);
  }

  lemma StepKeepsAnswers(c: Cache, step: Step)
    requires Inv(c) && Enabled(c, step)
    ensures AnswersFetched(Next(c, step))
  {
    hide RegistrationsLed, CancellationsOwn;
    var d := Next(c, step);
    if step.Upstream? {
      assert Leads(c, step.r);
    }
    forall r | r in d.stages && r in d.wants && d.stages[r].Returned? && !d.stages[r].answer.Cancelled?
      ensures FetchedFor(d, r, d.stages[r].answer)
    {
      var answer := d.stages[r].answer;
      if r in c.stages && c.stages[r].Returned? {
        assert FetchedFor(c, r, answer);
        var id :| id in c.done && c.done[id] == answer && id in c.leader && c.leader[id] in c.wants
                  && c.wants[c.leader[id]] == c.wants[r];
        assert id in d.done && d.done[id] == answer;
      } else if step.Unregister? {
        assert Leads(c, r);
        assert d.done[c.stages[r].id] == answer;
      } else {
        assert d.done[c.stages[r].on] == answer;
      }
    }
  }

  lemma StepKeepsInv(c: Cache, step: Step)
    requires Inv(c) && Enabled(c, step)
    ensures Inv(Next(c, step))
  {
    hide LeadersRegistered, RegistrationsLed, WaitersMatch, CancellationsOwn, FetchesEndOnce, AnswersFetched, Enabled, Next;
    StepKeepsLeaders(c, step);
    StepKeepsRegistrations(c, step);
    StepKeepsWaiters(c, step);
    StepKeepsCancellations(c, step);
    StepKeepsEndings(c, step);
    StepKeepsAnswers(c, step);
  }

  predicate Allowed(c: Cache, steps: seq<Step>)
    decreases |steps|
  {
    steps == [] || (Enabled(c, steps[0]) && Allowed(Next(c, steps[0]), steps[1..]))
  }

  function After(c: Cache, steps: seq<Step>): Cache
    requires Allowed(c, steps)
    decreases |steps|
  {
    if steps == [] then c else After(Next(c, steps[0]), steps[1..])
  }

  /**
   In every interleaving, at most one upstream request for a key is under way; only a request its own
   browser let go of is answered with a cancellation, never its leader's; and any other answer is how
   an upstream request for the same key ended.
   */
  lemma {:induction false} SingleFlight(c: Cache, steps: seq<Step>)
    requires Inv(c) && Allowed(c, steps)
    ensures var d := After(c, steps);
      && Inv(d)
      && (forall r, s | r in d.stages && s in d.stages && r != s ::
            d.stages[r].Fetching? && d.stages[s].Fetching? ==> d.wants[r] != d.wants[s])
      && (forall r :: r in d.stages && d.stages[r] == Returned(Cancelled) ==> r in d.cancelled)
      && (forall r :: r in d.stages && d.stages[r].Returned? && !d.stages[r].answer.Cancelled? ==>
            FetchedFor(d, r, d.stages[r].answer))
    decreases |steps|
  {
    if steps == [] {
      forall r, s | r in c.stages && s in c.stages && r != s && c.stages[r].Fetching? && c.stages[s].Fetching?
        ensures c.wants[r] != c.wants[s]
      {
        assert Leads(c, r) && Leads(c, s);
      }
    } else {
      StepKeepsInv(c, steps[0]);
      SingleFlight(Next(c, steps[0]), steps[1..]);
    }
  }

  // ---- Eviction ----

  datatype File = File(id: nat, size: nat, modified: Time)

  const SWEEP_SLACK: int := 10

  function Total(files: seq<File>): nat {
    if files == [] then 0 else files[0].size + Total(files[1..])
  }

  predicate OldestFirst(files: seq<File>) {
    forall i, j :: 0 <= i < j < |files| ==> files[i].modified <= files[j].modified
  }

  // What a sweep cuts down to, leaving a tenth of the cap, rounded down, free.
  function Target(maxBytes: int): int {
    maxBytes - maxBytes / SWEEP_SLACK
  }

  lemma {:induction false} TotalSplit(files: seq<File>, i: nat)
    requires i < |files|
    ensures Total(files[i..]) == files[i].size + Total(files[i + 1..])
  {
    assert files[i..][1..] == files[i + 1..];
  }

  /**
   Removes files, oldest first, until what is left is comfortably under the cap. stuck are the files
   that cannot be removed. If none is, what goes is the shortest oldest-first stretch that brings
   the cache to its target, and nothing at all if the cache was within its cap.
   */
  method Sweep(maxBytes: int, files: seq<File>, stuck: set<File>) returns (removed: seq<File>, left: int)
    requires OldestFirst(files)
    ensures maxBytes <= 0 || Total(files) <= maxBytes ==> removed == [] && left == Total(files)
    ensures forall f :: f in removed ==> f in files && f !in stuck
    ensures left == Total(files) - Total(removed)
    ensures maxBytes > 0 && Total(files) > maxBytes && (forall f :: f in files ==> f !in stuck) ==>
      && IsPrefix(removed, files) && removed != []
      && left == Total(files[|removed|..]) <= Target(maxBytes)
      && Total(files[|removed| - 1..]) > Target(maxBytes)
      && left <= maxBytes - maxBytes / 10 < Total(files[|removed| - 1..])
  {
    removed, left := [], Total(files);
    if maxBytes <= 0 || left <= maxBytes {
      return;
    }
    var target := Target(maxBytes);
    ghost var easy := forall f :: f in files ==> f !in stuck;
    var i := 0;
    while i < |files|
      invariant 0 <= i <= |files|
      invariant forall f :: f in removed ==> f in files && f !in stuck
      invariant left == Total(files) - Total(removed)
      invariant easy ==> removed == files[..i] && left == Total(files[i..])
      invariant easy && i > 0 ==> Total(files[i - 1..]) > target
    {
      if left <= target {
        break;
      }
      TotalSplit(files, i);
      if files[i] !in stuck {
        TotalAppend(removed, files[i]);
        removed := removed + [files[i]];
        left := left - files[i].size;
      }
      i := i + 1;
    }
    assert i == |files| ==> files[i..] == [];
  }

  lemma {:induction false} TotalAppend(files: seq<File>, f: File)
    ensures Total(files + [f]) == Total(files) + f.size
    decreases |files|
  {
    if files == [] {
      assert files + [f] == [f];
    } else {
      assert (files + [f])[1..] == files[1..] + [f];
      TotalAppend(files[1..], f);
    }
  }
}
