/**
 Every run at once: one lister walking albums and the library, any number of download workers
 writing the same rows, the user settling the review queue and the duplicates command forgetting rows,
 interleaved in any order at all. Each step is one statement or one transaction, which is what a
 store with a single connection makes atomic.
 */
module Run {
  import opened Basics
  import opened StoreState
  import opened Lifecycle
  import opened StoreClass
  import opened LibraryWalk

  datatype Lister =
    | Idle
    | Walking(album: AlbumId, members: map<Key, Time>, seen: set<Key>, recording: Option<Key>)

  // lost is every key that has been written off at some moment of the history.
  datatype World = World(t: Tables, lister: Lister, lost: set<Key>)

  datatype Step =
    | BeginWalk(album: AlbumId)
    | Record(item: Item)
    | Join(key: Key)
    | ConcludeAlbum(departed: seq<Key>, at: Time)
    | ConcludeLibrary(departed: seq<Key>, at: Time, pages: seq<Page>, since: Time, newOnly: bool, stop: Stop)
    | Abandon
    | Work(w: Write)
    | Review(w: Write)
    | ForgetTwin(key: Key)

  predicate Enabled(s: World, step: Step) {
    match step
    case BeginWalk(_) => s.lister.Idle?
    case Record(_) => s.lister.Walking? && s.lister.recording.None?
    case Join(key) =>
      && s.lister.Walking? && s.lister.recording == Some(key)
      && key in s.t.items && s.lister.album in s.t.albums
    case ConcludeAlbum(departed, _) =>
      && s.lister.Walking? && s.lister.recording.None? && s.lister.album != Library
      && Elements(departed) == DeparturesOf(s.lister.members, s.lister.seen, 0)
    case ConcludeLibrary(departed, _, pages, since, newOnly, stop) =>
      && s.lister.Walking? && s.lister.recording.None? && s.lister.album == Library
      && Completes(pages, since, newOnly, s.lister.members, stop)
      && s.lister.seen == SeenIn(Flatten(pages), since)
      && Elements(departed) == (if s.lister.seen == {} then {}
                                else DeparturesOf(s.lister.members, s.lister.seen, VouchedFrom(since, stop)))
    case Abandon => s.lister.Walking?
    case Work(w) => IssuedByAWorker(w)
    case Review(w) => w.FlagForReview? || w.ClearNeedsReview?
    case ForgetTwin(key) => key in s.lost
  }

  function Written(s: World, step: Step): Tables {
    match step
    case Record(item) => Apply(s.t, UpsertItem(item))
    case Join(key) => if s.lister.Walking? then Apply(s.t, LinkItem(s.lister.album, key)) else s.t
    case ConcludeAlbum(departed, at) =>
      if s.lister.Walking? then Apply(s.t, Reconcile(s.lister.album, departed, at)) else s.t
    case ConcludeLibrary(departed, at, _, _, _, _) => Apply(s.t, Reconcile(Library, departed, at))
    case Work(w) => Apply(s.t, w)
    case Review(w) => Apply(s.t, w)
    case ForgetTwin(key) => Apply(s.t, Forget(key))
    case _ => s.t
  }

  function Next(s: World, step: Step): World {
    var t := Written(s, step);
    var lister := match step
      case BeginWalk(album) => Walking(album, MembersOf(s.t, album), {}, None)
      case Record(item) => if s.lister.Walking? then s.lister.(recording := Some(item.key)) else s.lister
      case Join(key) =>
        if s.lister.Walking? then s.lister.(recording := None, seen := s.lister.seen + {key}) else s.lister
      case ConcludeAlbum(_, _) => Idle
      case ConcludeLibrary(_, _, _, _, _, _) => Idle
      case Abandon => Idle
      case _ => s.lister;
    World(t, lister, s.lost + set k | k in t.items && IsMissing(t.items, k))
  }

  predicate Allowed(s: World, steps: seq<Step>)
    decreases |steps|
  {
    steps == [] || (Enabled(s, steps[0]) && Allowed(Next(s, steps[0]), steps[1..]))
  }

  function After(s: World, steps: seq<Step>): World
    decreases |steps|
  {
    if steps == [] then s else After(Next(s, steps[0]), steps[1..])
  }

  // ---- What every reachable state keeps ----

  // The members a walk has yet to go past are still linked to the album, rows and all.
  ghost predicate WalkHolds(s: World) {
    s.lister.Walking? ==>
      forall k :: k in s.lister.members && k !in s.lister.seen && Some(k) != s.lister.recording && k in s.t.items
        ==> (s.lister.album, k) in s.t.links
  }

  ghost predicate Inv(s: World) {
    && SoundRows(s.t) && LinksResolve(s.t) && MissingKeepsALink(s.t)
    && WalkHolds(s)
    && (forall k :: IsMissing(s.t.items, k) ==> k in s.lost)
  }

  lemma ReconcileKeepsLinksOfMissing(t: Tables, album: AlbumId, departed: seq<Key>, at: Time)
    requires MissingKeepsALink(t)
    requires forall k :: k in departed && k in t.items ==> (album, k) in t.links
    ensures MissingKeepsALink(Apply(t, Reconcile(album, departed, at)))
  {
    ReconcileMeaning(t, album, departed, at);
    var u := Apply(t, Reconcile(album, departed, at));
    forall k | IsMissing(u.items, k)
      ensures exists link :: link in u.links && link.1 == k
    {
      if IsMissing(t.items, k) {
        var link :| link in t.links && link.1 == k;
        assert link in u.links;
      } else {
        assert (album, k) in u.links;
      }
    }
  }

  lemma StepKeepsMissingLinked(s: World, step: Step)
    requires Inv(s) && Enabled(s, step)
    ensures MissingKeepsALink(Written(s, step))
  {
    var t, u := s.t, Written(s, step);
    match step
    case ConcludeAlbum(departed, at) =>
      assert forall k :: k in departed <==> k in Elements(departed);
      ReconcileKeepsLinksOfMissing(t, s.lister.album, departed, at);
    case ConcludeLibrary(departed, at, _, _, _, _) =>
      assert forall k :: k in departed <==> k in Elements(departed);
      ReconcileKeepsLinksOfMissing(t, Library, departed, at);
    case _ =>
      forall k | IsMissing(u.items, k)
        ensures exists link :: link in u.links && link.1 == k
      {
        assert IsMissing(t.items, k);
        var link :| link in t.links && link.1 == k;
        assert link in u.links;
      }
  }

  lemma StepKeepsTheWalk(s: World, step: Step)
    requires Inv(s) && Enabled(s, step)
    ensures WalkHolds(Next(s, step))
  {
    if step.BeginWalk? {
      assert forall k :: k in MembersOf(s.t, step.album) <==> (step.album, k) in s.t.links;
    }
  }

  lemma StepKeepsInv(s: World, step: Step)
    requires Inv(s) && Enabled(s, step)
    ensures Inv(Next(s, step))
  {
    hide MissingKeepsALink, WalkHolds, Enabled, Written;
    StepKeepsMissingLinked(s, step);
    StepKeepsTheWalk(s, step);
    StepKeepsRows(s, step);
  }

  lemma StepKeepsRows(s: World, step: Step)
    requires SoundRows(s.t) && LinksResolve(s.t) && Enabled(s, step)
    ensures SoundRows(Written(s, step)) && LinksResolve(Written(s, step))
  {
    hide SoundRow, LinksResolve, DeparturesOf, Completes, SeenIn, SoundRows, Apply;
    match step
    case Record(item) => SoundRowsKept(s.t, UpsertItem(item)); LinksResolveKept(s.t, UpsertItem(item));
    case Join(key) =>
      SoundRowsKept(s.t, LinkItem(s.lister.album, key));
      LinksResolveKept(s.t, LinkItem(s.lister.album, key));
    case ConcludeAlbum(departed, at) =>
      SoundRowsKept(s.t, Reconcile(s.lister.album, departed, at));
      LinksResolveKept(s.t, Reconcile(s.lister.album, departed, at));
    case ConcludeLibrary(departed, at, _, _, _, _) =>
      SoundRowsKept(s.t, Reconcile(Library, departed, at));
      LinksResolveKept(s.t, Reconcile(Library, departed, at));
    case Work(w) => SoundRowsKept(s.t, w); LinksResolveKept(s.t, w);
    case Review(w) => SoundRowsKept(s.t, w); LinksResolveKept(s.t, w);
    case ForgetTwin(key) => SoundRowsKept(s.t, Forget(key)); LinksResolveKept(s.t, Forget(key));
    case _ =>
  }

  /** A run may begin on any tables the rules hold of, those of a store just opened among them. */
  lemma Begins(t: Tables)
    ensures SoundRows(t) && LinksResolve(t) && MissingKeepsALink(t) ==>
      Inv(World(t, Idle, set k | k in t.items && IsMissing(t.items, k)))
    ensures t.items == map[] && t.links == {} ==> SoundRows(t) && LinksResolve(t) && MissingKeepsALink(t)
  {
  }

  /**
   In every state any interleaving reaches: missing_since is set exactly on the rows written off, a
   done row names a file, links resolve, and every written-off item is in some album.
   */
  lemma {:induction false} EveryReachableState(s: World, steps: seq<Step>)
    requires Inv(s) && Allowed(s, steps)
    ensures Inv(After(s, steps))
    decreases |steps|
  {
    if steps != [] {
      StepKeepsInv(s, steps[0]);
      EveryReachableState(Next(s, steps[0]), steps[1..]);
    }
  }

  // ---- A photo that is still there ----

  // What Google says of one photo is true: its date whenever it is listed, and its place in the
  // timeline every completed library walk was served from.
  ghost predicate HonestAbout(step: Step, key: Key, date: Time) {
    match step
    case Record(item) => item.key == key ==> item.captured == date
    case ConcludeLibrary(_, _, pages, since, _, stop) =>
      FloorIsADate(since, stop) && exists timeline :: HoldsPhoto(timeline, pages, key, date)
    case _ => true
  }

  predicate HoldsPhoto(timeline: seq<Item>, pages: seq<Page>, key: Key, date: Time) {
    && Serves(timeline, pages) && NewestFirstWithinTheWobble(timeline)
    && key in KeysOf(timeline)
    && (forall item | item in timeline :: item.key == key ==> item.captured == date)
  }

  // The library holds the photo, under the date Google gives it, and nothing has written it off.
  predicate Safe(s: World, key: Key, date: Time) {
    && (Library, key) in s.t.links
    && key in s.t.items && !IsMissing(s.t.items, key) && key !in s.lost
    && s.t.items[key].captured == NullableTime(date)
    && (s.lister.Walking? && key in s.lister.members ==> s.lister.members[key] == date)
  }

  lemma SafeThroughReconcile(t: Tables, album: AlbumId, departed: seq<Key>, at: Time, key: Key)
    requires (Library, key) in t.links && key in t.items && !IsMissing(t.items, key)
    requires album == Library ==> key !in departed
    ensures var u := Apply(t, Reconcile(album, departed, at));
      (Library, key) in u.links && key in u.items && u.items[key] == t.items[key]
  {
    ReconcileMeaning(t, album, departed, at);
    assert album != Library ==> LinkedElsewhere(t.links, album, key);
  }

  lemma NotAmongTheDepartures(s: World, step: Step, key: Key, date: Time)
    requires step.ConcludeLibrary? && Enabled(s, step) && HonestAbout(step, key, date) && Safe(s, key, date)
    ensures key !in step.departed
  {
    if key in step.departed {
      var timeline :| HoldsPhoto(timeline, step.pages, key, date);
      assert key in Elements(step.departed);
      WalkDepartsExactly(timeline, step.pages, step.since, step.newOnly, s.lister.members, step.stop, key);
      assert false;
    }
  }

  lemma StepKeepsSafe(s: World, step: Step, key: Key, date: Time)
    requires Enabled(s, step) && HonestAbout(step, key, date) && Safe(s, key, date)
    ensures Safe(Next(s, step), key, date)
  {
    match step
    case ConcludeAlbum(departed, at) => SafeThroughReconcile(s.t, s.lister.album, departed, at, key);
    case ConcludeLibrary(departed, at, _, _, _, _) =>
      NotAmongTheDepartures(s, step, key, date);
      SafeThroughReconcile(s.t, Library, departed, at, key);
    case _ =>
  }

  /**
   Never write off a photo that is still there. Over any history of walks of any albums and of the
   library, whole or cut short, failed or completed, beside any work of the download workers: a
   photo the library holds and the timeline goes on holding is never written off and never leaves
   the library.
   */
  lemma {:induction false} StillThereIsNeverWrittenOff(s: World, steps: seq<Step>, key: Key, date: Time)
    requires Allowed(s, steps) && Safe(s, key, date)
    requires forall step :: step in steps ==> HonestAbout(step, key, date)
    ensures Safe(After(s, steps), key, date)
    decreases |steps|
  {
    if steps != [] {
      StepKeepsSafe(s, steps[0], key, date);
      StillThereIsNeverWrittenOff(Next(s, steps[0]), steps[1..], key, date);
    }
  }

  // ---- A write-off stands ----

  predicate Relists(step: Step, key: Key) {
    (step.Record? && step.item.key == key) || step == ForgetTwin(key)
  }

  lemma WriteKeepsWriteOff(t: Tables, w: Write, key: Key)
    requires IsMissing(t.items, key) && t.items[key].missingSince.Some?
    requires w != Forget(key) && (w.UpsertItem? ==> w.item.key != key)
    ensures var u := Apply(t, w);
      IsMissing(u.items, key) && u.items[key].missingSince == t.items[key].missingSince
  {
    if w.Reconcile? {
      ReconcileMeaning(t, w.album, w.departed, w.at);
    }
  }

  lemma StepKeepsWriteOff(s: World, step: Step, key: Key)
    requires SoundRows(s.t) && Enabled(s, step) && IsMissing(s.t.items, key) && !Relists(step, key)
    ensures var u := Written(s, step);
      IsMissing(u.items, key) && u.items[key].missingSince == s.t.items[key].missingSince
  {
    hide Apply, DeparturesOf, Completes, SeenIn;
    match step
    case Record(item) => WriteKeepsWriteOff(s.t, UpsertItem(item), key);
    case Join(k) => WriteKeepsWriteOff(s.t, LinkItem(s.lister.album, k), key);
    case ConcludeAlbum(departed, at) => WriteKeepsWriteOff(s.t, Reconcile(s.lister.album, departed, at), key);
    case ConcludeLibrary(departed, at, _, _, _, _) => WriteKeepsWriteOff(s.t, Reconcile(Library, departed, at), key);
    case Work(w) => WriteKeepsWriteOff(s.t, w, key);
    case Review(w) => WriteKeepsWriteOff(s.t, w, key);
    case ForgetTwin(k) => WriteKeepsWriteOff(s.t, Forget(k), key);
    case _ =>
  }

  /** A write-off, and the date it was noticed, stands until the item is listed again. */
  lemma {:induction false} WriteOffStands(s: World, steps: seq<Step>, key: Key)
    requires Inv(s) && Allowed(s, steps) && IsMissing(s.t.items, key)
    requires forall step :: step in steps ==> !Relists(step, key)
    ensures var u := After(s, steps).t;
      IsMissing(u.items, key) && u.items[key].missingSince == s.t.items[key].missingSince
    decreases |steps|
  {
    if steps != [] {
      StepKeepsInv(s, steps[0]);
      StepKeepsWriteOff(s, steps[0], key);
      WriteOffStands(Next(s, steps[0]), steps[1..], key);
    }
  }
}
