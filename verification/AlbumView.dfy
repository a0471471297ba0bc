/**
 The browsable album view: one directory of symlinks per album, reconciled rather than rebuilt, in
 directories that may hold other people's files. internal/links/links.go.
 */
module AlbumView {
  import opened Basics

  type Name = string

  datatype Entry = Symlink(target: string) | Foreign

  type Directory = map<Name, Entry>

  datatype Report = Report(links: nat, removed: nat, skipped: nat)

  /** What a directory should come to: the plan's links, but for names somebody else's file holds. */
  function Reconciled(was: Directory, plan: map<Name, string>): Directory {
    map name | name in was.Keys + plan.Keys && (name in plan || was[name].Foreign?) ::
      if name in was && was[name].Foreign? then Foreign else Symlink(plan[name])
  }

  // On the way there: what was foreign is as it was, and nothing else has become foreign.
  ghost predicate NothingForeignTouched(was: Directory, now: Directory) {
    forall name :: (name in was && was[name].Foreign?) <==> (name in now && now[name].Foreign?)
  }

  // An entry the first pass leaves: somebody else's file, or a link that is already right.
  predicate Stays(was: Directory, plan: map<Name, string>, name: Name) {
    name in was && (was[name].Foreign? || (name in plan && was[name].target == plan[name]))
  }

  // Of some names: the links that are right already, those nothing asks for, and what is not ours.
  function RightAmong(was: Directory, plan: map<Name, string>, names: set<Name>): set<Name> {
    set name | name in names && name in was && was[name].Symlink? && Stays(was, plan, name)
  }

  function StaleAmong(was: Directory, plan: map<Name, string>, names: set<Name>): set<Name> {
    set name | name in names && name in was && was[name].Symlink? && name !in plan
  }

  function ForeignAmong(was: Directory, names: set<Name>): set<Name> {
    set name | name in names && name in was && was[name].Foreign?
  }

  function DroppedAmong(was: Directory, plan: map<Name, string>, names: set<Name>): set<Name> {
    set name | name in names && name in was && !Stays(was, plan, name)
  }

  function LinksOf(dir: Directory): set<Name> {
    set name | name in dir && dir[name].Symlink?
  }

  // What the first pass reports, having looked at these names.
  function Looked(was: Directory, plan: map<Name, string>, names: set<Name>): Report {
    Report(|RightAmong(was, plan, names)|, |StaleAmong(was, plan, names)|, |ForeignAmong(was, names)|)
  }

  lemma LookAtOne(was: Directory, plan: map<Name, string>, names: set<Name>, name: Name)
    requires name in was && name !in names
    ensures var r := Looked(was, plan, names);
      Looked(was, plan, names + {name}) ==
        if was[name].Foreign? then r.(skipped := r.skipped + 1)
        else if Stays(was, plan, name) then r.(links := r.links + 1)
        else if name !in plan then r.(removed := r.removed + 1)
        else r
  {
    RightNext(was, plan, names, name);
    StaleNext(was, plan, names, name);
    ForeignNext(was, names, name);
    hide RightAmong, StaleAmong, ForeignAmong;
  }

  lemma RightNext(was: Directory, plan: map<Name, string>, names: set<Name>, name: Name)
    requires name in was && name !in names
    ensures |RightAmong(was, plan, names + {name})|
         == |RightAmong(was, plan, names)| + if was[name].Symlink? && Stays(was, plan, name) then 1 else 0
  {
    hide Stays;
    assert RightAmong(was, plan, names + {name})
        == RightAmong(was, plan, names) + if was[name].Symlink? && Stays(was, plan, name) then {name} else {};
  }

  lemma StaleNext(was: Directory, plan: map<Name, string>, names: set<Name>, name: Name)
    requires name in was && name !in names
    ensures |StaleAmong(was, plan, names + {name})|
         == |StaleAmong(was, plan, names)| + if was[name].Symlink? && name !in plan then 1 else 0
  {
    assert StaleAmong(was, plan, names + {name})
        == StaleAmong(was, plan, names) + if was[name].Symlink? && name !in plan then {name} else {};
  }

  lemma ForeignNext(was: Directory, names: set<Name>, name: Name)
    requires name in was && name !in names
    ensures |ForeignAmong(was, names + {name})| == |ForeignAmong(was, names)| + if was[name].Foreign? then 1 else 0
  {
    assert ForeignAmong(was, names + {name}) == ForeignAmong(was, names) + if was[name].Foreign? then {name} else {};
  }

  lemma DroppedNext(was: Directory, plan: map<Name, string>, names: set<Name>, name: Name)
    requires name in was && name !in names
    ensures |DroppedAmong(was, plan, names + {name})|
         == |DroppedAmong(was, plan, names)| + if Stays(was, plan, name) then 0 else 1
  {
    assert DroppedAmong(was, plan, names + {name})
        == DroppedAmong(was, plan, names) + if Stays(was, plan, name) then {} else {name};
  }

  lemma NothingLookedAt(was: Directory, plan: map<Name, string>)
    ensures Looked(was, plan, {}) == Report(0, 0, 0) && DroppedAmong(was, plan, {}) == {}
  {
  }

  // Every link of the directory in the end is one that was right or one that was made.
  lemma LinksAddUp(was: Directory, plan: map<Name, string>)
    ensures |LinksOf(Reconciled(was, plan))| == |RightAmong(was, plan, was.Keys)| + |StillWanted(was, plan, {}).Keys|
    ensures was == Reconciled(was, plan) ==>
      DroppedAmong(was, plan, was.Keys) == {} && StillWanted(was, plan, {}) == map[]
  {
    var right, made := RightAmong(was, plan, was.Keys), StillWanted(was, plan, {}).Keys;
    assert LinksOf(Reconciled(was, plan)) == right + made && right !! made;
    if was == Reconciled(was, plan) {
      assert made == {};
      assert DroppedAmong(was, plan, was.Keys) == {};
    }
  }

  // The directory, and what is still to be linked, with these entries still to be looked at.
  function Weeded(was: Directory, plan: map<Name, string>, todo: set<Name>): Directory {
    map name | name in was && (name in todo || Stays(was, plan, name)) :: was[name]
  }

  function StillWanted(was: Directory, plan: map<Name, string>, todo: set<Name>): map<Name, string> {
    map name | name in plan && !(name !in todo && Stays(was, plan, name)) :: plan[name]
  }

  function WithLinks(dir: Directory, links: map<Name, string>): Directory {
    map name | name in dir.Keys + links.Keys :: if name in links then Symlink(links[name]) else dir[name]
  }

  lemma WeedOne(was: Directory, plan: map<Name, string>, todo: set<Name>, name: Name)
    requires name in todo && todo <= was.Keys
    ensures Stays(was, plan, name) ==>
      && Weeded(was, plan, todo - {name}) == Weeded(was, plan, todo)
      && StillWanted(was, plan, todo - {name}) == StillWanted(was, plan, todo) - {name}
    ensures !Stays(was, plan, name) ==>
      && Weeded(was, plan, todo - {name}) == Weeded(was, plan, todo) - {name}
      && StillWanted(was, plan, todo - {name}) == StillWanted(was, plan, todo)
    ensures name in Weeded(was, plan, todo) && Weeded(was, plan, todo)[name] == was[name]
    ensures name in StillWanted(was, plan, todo) <==> name in plan
    ensures name in plan ==> StillWanted(was, plan, todo)[name] == plan[name]
  {
  }

  lemma LinkOne(was: Directory, links: map<Name, string>, todo: set<Name>, name: Name)
    requires name in todo && todo <= links.Keys && was.Keys !! links.Keys
    ensures WithLinks(was, links - (todo - {name})) == WithLinks(was, links - todo)[name := Symlink(links[name])]
    ensures NothingForeignTouched(was, WithLinks(was, links - (todo - {name})))
  {
  }

  lemma NothingLinkedYet(was: Directory, links: map<Name, string>)
    ensures WithLinks(was, links - links.Keys) == was && WithLinks(was, links - {}) == WithLinks(was, links)
    ensures NothingForeignTouched(was, was)
  {
    assert links - {} == links;
  }

  lemma WeedingEnds(was: Directory, plan: map<Name, string>)
    ensures Weeded(was, plan, was.Keys) == was && StillWanted(was, plan, was.Keys) == plan
    ensures WithLinks(Weeded(was, plan, {}), StillWanted(was, plan, {})) == Reconciled(was, plan)
    ensures forall todo :: NothingForeignTouched(was, Weeded(was, plan, todo))
    ensures Weeded(was, plan, {}).Keys !! StillWanted(was, plan, {}).Keys
  {
    assert Weeded(was, plan, was.Keys) == was;
    assert StillWanted(was, plan, was.Keys) == plan;
  }

  class LinkDirectory {
    var entries: Directory
    // Whether each call that changes the disk goes through, and how many there have been.
    var failing: seq<bool>
    var calls: nat

    constructor (entries: Directory, failing: seq<bool>)
      ensures this.entries == entries && this.failing == failing
    {
      this.entries, this.failing, calls := entries, failing, 0;
    }

    method Works() returns (ok: bool)
      modifies this`failing, this`calls
      ensures calls == old(calls) + 1
      ensures old(failing) == [] ==> ok && failing == []
    {
      calls := calls + 1;
      ok := failing == [] || !failing[0];
      failing := if failing == [] then [] else failing[1..];
    }

    // The first pass: a foreign entry gives up its name, a right link stays, any other goes.
    method Weed(plan: map<Name, string>) returns (ok: bool, wanted: map<Name, string>, report: Report)
      modifies this
      ensures NothingForeignTouched(old(entries), entries)
      ensures ok ==>
        && entries == Weeded(old(entries), plan, {}) && wanted == StillWanted(old(entries), plan, {})
        && report == Looked(old(entries), plan, old(entries).Keys)
      ensures old(calls) <= calls <= old(calls) + |DroppedAmong(old(entries), plan, old(entries).Keys)|
      ensures !ok ==> calls > old(calls)
      ensures old(failing) == [] ==> ok && failing == []
    {
      hide NothingForeignTouched, Weeded, StillWanted, Looked, DroppedAmong, Reconciled, WithLinks;
      ghost var was, calm := entries, failing == [];
      wanted, report := plan, Report(0, 0, 0);
      var todo := entries.Keys;
      WeedingEnds(was, plan);
      NothingLookedAt(was, plan);
      assert was.Keys - todo == {};
      while todo != {}
        invariant todo <= was.Keys
        invariant entries == Weeded(was, plan, todo)
        invariant wanted == StillWanted(was, plan, todo)
        invariant report == Looked(was, plan, was.Keys - todo)
        invariant calls == old(calls) + |DroppedAmong(was, plan, was.Keys - todo)|
        invariant calm ==> failing == []
        decreases |todo|
      {
        var name :| name in todo;
        WeedOne(was, plan, todo, name);
        LookAtOne(was, plan, was.Keys - todo, name);
        DroppedNext(was, plan, was.Keys - todo, name);
        assert was.Keys - (todo - {name}) == was.Keys - todo + {name};
        DroppedGrow(was, plan, was.Keys - (todo - {name}));
        if entries[name].Foreign? {
          wanted := wanted - {name};
          report := report.(skipped := report.skipped + 1);
        } else if name in wanted && entries[name].target == wanted[name] {
          wanted := wanted - {name};
          report := report.(links := report.links + 1);
        } else {
          ok := Works();
          if !ok { return; }
          entries := entries - {name};
          if name !in wanted {
            report := report.(removed := report.removed + 1);
          }
        }
        todo := todo - {name};
      }
      assert was.Keys - {} == was.Keys;
      ok := true;
    }

    // The second pass: what is still wanted is linked.
    method MakeLinks(links: map<Name, string>) returns (ok: bool)
      requires entries.Keys !! links.Keys
      modifies this
      ensures NothingForeignTouched(old(entries), entries)
      ensures ok ==> entries == WithLinks(old(entries), links)
      ensures old(calls) <= calls <= old(calls) + |links|
      ensures links == map[] ==> ok
      ensures old(failing) == [] ==> ok && failing == []
    {
      hide NothingForeignTouched, WithLinks;
      ghost var was, calm := entries, failing == [];
      var todo := links.Keys;
      NothingLinkedYet(was, links);
      while todo != {}
        invariant todo <= links.Keys
        invariant entries == WithLinks(was, links - todo) && NothingForeignTouched(was, entries)
        invariant calls + |todo| == old(calls) + |links.Keys| == old(calls) + |links|
        invariant calm ==> failing == []
        decreases |todo|
      {
        var name :| name in todo;
        ok := Works();
        if !ok { return; }
        LinkOne(was, links, todo, name);
        entries := entries[name := Symlink(links[name])];
        todo := todo - {name};
      }
      ok := true;
    }

    /**
     Makes the directory's symlinks exactly the plan, less the names foreign files hold, and counts
     them, the stale ones removed and the foreign ones left alone. A write that fails on the way has
     touched nothing foreign either, and one with nothing to do makes no change to the disk at all.
     */
    method WriteAlbum(plan: map<Name, string>) returns (ok: bool, report: Report)
      modifies this
      ensures NothingForeignTouched(old(entries), entries)
      ensures ok ==>
        && entries == Reconciled(old(entries), plan)
        && report == Report(|LinksOf(entries)|, |LinksOf(old(entries)) - plan.Keys|,
                            |old(entries).Keys - LinksOf(old(entries))|)
      ensures old(entries) == Reconciled(old(entries), plan) ==> ok && calls == old(calls)
      ensures old(failing) == [] ==> ok && failing == []
    {
      hide StillWanted, Weeded, Reconciled, WithLinks, NothingForeignTouched, Stays;
      ghost var was := entries;
      WeedingEnds(was, plan);
      LinksAddUp(was, plan);
      LookedAtAll(was, plan);
      var weeded, wanted, looked := Weed(plan);
      report := looked;
      if !weeded {
        return false, report;
      }
      ghost var weededTo := entries;
      ok := MakeLinks(wanted);
      ForeignThroughout(was, weededTo, entries);
      report := report.(links := report.links + |wanted.Keys|);
    }

    /** Empties the directory of symlinks, and answers whether anything foreign keeps it. */
    method RemoveLinks() returns (ok: bool, emptied: bool, removed: nat)
      modifies this
      ensures NothingForeignTouched(old(entries), entries)
      ensures ok ==>
        && (forall name :: name in entries ==> entries[name].Foreign?) && (emptied <==> entries == map[])
        && removed == |LinksOf(old(entries))|
      ensures old(failing) == [] ==> ok && failing == []
    {
      hide NothingForeignTouched, LinksOf;
      ghost var was, calm := entries, failing == [];
      var todo := entries.Keys;
      emptied, removed := true, 0;
      NothingUnlinkedYet(was);
      while todo != {}
        invariant todo <= entries.Keys
        invariant NothingForeignTouched(was, entries)
        invariant forall name :: name in entries && name !in todo ==> entries[name].Foreign?
        invariant emptied <==> entries.Keys == todo
        invariant calm ==> failing == []
        invariant removed == |LinksOf(was) - entries.Keys|
        invariant forall name :: name in entries ==> name in was && was[name] == entries[name]
        decreases |todo|
      {
        var name :| name in todo;
        todo := todo - {name};
        if entries[name].Foreign? {
          emptied := false;
          assert name in entries.Keys && name !in todo;
        } else {
          ok := Works();
          if !ok { return; }
          UnlinkOne(was, entries, name);
          entries := entries - {name};
          removed := removed + 1;
        }
      }
      AllUnlinked(was, entries);
      ok := true;
    }
  }

  // ---- Directories of albums no longer followed ----

  /** An entry of the view's root: an album's directory, or anything else. */
  datatype RootEntry = Album(entries: Directory) | NotADirectory

  function OnlyForeign(dir: Directory): Directory {
    map name | name in dir && dir[name].Foreign? :: dir[name]
  }

  // Pruning leaves alone what is wanted and what is no directory; of the rest it leaves what is foreign.
  predicate LeftAlone(root: map<Name, RootEntry>, wanted: set<Name>, name: Name)
    requires name in root
  {
    root[name].NotADirectory? || name in wanted
  }

  // The root with these entries still to be looked at.
  function Pruned(root: map<Name, RootEntry>, wanted: set<Name>, todo: set<Name>): map<Name, RootEntry> {
    map name | name in root && (name in todo || LeftAlone(root, wanted, name) || OnlyForeign(root[name].entries) != map[]) ::
      if name in todo || LeftAlone(root, wanted, name) then root[name] else Album(OnlyForeign(root[name].entries))
  }

  // Wherever pruning stops: no file of anybody's is gone.
  ghost predicate FilesKept(root: map<Name, RootEntry>, now: map<Name, RootEntry>, wanted: set<Name>) {
    && now.Keys <= root.Keys
    && (forall name :: name in root && LeftAlone(root, wanted, name) ==> name in now && now[name] == root[name])
    && (forall name :: name in root && root[name].Album? ==>
          if name in now then now[name].Album? && NothingForeignTouched(root[name].entries, now[name].entries)
          else OnlyForeign(root[name].entries) == map[])
  }

  class AlbumTree {
    var root: map<Name, RootEntry>
    var failing: seq<bool>

    constructor (root: map<Name, RootEntry>, failing: seq<bool>)
      ensures this.root == root && this.failing == failing
    {
      this.root, this.failing := root, failing;
    }

    // Empties one directory of its links and removes it if nothing else is in it.
    method RemoveLinkDir(name: Name) returns (ok: bool)
      requires name in root && root[name].Album?
      modifies this
      ensures forall other :: other != name ==> (other in root <==> other in old(root))
      ensures forall other :: other in root && other != name ==> root[other] == old(root)[other]
      ensures name in root ==>
        root[name].Album? && NothingForeignTouched(old(root)[name].entries, root[name].entries)
      ensures name !in root ==> OnlyForeign(old(root)[name].entries) == map[]
      ensures ok ==>
        var left := OnlyForeign(old(root)[name].entries);
        if left == map[] then name !in root else name in root && root[name] == Album(left)
      ensures old(failing) == [] ==> ok && failing == []
    {
      hide LinksOf;
      var was := root[name].entries;
      var directory := new LinkDirectory(was, failing);
      var emptied, removed;
      ok, emptied, removed := directory.RemoveLinks();
      if ok {
        OnlyForeignIsLeft(was, directory.entries);
      }
      root, failing := root[name := Album(directory.entries)], directory.failing;
      if !ok || !emptied { return; }
      ok := failing == [] || !failing[0];
      failing := if failing == [] then [] else failing[1..];
      if ok {
        root := root - {name};
      }
    }

    /**
     Removes the links of every album directory that is not wanted, and the directories that held
     nothing else. Wherever it stops, wanted directories, top-level files and everybody else's files
     are as they were.
     */
    method Prune(wanted: set<Name>) returns (ok: bool)
      modifies this
      ensures FilesKept(old(root), root, wanted)
      ensures ok ==> root == Pruned(old(root), wanted, {})
      ensures old(failing) == [] ==> ok && failing == []
    {
      hide Pruned, FilesKept, NothingForeignTouched, OnlyForeign;
      ghost var was, calm := root, failing == [];
      var todo := root.Keys;
      NothingPruned(was, wanted);
      while todo != {}
        invariant todo <= was.Keys
        invariant root == Pruned(was, wanted, todo)
        invariant calm ==> failing == []
        decreases |todo|
      {
        var name :| name in todo;
        PruneOne(was, wanted, todo, name);
        if root[name].Album? && name !in wanted {
          ghost var before := root;
          ok := RemoveLinkDir(name);
          if !ok {
            HalfPruned(was, wanted, todo, name, root);
            return;
          }
          assert root == if OnlyForeign(was[name].entries) == map[] then before - {name}
                         else before[name := Album(OnlyForeign(was[name].entries))];
        }
        todo := todo - {name};
      }
      PrunedKeepsFiles(was, wanted, {});
      ok := true;
    }
  }

  lemma OnlyForeignIsLeft(was: Directory, now: Directory)
    requires NothingForeignTouched(was, now) && forall name :: name in now ==> now[name].Foreign?
    ensures now == OnlyForeign(was)
  {
  }

  lemma NothingPruned(was: map<Name, RootEntry>, wanted: set<Name>)
    ensures Pruned(was, wanted, was.Keys) == was
  {
  }

  lemma PruneOne(was: map<Name, RootEntry>, wanted: set<Name>, todo: set<Name>, name: Name)
    requires name in todo && todo <= was.Keys
    ensures name in Pruned(was, wanted, todo) && Pruned(was, wanted, todo)[name] == was[name]
    ensures LeftAlone(was, wanted, name) ==> Pruned(was, wanted, todo - {name}) == Pruned(was, wanted, todo)
    ensures !LeftAlone(was, wanted, name) ==>
      Pruned(was, wanted, todo - {name}) ==
        if OnlyForeign(was[name].entries) == map[] then Pruned(was, wanted, todo) - {name}
        else Pruned(was, wanted, todo)[name := Album(OnlyForeign(was[name].entries))]
  {
  }

  lemma ForeignIsUntouched(dir: Directory)
    ensures NothingForeignTouched(dir, dir) && NothingForeignTouched(dir, OnlyForeign(dir))
  {
  }

  lemma PrunedKeepsFiles(was: map<Name, RootEntry>, wanted: set<Name>, todo: set<Name>)
    ensures FilesKept(was, Pruned(was, wanted, todo), wanted)
  {
    hide NothingForeignTouched, OnlyForeign;
    forall name | name in was && was[name].Album?
      ensures NothingForeignTouched(was[name].entries, was[name].entries)
      ensures NothingForeignTouched(was[name].entries, OnlyForeign(was[name].entries))
    {
      ForeignIsUntouched(was[name].entries);
    }
  }

  // Stopped in the middle of one directory.
  lemma HalfPruned(was: map<Name, RootEntry>, wanted: set<Name>, todo: set<Name>, name: Name,
                   now: map<Name, RootEntry>)
    requires name in todo && todo <= was.Keys && !LeftAlone(was, wanted, name)
    requires forall other :: other != name ==> (other in now <==> other in Pruned(was, wanted, todo))
    requires forall other :: other in now && other != name ==> now[other] == Pruned(was, wanted, todo)[other]
    requires name in now ==> now[name].Album? && NothingForeignTouched(was[name].entries, now[name].entries)
    requires name !in now ==> OnlyForeign(was[name].entries) == map[]
    ensures FilesKept(was, now, wanted)
  {
    hide NothingForeignTouched, OnlyForeign;
    PrunedKeepsFiles(was, wanted, todo);
  }

  lemma NothingUnlinkedYet(was: Directory)
    ensures LinksOf(was) - was.Keys == {} && NothingForeignTouched(was, was)
  {
  }

  lemma UnlinkOne(was: Directory, now: Directory, name: Name)
    requires name in now && now[name].Symlink? && name in was && was[name] == now[name]
    requires NothingForeignTouched(was, now)
    ensures NothingForeignTouched(was, now - {name})
    ensures |LinksOf(was) - (now - {name}).Keys| == |LinksOf(was) - now.Keys| + 1
  {
    assert LinksOf(was) - (now - {name}).Keys == LinksOf(was) - now.Keys + {name};
  }

  lemma AllUnlinked(was: Directory, now: Directory)
    requires NothingForeignTouched(was, now) && forall name :: name in now ==> now[name].Foreign?
    ensures LinksOf(was) - now.Keys == LinksOf(was)
  {
  }

  lemma LookedAtAll(was: Directory, plan: map<Name, string>)
    ensures Looked(was, plan, was.Keys).removed == |LinksOf(was) - plan.Keys|
    ensures Looked(was, plan, was.Keys).skipped == |was.Keys - LinksOf(was)|
    ensures Looked(was, plan, was.Keys).links == |RightAmong(was, plan, was.Keys)|
  {
    assert StaleAmong(was, plan, was.Keys) == LinksOf(was) - plan.Keys;
    assert ForeignAmong(was, was.Keys) == was.Keys - LinksOf(was);
  }

  lemma ForeignThroughout(a: Directory, b: Directory, c: Directory)
    requires NothingForeignTouched(a, b) && NothingForeignTouched(b, c)
    ensures NothingForeignTouched(a, c)
  {
  }

  lemma DroppedGrow(was: Directory, plan: map<Name, string>, names: set<Name>)
    ensures |DroppedAmong(was, plan, names)| <= |DroppedAmong(was, plan, was.Keys)|
  {
    SubsetCount(DroppedAmong(was, plan, names), DroppedAmong(was, plan, was.Keys));
  }

  /** Writing the same plan again changes nothing, whatever the directory held at first. */
  lemma ReconcilingTwiceIsOnce(was: Directory, plan: map<Name, string>)
    ensures Reconciled(Reconciled(was, plan), plan) == Reconciled(was, plan)
    ensures NothingForeignTouched(was, Reconciled(was, plan))
    ensures forall name :: name in plan && !(name in was && was[name].Foreign?) ==>
      name in Reconciled(was, plan) && Reconciled(was, plan)[name] == Symlink(plan[name])
    ensures forall name :: name in Reconciled(was, plan) && Reconciled(was, plan)[name].Symlink? ==> name in plan
  {
    var once := Reconciled(was, plan);
    var twice := Reconciled(once, plan);
    assert twice.Keys == once.Keys;
  }
}
