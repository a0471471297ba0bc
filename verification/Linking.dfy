/**
 Making every copy of the same bytes one file under several names: internal/syncer/copies.go. The
 pass reads the same from any name of the pool at every moment, power cuts and all, and what one
 pass leaves undone the next finishes.
 */
module Linking {
  import opened Basics
  import opened StoreState
  import opened FileSystem
  import opened PoolDisk
  import opened HeldCopies

  datatype LinkReport = LinkReport(photos: nat, separate: nat, held: nat, linked: nat, freed: nat, refused: seq<Key>)

  // Every name of the pool reads as it did, now and in every namespace a crash may leave.
  ghost predicate ReadsAsBefore(before: Disk, d: Disk) {
    && WellFormed(d)
    && (forall v, q: Path :: v in Versions(d) && q.Pool? ==> ReadIn(d, v, q) == Read(before, q))
    && (forall v, q :: v in Versions(d) && q in v && !q.Part? ==> d.flushed[v[q]] == |d.data[v[q]]|)
  }

  lemma ACrashReadsAsBefore(before: Disk, d: Disk, c: Disk)
    requires ReadsAsBefore(before, d) && CrashLeaves(d, c)
    ensures ReadsAsBefore(before, c)
  {
    forall v, q: Path | v in Versions(c) && q.Pool?
      ensures ReadIn(c, v, q) == Read(before, q)
    {
      assert v == c.names;
      assert ReadIn(d, c.names, q) == Read(before, q);
      if q in c.names {
        assert c.data[c.names[q]] == d.data[c.names[q]];
      }
    }
  }

  // Only one name of the pool can have come to stand for another file, and no file has changed.
  ghost predicate OnlyRelinked(d: Disk, e: Disk, path: Path) {
    && e.data == d.data
    && (forall q: Path :: q.Pool? && q != path ==> (q in e.names <==> q in d.names))
    && (forall q: Path :: q.Pool? && q != path && q in d.names ==> e.names[q] == d.names[q])
  }

  // The namespaces after a rename or link that leaves every pool name reading the same.
  lemma NewNamesReadTheSame(before: Disk, d: Disk, e: Disk)
    requires ReadsAsBefore(before, d) && WellFormed(e)
    requires e.data == d.data && e.flushed == d.flushed
    requires forall v :: v in Versions(e) ==> v == e.names || v in Versions(d)
    requires forall q: Path :: q.Pool? ==> Read(e, q) == Read(d, q)
    requires forall q :: q in e.names && !q.Part? ==> d.flushed[e.names[q]] == |d.data[e.names[q]]|
    ensures ReadsAsBefore(before, e)
  {
    assert d.names in Versions(d);
  }

  lemma LinkReadsTheSame(before: Disk, d: Disk, held: Path, nonce: nat)
    requires ReadsAsBefore(before, d) && held.Pool? && held in d.names && Staged(nonce) !in d.names
    ensures var e := Linked(d, held, Staged(nonce));
      && ReadsAsBefore(before, e) && OnlyRelinked(d, e, held)
      && e.names[held] == d.names[held] == e.names[Staged(nonce)]
  {
    CallKeepsWellFormed(d, StageLink(held, nonce));
    var e := Linked(d, held, Staged(nonce));
    assert forall v :: v in Versions(e) ==> v == e.names || v in Versions(d);
    assert d.names in Versions(d);
    NewNamesReadTheSame(before, d, e);
  }

  lemma RemoveReadsTheSame(before: Disk, d: Disk, nonce: nat, path: Path)
    requires ReadsAsBefore(before, d)
    ensures ReadsAsBefore(before, Removed(d, Staged(nonce))) && OnlyRelinked(d, Removed(d, Staged(nonce)), path)
  {
    CallKeepsWellFormed(d, Remove(Staged(nonce)));
    var e := Removed(d, Staged(nonce));
    assert forall v :: v in Versions(e) ==> v == e.names || v in Versions(d);
    assert d.names in Versions(d);
    if Staged(nonce) in d.names {
      NewNamesReadTheSame(before, d, e);
    }
  }

  lemma PlaceReadsTheSame(before: Disk, d: Disk, nonce: nat, path: Path)
    requires ReadsAsBefore(before, d) && path.Pool? && Staged(nonce) in d.names
    requires Read(d, path) == Read(d, Staged(nonce))
    ensures var e := Renamed(d, Staged(nonce), path);
      ReadsAsBefore(before, e) && OnlyRelinked(d, e, path) && path in e.names && e.names[path] == d.names[Staged(nonce)]
  {
    CallKeepsWellFormed(d, PlaceLink(nonce, path));
    var e := Renamed(d, Staged(nonce), path);
    assert forall v :: v in Versions(e) ==> v == e.names || v in Versions(d);
    assert d.names in Versions(d);
    if e != d {
      NewNamesReadTheSame(before, d, e);
    }
  }

  lemma FlushReadsTheSame(before: Disk, d: Disk)
    requires ReadsAsBefore(before, d)
    ensures ReadsAsBefore(before, DirFlushed(d))
  {
    assert d.names in Versions(d);
  }

  /** Wherever linking one name over another of the same bytes stops, every name reads the same. */
  lemma LinkOverReadsTheSame(before: Disk, d: Disk, e: Disk, held: Path, path: Path, nonce: nat)
    requires ReadsAsBefore(before, d) && held.Pool? && path.Pool? && held != path
    requires Read(d, held).Some? && Read(d, path) == Read(d, held)
    requires LinkOverLeaves(d, e, held, path, nonce)
    ensures ReadsAsBefore(before, e) && OnlyRelinked(d, e, path)
    ensures e == LinkedOver(d, held, path, nonce) && Staged(nonce) !in d.names ==> SameFile(e, held, path)
  {
    hide ReadsAsBefore;
    if Staged(nonce) !in d.names {
      var linked := Linked(d, held, Staged(nonce));
      LinkReadsTheSame(before, d, held, nonce);
      RemoveReadsTheSame(before, linked, nonce, path);
      PlaceReadsTheSame(before, linked, nonce, path);
      FlushReadsTheSame(before, Placed(d, held, path, nonce));
    }
  }

  predicate SameFile(d: Disk, a: Path, b: Path) {
    a in d.names && b in d.names && d.names[a] == d.names[b]
  }

  // ---- The rows of a pass ----

  // A backed-up row of these has a hash and a file at a name of the pool only its key can have.
  predicate HasOwnFile(items: map<Key, Row>, k: Key) {
    && k in items && BackedUpWithAHash(items[k])
    && items[k].localPath.value.Pool? && items[k].localPath.value.key == k
  }

  function FileOf(items: map<Key, Row>, k: Key): Path
    requires HasOwnFile(items, k)
  {
    items[k].localPath.value
  }

  predicate Intact(items: map<Key, Row>, d: Disk, k: Key)
    requires HasOwnFile(items, k)
  {
    HashesTo(d, FileOf(items, k), items[k].sha)
  }

  ghost predicate AGroup(items: map<Key, Row>, group: seq<Key>) {
    && |group| > 1 && Distinct(group) && HasOwnFile(items, group[0])
    && (forall k :: k in group ==> HasOwnFile(items, k) && items[k].sha == items[group[0]].sha)
  }

  // Nothing is left to link: each copy is the first one's file, or one of the two has rotted.
  ghost predicate Settled(items: map<Key, Row>, d: Disk, group: seq<Key>)
    requires AGroup(items, group)
  {
    forall k :: k in group[1..] ==>
      || SameFile(d, FileOf(items, group[0]), FileOf(items, k))
      || !Intact(items, d, group[0])
      || !Intact(items, d, k)
  }

  ghost predicate OneFile(items: map<Key, Row>, d: Disk, group: seq<Key>)
    requires AGroup(items, group)
  {
    forall k :: k in group ==> SameFile(d, FileOf(items, group[0]), FileOf(items, k))
  }

  // ---- The pass ----

  // What linking may have renamed: names of the pool among these, and no file's bytes.
  ghost predicate Relinked(d: Disk, e: Disk, paths: set<Path>) {
    && e.data == d.data
    && (forall q: Path :: q.Pool? && q !in paths ==> (q in e.names <==> q in d.names))
    && (forall q: Path :: q.Pool? && q !in paths && q in d.names ==> e.names[q] == d.names[q])
  }

  function FilesOf(items: map<Key, Row>, keys: seq<Key>): set<Path>
    requires forall k :: k in keys ==> HasOwnFile(items, k)
  {
    set k | k in keys :: FileOf(items, k)
  }

  lemma IntactAsBefore(before: Disk, items: map<Key, Row>, d: Disk, e: Disk, k: Key)
    requires ReadsAsBefore(before, d) && ReadsAsBefore(before, e) && HasOwnFile(items, k)
    ensures Intact(items, d, k) <==> Intact(items, e, k)
    ensures Read(d, FileOf(items, k)) == Read(e, FileOf(items, k))
  {
    assert d.names in Versions(d) && e.names in Versions(e);
  }

  // Some name is always free for the next staged link.
  lemma AFreeNonce(paths: set<Path>) returns (n: nat)
    ensures forall m: nat :: m >= n ==> Staged(m) !in paths
    decreases |paths|
  {
    if paths == {} {
      n := 0;
    } else {
      var p :| p in paths;
      n := AFreeNonce(paths - {p});
      if p.Staged? && p.nonce >= n {
        n := p.nonce + 1;
      }
    }
  }

  // ---- What a pass should report ----

  // The copies that are files of their own.
  function Apart(items: map<Key, Row>, d: Disk, kept: Key, copies: seq<Key>): seq<Key>
    requires HasOwnFile(items, kept) && forall k :: k in copies ==> HasOwnFile(items, k)
  {
    if copies == [] then []
    else
      var front, last := Apart(items, d, kept, copies[..|copies| - 1]), copies[|copies| - 1];
      if SameFile(d, FileOf(items, kept), FileOf(items, last)) then front else front + [last]
  }

  // Of some copies, those that re-read as their record, or those that do not.
  function Picked(items: map<Key, Row>, d: Disk, keys: seq<Key>, sound: bool): seq<Key>
    requires forall k :: k in keys ==> HasOwnFile(items, k)
  {
    if keys == [] then []
    else
      var front, last := Picked(items, d, keys[..|keys| - 1], sound), keys[|keys| - 1];
      if Intact(items, d, last) == sound then front + [last] else front
  }

  function Sizes(items: map<Key, Row>, keys: seq<Key>): nat {
    if keys == [] then 0
    else
      var last := keys[|keys| - 1];
      Sizes(items, keys[..|keys| - 1]) + if last in items && items[last].size.Some? then items[last].size.value else 0
  }

  // What one group comes to on a disk that answers: each separate copy is linked if both files
  // re-read intact, and refused if not.
  ghost function GroupReport(items: map<Key, Row>, d: Disk, group: seq<Key>, link: bool): LinkReport
    requires AGroup(items, group)
  {
    var separate := Apart(items, d, group[0], group[1..]);
    SeparateAreCopies(items, d, group[0], group[1..]);
    var found := LinkReport(1, |separate|, |separate| * SizeOf(items[group[0]]), 0, 0, []);
    if separate == [] then LinkReport(0, 0, 0, 0, 0, [])
    else if !link then found
    else if !Intact(items, d, group[0]) then found.(refused := [group[0]])
    else
      var sound := Picked(items, d, separate, true);
      found.(linked := |sound|, freed := Sizes(items, sound), refused := Picked(items, d, separate, false))
  }

  function Plus(a: LinkReport, b: LinkReport): LinkReport {
    LinkReport(a.photos + b.photos, a.separate + b.separate, a.held + b.held, a.linked + b.linked, a.freed + b.freed,
               a.refused + b.refused)
  }

  ghost function PassReport(items: map<Key, Row>, d: Disk, groups: seq<seq<Key>>, link: bool): LinkReport
    requires forall g :: 0 <= g < |groups| ==> AGroup(items, groups[g])
  {
    if groups == [] then LinkReport(0, 0, 0, 0, 0, [])
    else Plus(PassReport(items, d, groups[..|groups| - 1], link), GroupReport(items, d, groups[|groups| - 1], link))
  }

  lemma {:induction false} SeparateAreCopies(items: map<Key, Row>, d: Disk, kept: Key, copies: seq<Key>)
    requires HasOwnFile(items, kept) && forall k :: k in copies ==> HasOwnFile(items, k)
    ensures forall k :: k in Apart(items, d, kept, copies) ==> k in copies
  {
    if copies != [] {
      SeparateAreCopies(items, d, kept, copies[..|copies| - 1]);
    }
  }

  // Intact and rotted make up the whole.
  lemma {:induction false} PickedAddUp(items: map<Key, Row>, d: Disk, keys: seq<Key>)
    requires forall k :: k in keys ==> HasOwnFile(items, k)
    ensures |Picked(items, d, keys, true)| + |Picked(items, d, keys, false)| == |keys|
    ensures Sizes(items, Picked(items, d, keys, true)) + Sizes(items, Picked(items, d, keys, false)) == Sizes(items, keys)
  {
    if keys != [] {
      var front, last := keys[..|keys| - 1], keys[|keys| - 1];
      PickedAddUp(items, d, front);
      assert HasOwnFile(items, last);
      SizesNext(items, Picked(items, d, front, true), last);
      SizesNext(items, Picked(items, d, front, false), last);
    }
  }

  // The same files and the same readings make the same report.
  lemma {:induction false} ApartAlike(items: map<Key, Row>, d: Disk, e: Disk, kept: Key, copies: seq<Key>)
    requires HasOwnFile(items, kept) && forall k :: k in copies ==> HasOwnFile(items, k)
    requires forall k :: k in copies ==>
      (SameFile(d, FileOf(items, kept), FileOf(items, k)) <==> SameFile(e, FileOf(items, kept), FileOf(items, k)))
    ensures Apart(items, d, kept, copies) == Apart(items, e, kept, copies)
  {
    if copies != [] {
      ApartAlike(items, d, e, kept, copies[..|copies| - 1]);
    }
  }

  lemma {:induction false} PickedAlike(items: map<Key, Row>, d: Disk, e: Disk, keys: seq<Key>, sound: bool)
    requires forall k :: k in keys ==> HasOwnFile(items, k) && (Intact(items, d, k) <==> Intact(items, e, k))
    ensures Picked(items, d, keys, sound) == Picked(items, e, keys, sound)
  {
    if keys != [] {
      PickedAlike(items, d, e, keys[..|keys| - 1], sound);
    }
  }

  /** The copies that are files of their own; one that cannot be looked at counts as separate. */
  method SeparateFiles(pool: Pool, items: map<Key, Row>, group: seq<Key>) returns (separate: seq<Key>)
    requires AGroup(items, group)
    modifies pool`faults
    ensures forall k :: k in separate ==> k in group[1..]
    ensures Distinct(separate)
    ensures forall k :: k in group[1..] && k !in separate ==>
      SameFile(pool.d, FileOf(items, group[0]), FileOf(items, k))
    ensures old(pool.faults) == [] ==>
      && pool.faults == []
      && (forall k :: k in separate ==> !SameFile(pool.d, FileOf(items, group[0]), FileOf(items, k)))
      && separate == Apart(items, pool.d, group[0], group[1..])
  {
    separate := [];
    var copies := group[1..];
    var kept := pool.StatFile(FileOf(items, group[0]));
    for i := 0 to |copies|
      invariant forall k :: k in separate ==> k in copies[..i]
      invariant Distinct(separate)
      invariant forall k :: k in copies[..i] && k !in separate ==>
        SameFile(pool.d, FileOf(items, group[0]), FileOf(items, k))
      invariant old(pool.faults) == [] ==>
        && pool.faults == [] && (FileOf(items, group[0]) in pool.d.names ==> kept.File?)
        && separate == Apart(items, pool.d, group[0], copies[..i])
        && forall k :: k in separate ==> !SameFile(pool.d, FileOf(items, group[0]), FileOf(items, k))
    {
      assert copies[..i + 1] == copies[..i] + [copies[i]];
      var info := pool.StatFile(FileOf(items, copies[i]));
      if !(kept.File? && info.File? && kept.inode == info.inode) {
        separate := separate + [copies[i]];
      }
    }
    assert copies[..|copies|] == copies;
  }

  // Verifies one copy and links it to the kept one; an answer of false is a refusal.
  method LinkOne(pool: Pool, ghost before: Disk, items: map<Key, Row>, kept: Key, copy: Key) returns (linked: bool)
    requires ReadsAsBefore(before, pool.d)
    requires HasOwnFile(items, kept) && HasOwnFile(items, copy) && kept != copy
    requires items[copy].sha == items[kept].sha && Intact(items, pool.d, kept)
    modifies pool
    ensures ReadsAsBefore(before, pool.d)
    ensures Relinked(old(pool.d), pool.d, {FileOf(items, copy)})
    ensures linked ==> SameFile(pool.d, FileOf(items, kept), FileOf(items, copy))
    ensures linked ==> Intact(items, old(pool.d), copy)
    ensures old(pool.faults) == [] ==>
      && pool.faults == [] && (linked <==> Intact(items, old(pool.d), copy))
      && (!linked ==> pool.d == old(pool.d))
  {
    hide ReadsAsBefore;
    var held, path := FileOf(items, kept), FileOf(items, copy);
    linked := pool.IsIntact(path, items[copy].sha);
    if !linked { return; }
    ghost var n := AFreeNonce(pool.d.names.Keys);
    assert Staged(n) !in pool.d.names;
    var nonce: nat :| Staged(nonce) !in pool.d.names;
    ghost var d := pool.d;
    linked := pool.LinkOver(held, path, nonce);
    LinkOverReadsTheSame(before, d, pool.d, held, path, nonce);
  }

  // What linking some copies to the kept one has come to; calm is a disk on which no call fails.
  ghost predicate Progress(items: map<Key, Row>, d0: Disk, d: Disk, kept: Key, done: seq<Key>, linked: nat,
                           refused: seq<Key>, calm: bool)
    requires HasOwnFile(items, kept) && forall k :: k in done ==> HasOwnFile(items, k)
  {
    && Relinked(d0, d, FilesOf(items, done))
    && linked <= |done|
    && (refused == [] ==> forall k :: k in done ==> SameFile(d, FileOf(items, kept), FileOf(items, k)))
    && (calm ==>
          && (forall k :: k in done ==>
                SameFile(d, FileOf(items, kept), FileOf(items, k)) || !Intact(items, d0, k))
          && (linked == 0 ==> d == d0)
          && (linked > 0 ==> exists k :: k in done && Intact(items, d0, k)))
  }

  lemma ProgressStep(items: map<Key, Row>, d0: Disk, d: Disk, e: Disk, kept: Key, done: seq<Key>, copy: Key,
                     linked: nat, refused: seq<Key>, calm: bool, ok: bool)
    requires HasOwnFile(items, kept) && HasOwnFile(items, copy) && forall k :: k in done ==> HasOwnFile(items, k)
    requires Progress(items, d0, d, kept, done, linked, refused, calm)
    requires kept != copy && copy !in done
    requires Relinked(d, e, {FileOf(items, copy)})
    requires ok ==> SameFile(e, FileOf(items, kept), FileOf(items, copy)) && Intact(items, d0, copy)
    requires calm ==> (ok <==> Intact(items, d0, copy)) && (!ok ==> e == d)
    ensures copy in done + [copy]
    ensures Progress(items, d0, e, kept, done + [copy], if ok then linked + 1 else linked,
                     if ok then refused else refused + [copy], calm)
  {
    assert FilesOf(items, done + [copy]) == FilesOf(items, done) + {FileOf(items, copy)};
    forall k | k in done && SameFile(d, FileOf(items, kept), FileOf(items, k))
      ensures SameFile(e, FileOf(items, kept), FileOf(items, k))
    {
      assert FileOf(items, k) != FileOf(items, copy) && FileOf(items, kept) != FileOf(items, copy);
    }
    assert copy in done + [copy];
  }

  lemma SizesNext(items: map<Key, Row>, keys: seq<Key>, k: Key)
    requires k in items
    ensures Sizes(items, keys + [k]) == Sizes(items, keys) + SizeOf(items[k])
  {
    assert (keys + [k])[..|keys|] == keys;
  }

  // Links the separate copies of a group to its first, unless that has rotted.
  method LinkGroup(pool: Pool, ghost before: Disk, items: map<Key, Row>, group: seq<Key>, separate: seq<Key>)
    returns (linked: nat, freed: nat, refused: seq<Key>)
    requires ReadsAsBefore(before, pool.d) && AGroup(items, group)
    requires Distinct(separate) && forall k :: k in separate ==> k in group[1..]
    modifies pool
    ensures ReadsAsBefore(before, pool.d)
    ensures forall k :: k in separate ==> k in group
    ensures refused == [group[0]] ==> linked == 0 && freed == 0
    ensures refused != [group[0]] ==>
      && (forall k :: k in refused ==> k in separate)
      && linked + |refused| == |separate| && freed + Sizes(items, refused) == Sizes(items, separate)
    ensures Progress(items, old(pool.d), pool.d, group[0], if refused == [group[0]] then [] else separate, linked,
                     if refused == [group[0]] then [] else refused, old(pool.faults) == [])
    ensures old(pool.faults) == [] ==> pool.faults == []
    ensures old(pool.faults) == [] ==> (refused == [group[0]] <==> !Intact(items, old(pool.d), group[0]))
    ensures old(pool.faults) == [] && refused != [group[0]] ==>
      refused == Picked(items, old(pool.d), separate, false)
  {
    hide ReadsAsBefore, Progress, Intact, Sizes, Picked;
    linked, freed, refused := 0, 0, [];
    var kept := group[0];
    assert forall k :: k in group[1..] ==> k in group && k != kept;
    ghost var d0, calm := pool.d, pool.faults == [];
    NoProgress(items, d0, kept, calm);
    NoSizes(items);
    NonePicked(items, d0);
    var intact := CheckKept(pool, items, kept);
    if !intact {
      return 0, 0, [kept];
    }
    for i := 0 to |separate|
      invariant ReadsAsBefore(before, pool.d)
      invariant Intact(items, pool.d, kept)
      invariant calm ==> pool.faults == []
      invariant kept !in refused && forall k :: k in refused ==> k in separate
      invariant linked + |refused| == i && freed + Sizes(items, refused) == Sizes(items, separate[..i])
      invariant Progress(items, d0, pool.d, kept, separate[..i], linked, refused, calm)
      invariant calm ==> refused == Picked(items, d0, separate[..i], false)
    {
      var copy := separate[i];
      assert separate[..i + 1] == separate[..i] + [copy];
      assert copy in separate && copy in group;
      SizesNext(items, separate[..i], copy);
      SizesNext(items, refused, copy);
      ghost var d := pool.d;
      var ok := LinkOne(pool, before, items, kept, copy);
      IntactAsBefore(before, items, d, pool.d, kept);
      IntactAsBefore(before, items, d, d0, copy);
      PickedNext(items, d0, separate[..i], copy, false);
      ProgressStep(items, d0, d, pool.d, kept, separate[..i], copy, linked, refused, calm, ok);
      if ok {
        linked := linked + 1;
        freed := freed + SizeOf(items[copy]);
      } else {
        refused := refused + [copy];
      }
    }
    assert separate[..|separate|] == separate;
  }

  lemma NonePicked(items: map<Key, Row>, d: Disk)
    ensures Picked(items, d, [], false) == []
  {
  }

  lemma PickedNext(items: map<Key, Row>, d: Disk, keys: seq<Key>, k: Key, sound: bool)
    requires HasOwnFile(items, k) && forall j :: j in keys ==> HasOwnFile(items, j)
    ensures forall j :: j in keys + [k] ==> HasOwnFile(items, j)
    ensures Picked(items, d, keys + [k], sound)
         == if Intact(items, d, k) == sound then Picked(items, d, keys, sound) + [k] else Picked(items, d, keys, sound)
  {
    assert (keys + [k])[..|keys|] == keys;
  }

  lemma NoSizes(items: map<Key, Row>)
    ensures Sizes(items, []) == 0
  {
  }

  method CheckKept(pool: Pool, items: map<Key, Row>, kept: Key) returns (intact: bool)
    requires HasOwnFile(items, kept)
    modifies pool`faults
    ensures intact ==> Intact(items, pool.d, kept)
    ensures old(pool.faults) == [] ==> pool.faults == [] && (intact <==> Intact(items, pool.d, kept))
  {
    intact := pool.IsIntact(FileOf(items, kept), items[kept].sha);
  }

  lemma ProgressAnyway(items: map<Key, Row>, d: Disk, e: Disk, kept: Key, done: seq<Key>, linked: nat,
                       refused: seq<Key>, calm: bool)
    requires HasOwnFile(items, kept) && forall k :: k in done ==> HasOwnFile(items, k)
    requires Progress(items, d, e, kept, done, linked, refused, calm)
    ensures Progress(items, d, e, kept, done, linked, refused, false)
  {
  }

  lemma NoProgress(items: map<Key, Row>, d: Disk, kept: Key, calm: bool)
    requires HasOwnFile(items, kept)
    ensures Progress(items, d, d, kept, [], 0, [], calm)
  {
  }

  // ---- All the groups ----

  lemma GroupConcluded(before: Disk, items: map<Key, Row>, d: Disk, e: Disk, group: seq<Key>, separate: seq<Key>,
                       linked: nat, refused: seq<Key>, calm: bool)
    requires AGroup(items, group) && ReadsAsBefore(before, d) && ReadsAsBefore(before, e)
    requires forall k :: k in separate ==> k in group[1..] && k in group
    requires forall k :: k in group[1..] && k !in separate ==>
      SameFile(d, FileOf(items, group[0]), FileOf(items, k))
    requires calm ==> forall k :: k in separate ==> !SameFile(d, FileOf(items, group[0]), FileOf(items, k))
    requires Progress(items, d, e, group[0], if refused == [group[0]] then [] else separate, linked,
                      if refused == [group[0]] then [] else refused, calm)
    requires calm ==> (refused == [group[0]] <==> !Intact(items, d, group[0]))
    ensures Relinked(d, e, FilesOf(items, group[1..]))
    ensures calm ==> Settled(items, e, group)
    ensures refused == [] ==> OneFile(items, e, group)
    ensures calm && Settled(items, d, group) ==> linked == 0 && e == d
    ensures linked <= |separate|
  {
    var done := if refused == [group[0]] then [] else separate;
    assert FilesOf(items, done) <= FilesOf(items, group[1..]);
    assert forall k :: k in group[1..] ==> k != group[0] && k in group;
    forall k | k in group[1..] && k !in separate
      ensures SameFile(e, FileOf(items, group[0]), FileOf(items, k))
    {
      assert FileOf(items, k) !in FilesOf(items, done) && FileOf(items, group[0]) !in FilesOf(items, done);
    }
    forall k | k in group
      ensures Intact(items, e, k) <==> Intact(items, d, k)
    {
      IntactAsBefore(before, items, d, e, k);
    }
    if refused == [] {
      forall k | k in group
        ensures SameFile(e, FileOf(items, group[0]), FileOf(items, k))
      {
        if k == group[0] {
          assert group[1] in group[1..];
          assert SameFile(e, FileOf(items, group[0]), FileOf(items, group[1]));
        } else {
          assert k in group[1..];
        }
      }
    }
  }

  // One group of the pass; nothing is read or linked of a group that is already one file.
  method PassGroup(pool: Pool, ghost before: Disk, items: map<Key, Row>, group: seq<Key>, link: bool)
    returns (separate: nat, linked: nat, freed: nat, refused: seq<Key>)
    requires ReadsAsBefore(before, pool.d) && AGroup(items, group)
    modifies pool
    ensures ReadsAsBefore(before, pool.d)
    ensures Relinked(old(pool.d), pool.d, FilesOf(items, group[1..]))
    ensures !link ==> pool.d == old(pool.d)
    ensures linked <= separate
    ensures old(pool.faults) == [] ==> pool.faults == []
    ensures link && old(pool.faults) == [] ==> Settled(items, pool.d, group)
    ensures link && refused == [] ==> OneFile(items, pool.d, group)
    ensures old(pool.faults) == [] && Settled(items, old(pool.d), group) ==> linked == 0 && pool.d == old(pool.d)
    ensures old(pool.faults) == [] ==>
      LinkReport(if separate == 0 then 0 else 1, separate, separate * SizeOf(items[group[0]]), linked, freed, refused)
      == GroupReport(items, old(pool.d), group, link)
  {
    hide ReadsAsBefore, Progress, Settled, OneFile, Picked, Apart;
    ghost var d, calm := pool.d, pool.faults == [];
    var copies := SeparateFiles(pool, items, group);
    assert forall k :: k in group[1..] ==> k in group;
    separate, linked, freed, refused := |copies|, 0, 0, [];
    if copies == [] {
      NoProgress(items, d, group[0], false);
      GroupConcluded(before, items, d, d, group, [], 0, [], false);
      AllOneIsSettled(items, d, group);
      return;
    }
    if !link {
      RelinkedNothing(d, FilesOf(items, group[1..]));
      return;
    }
    ghost var steady := pool.faults == [];
    linked, freed, refused := LinkGroup(pool, before, items, group, copies);
    ProgressAnyway(items, d, pool.d, group[0], if refused == [group[0]] then [] else copies, linked,
                   if refused == [group[0]] then [] else refused, steady);
    GroupConcluded(before, items, d, pool.d, group, copies, linked, refused, calm);
    PickedAddUp(items, d, copies);
  }

  lemma AllOneIsSettled(items: map<Key, Row>, d: Disk, group: seq<Key>)
    requires AGroup(items, group) && OneFile(items, d, group)
    ensures Settled(items, d, group)
  {
  }

  lemma RelinkedNothing(d: Disk, paths: set<Path>)
    ensures Relinked(d, d, paths)
  {
  }

  // Groups share no row, so what one group's links change is nothing to another.
  ghost predicate GroupsApart(items: map<Key, Row>, groups: seq<seq<Key>>) {
    && (forall g :: 0 <= g < |groups| ==> AGroup(items, groups[g]))
    && (forall g, h, k :: 0 <= g < h < |groups| && k in groups[g] ==> k !in groups[h])
  }

  lemma OthersUntouched(before: Disk, items: map<Key, Row>, d: Disk, e: Disk, group: seq<Key>, other: seq<Key>)
    requires AGroup(items, group) && AGroup(items, other) && forall k :: k in other ==> k !in group
    requires ReadsAsBefore(before, d) && ReadsAsBefore(before, e) && Relinked(d, e, FilesOf(items, group[1..]))
    ensures Settled(items, d, other) <==> Settled(items, e, other)
    ensures OneFile(items, d, other) <==> OneFile(items, e, other)
  {
    assert forall k :: k in group[1..] ==> k in group;
    assert forall k :: k in other[1..] ==> k in other;
    forall k | k in other
      ensures FileOf(items, k) !in FilesOf(items, group[1..])
      ensures Intact(items, d, k) <==> Intact(items, e, k)
    {
      IntactAsBefore(before, items, d, e, k);
    }
    assert forall k :: k in other ==>
      (SameFile(d, FileOf(items, other[0]), FileOf(items, k)) <==> SameFile(e, FileOf(items, other[0]), FileOf(items, k)));
  }

  lemma ReportUntouched(before: Disk, items: map<Key, Row>, d: Disk, e: Disk, group: seq<Key>, other: seq<Key>,
                        link: bool)
    requires AGroup(items, group) && AGroup(items, other) && forall k :: k in other ==> k !in group
    requires ReadsAsBefore(before, d) && ReadsAsBefore(before, e) && Relinked(d, e, FilesOf(items, group[1..]))
    ensures GroupReport(items, d, other, link) == GroupReport(items, e, other, link)
  {
    assert forall k :: k in group[1..] ==> k in group;
    assert forall k :: k in other[1..] ==> k in other;
    forall k | k in other
      ensures FileOf(items, k) !in FilesOf(items, group[1..])
      ensures Intact(items, d, k) <==> Intact(items, e, k)
    {
      IntactAsBefore(before, items, d, e, k);
    }
    assert forall k :: k in other ==>
      (SameFile(d, FileOf(items, other[0]), FileOf(items, k)) <==> SameFile(e, FileOf(items, other[0]), FileOf(items, k)));
    hide SameFile, Intact, ReadsAsBefore, Relinked;
    ApartAlike(items, d, e, other[0], other[1..]);
    SeparateAreCopies(items, d, other[0], other[1..]);
    PickedAlike(items, d, e, Apart(items, d, other[0], other[1..]), true);
    PickedAlike(items, d, e, Apart(items, d, other[0], other[1..]), false);
  }

  lemma AGroupHasALeader(items: map<Key, Row>, group: seq<Key>)
    requires AGroup(items, group)
    ensures group != [] && group[0] in items
  {
  }

  lemma NothingReported(items: map<Key, Row>, d: Disk, link: bool)
    ensures PassReport(items, d, [], link) == LinkReport(0, 0, 0, 0, 0, [])
  {
  }

  lemma ReportedNext(items: map<Key, Row>, d: Disk, groups: seq<seq<Key>>, g: nat, link: bool)
    requires g < |groups| && forall h :: 0 <= h < |groups| ==> AGroup(items, groups[h])
    ensures PassReport(items, d, groups[..g + 1], link)
         == Plus(PassReport(items, d, groups[..g], link), GroupReport(items, d, groups[g], link))
  {
    assert groups[..g + 1][..g] == groups[..g];
  }

  /**
   One pass over every group, up to the one before which it is cancelled. Wherever it stops, every
   name of the pool reads what it read. A pass on a disk that answers, cancelled or not before it,
   leaves nothing to link, so the next one links nothing and changes nothing, and its report is what
   the disk it found called for; and a group without a refusal is one file.
   */
  method Pass(pool: Pool, ghost before: Disk, items: map<Key, Row>, groups: seq<seq<Key>>, link: bool, upTo: nat)
    returns (report: LinkReport, finished: bool)
    requires ReadsAsBefore(before, pool.d) && GroupsApart(items, groups)
    modifies pool
    ensures ReadsAsBefore(before, pool.d)
    ensures !link ==> pool.d == old(pool.d)
    ensures finished <==> upTo >= |groups|
    ensures link && finished && old(pool.faults) == [] ==>
      forall g :: 0 <= g < |groups| ==> Settled(items, pool.d, groups[g])
    ensures link && finished && report.refused == [] ==>
      forall g :: 0 <= g < |groups| ==> OneFile(items, pool.d, groups[g])
    ensures old(pool.faults) == [] && (forall g :: 0 <= g < |groups| ==> Settled(items, old(pool.d), groups[g])) ==>
      report.linked == 0 && pool.d == old(pool.d)
    ensures report.linked <= report.separate
    ensures old(pool.faults) == [] ==>
      report == PassReport(items, old(pool.d), if finished then groups else groups[..upTo], link)
  {
    hide ReadsAsBefore, Settled, OneFile, Relinked, GroupReport, PassReport, AGroup, HasOwnFile, SameFile, Intact;
    report := LinkReport(0, 0, 0, 0, 0, []);
    NothingReported(items, pool.d, link);
    ghost var calm, d0 := pool.faults == [], pool.d;
    for g := 0 to |groups|
      invariant ReadsAsBefore(before, pool.d)
      invariant g <= upTo
      invariant !link ==> pool.d == d0
      invariant calm ==> pool.faults == []
      invariant link && calm ==> forall h :: 0 <= h < g ==> Settled(items, pool.d, groups[h])
      invariant link && report.refused == [] ==> forall h :: 0 <= h < g ==> OneFile(items, pool.d, groups[h])
      invariant calm && (forall h :: 0 <= h < |groups| ==> Settled(items, d0, groups[h])) ==>
        report.linked == 0 && pool.d == d0
      invariant report.linked <= report.separate
      invariant calm ==> report == PassReport(items, d0, groups[..g], link)
      invariant forall h :: g <= h < |groups| ==>
        GroupReport(items, pool.d, groups[h], link) == GroupReport(items, d0, groups[h], link)
    {
      if g >= upTo {
        return report, false;
      }
      ghost var d := pool.d;
      var separate, linked, freed, refused := PassGroup(pool, before, items, groups[g], link);
      forall h | 0 <= h < g
        ensures Settled(items, d, groups[h]) <==> Settled(items, pool.d, groups[h])
        ensures OneFile(items, d, groups[h]) <==> OneFile(items, pool.d, groups[h])
      {
        OthersUntouched(before, items, d, pool.d, groups[g], groups[h]);
      }
      forall h | g < h < |groups|
        ensures GroupReport(items, d, groups[h], link) == GroupReport(items, pool.d, groups[h], link)
      {
        ReportUntouched(before, items, d, pool.d, groups[g], groups[h], link);
      }
      ReportedNext(items, d0, groups, g, link);
      AGroupHasALeader(items, groups[g]);
      report := LinkReport(report.photos + (if separate == 0 then 0 else 1), report.separate + separate,
                           report.held + separate * SizeOf(items[groups[g][0]]), report.linked + linked,
                           report.freed + freed, report.refused + refused);
    }
    assert groups[..|groups|] == groups;
    finished := true;
  }

  /** The groups the store answers share no row, and each is rows of the same bytes. */
  lemma TheStoresGroupsAreApart(items: map<Key, Row>, keys: seq<Key>, groups: seq<seq<Key>>)
    requires AnswersInOrder(items, keys) && Concat(groups) == keys && Split(items, groups)
    requires forall k :: k in keys ==> HasOwnFile(items, k)
    ensures GroupsApart(items, groups)
  {
    forall g | 0 <= g < |groups|
      ensures AGroup(items, groups[g])
    {
      GroupsAreTheClasses(items, keys, groups, g);
      forall k | k in groups[g]
        ensures HasOwnFile(items, k)
      {
        ConcatHas(groups, k);
      }
    }
    forall g, h, k | 0 <= g < h < |groups| && k in groups[g]
      ensures k !in groups[h]
    {
      GroupsDiffer(items, keys, groups, g, h);
    }
  }
}
