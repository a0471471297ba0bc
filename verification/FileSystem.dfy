/**
 The pool's filesystem: names for inodes, bytes in inodes, and what a crash can take back.

 Metadata is journalled in order: a crash leaves the namespace as it is or as it was at some moment
 since a directory was last flushed. File data is kept at least up to what was flushed, and loses a
 tail of what was only appended.
 */
module FileSystem {
  import opened Basics

  type Names = map<Path, nat>

  datatype Disk = Disk(names: Names, earlier: seq<Names>, data: map<nat, Bytes>, flushed: map<nat, nat>, next: nat)

  // Every namespace a crash might leave, the present one among them.
  function Versions(d: Disk): seq<Names> {
    d.earlier + [d.names]
  }

  ghost predicate WellFormed(d: Disk) {
    && (forall v, p :: v in Versions(d) && p in v ==> v[p] in d.data)
    && d.flushed.Keys == d.data.Keys
    && (forall i :: i in d.data ==> d.flushed[i] <= |d.data[i]| && i < d.next)
  }

  function Renamespaced(d: Disk, names: Names): Disk {
    d.(names := names, earlier := d.earlier + [d.names])
  }

  // ---- The system calls ----

  // open(p, O_CREATE|O_APPEND)
  function Opened(d: Disk, p: Path): Disk {
    if p in d.names then d
    else Renamespaced(d, d.names[p := d.next]).(data := d.data[d.next := []], flushed := d.flushed[d.next := 0],
                                               next := d.next + 1)
  }

  // write to a file opened for appending
  function Appended(d: Disk, p: Path, bytes: Bytes): Disk {
    if p in d.names && d.names[p] in d.data then
      d.(data := d.data[d.names[p] := d.data[d.names[p]] + bytes])
    else d
  }

  // fsync of a file
  function Flushed(d: Disk, p: Path): Disk {
    if p in d.names && d.names[p] in d.data then
      d.(flushed := d.flushed[d.names[p] := |d.data[d.names[p]]|])
    else d
  }

  // rename: if both names are already the same file, POSIX has it do nothing at all.
  function Renamed(d: Disk, from: Path, to: Path): Disk {
    if from !in d.names || (to in d.names && d.names[to] == d.names[from]) then d
    else Renamespaced(d, (d.names - {from})[to := d.names[from]])
  }

  // link: refuses a name that exists
  function Linked(d: Disk, held: Path, to: Path): Disk {
    if held in d.names && to !in d.names then Renamespaced(d, d.names[to := d.names[held]]) else d
  }

  function Removed(d: Disk, p: Path): Disk {
    if p in d.names then Renamespaced(d, d.names - {p}) else d
  }

  // fsync of a directory, which commits the journal
  function DirFlushed(d: Disk): Disk {
    d.(earlier := [])
  }

  function ReadIn(d: Disk, v: Names, p: Path): Option<Bytes> {
    if p in v && v[p] in d.data then Some(d.data[v[p]]) else None
  }

  function Read(d: Disk, p: Path): Option<Bytes> {
    ReadIn(d, d.names, p)
  }

  // What may be there after the power goes.
  ghost predicate CrashLeaves(d: Disk, c: Disk) {
    && c.names in Versions(d) && c.earlier == []
    && c.next == d.next
    && c.data.Keys == d.data.Keys && c.flushed.Keys == d.data.Keys
    && (forall i :: i in d.data && i in d.flushed ==>
          && IsPrefix(c.data[i], d.data[i])
          && d.flushed[i] <= |c.data[i]|
          && c.flushed[i] == |c.data[i]|)
  }

  // ---- Part files keep to themselves ----

  // No inode is reachable from both a part file's name and any other, in any namespace a crash may
  // leave; nor has the inode of a part file now open had another name in any of them.
  ghost predicate PartsApart(d: Disk) {
    ApartInEach(d) && ApartAcross(d)
  }

  ghost predicate ApartInEach(d: Disk) {
    forall v, k, x :: v in Versions(d) && Part(k) in v && x in v && v[x] == v[Part(k)] ==> x == Part(k)
  }

  ghost predicate ApartAcross(d: Disk) {
    forall v, k, x :: Part(k) in d.names && v in d.earlier && x in v && v[x] == d.names[Part(k)] ==> x == Part(k)
  }

  /** The calls the engine makes, whoever makes them and in whatever order. */
  datatype Call =
    | OpenPart(key: Key)
    | AppendPart(key: Key, bytes: Bytes)
    | FlushPart(key: Key)
    | Publish(key: Key, to: Path)
    | StageLink(held: Path, nonce: nat)
    | PlaceLink(nonce: nat, to: Path)
    | Remove(path: Path)
    | FlushDirectory

  predicate EngineCall(c: Call) {
    match c
    case Publish(_, to) => to.Pool?
    case StageLink(held, _) => held.Pool?
    case PlaceLink(_, to) => to.Pool?
    case _ => true
  }

  function Called(d: Disk, c: Call): Disk {
    match c
    case OpenPart(key) => Opened(d, Part(key))
    case AppendPart(key, bytes) => Appended(d, Part(key), bytes)
    case FlushPart(key) => Flushed(d, Part(key))
    case Publish(key, to) => Renamed(d, Part(key), to)
    case StageLink(held, nonce) => Linked(d, held, Staged(nonce))
    case PlaceLink(nonce, to) => Renamed(d, Staged(nonce), to)
    case Remove(path) => Removed(d, path)
    case FlushDirectory => DirFlushed(d)
  }

  lemma CallKeepsWellFormed(d: Disk, c: Call)
    requires WellFormed(d)
    ensures WellFormed(Called(d, c))
  {
    var e := Called(d, c);
    assert forall v :: v in Versions(e) ==> v == e.names || v in Versions(d);
  }

  lemma CallKeepsApartInEach(d: Disk, c: Call)
    requires WellFormed(d) && PartsApart(d) && EngineCall(c)
    ensures ApartInEach(Called(d, c))
  {
    hide ApartAcross;
    var e := Called(d, c);
    assert forall v :: v in Versions(e) ==> v == e.names || v in Versions(d);
    assert d.names in Versions(d);
  }

  lemma CallKeepsApartAcross(d: Disk, c: Call)
    requires WellFormed(d) && PartsApart(d) && EngineCall(c)
    ensures ApartAcross(Called(d, c))
  {
    var e := Called(d, c);
    assert forall v :: v in e.earlier ==> v == d.names || v in d.earlier;
    assert d.names in Versions(d);
    assert forall v :: v in d.earlier ==> v in Versions(d);
  }

  lemma CallKeepsPartsApart(d: Disk, c: Call)
    requires WellFormed(d) && PartsApart(d) && EngineCall(c)
    ensures PartsApart(Called(d, c))
  {
    CallKeepsApartInEach(d, c);
    CallKeepsApartAcross(d, c);
    hide ApartInEach, ApartAcross, Called, WellFormed;
  }

  lemma CrashKeepsPartsApart(d: Disk, c: Disk)
    requires WellFormed(d) && PartsApart(d) && CrashLeaves(d, c)
    ensures WellFormed(c) && PartsApart(c)
  {
  }

  /** An append to a part file changes what no other name reads, now or after a crash. */
  lemma AppendTouchesNothingElse(d: Disk, key: Key, bytes: Bytes, v: Names, x: Path)
    requires WellFormed(d) && PartsApart(d) && v in Versions(d) && x != Part(key)
    ensures ReadIn(Appended(d, Part(key), bytes), v, x) == ReadIn(d, v, x)
  {
    assert v == d.names || v in d.earlier;
  }

  // A history of calls, each of them followed by a crash or not.
  ghost predicate Reaches(d: Disk, calls: seq<Call>, crashes: seq<Option<Disk>>, e: Disk)
    decreases |calls|
  {
    if calls == [] || crashes == [] then e == d
    else
      && EngineCall(calls[0])
      && match crashes[0]
         case None => Reaches(Called(d, calls[0]), calls[1..], crashes[1..], e)
         case Some(c) => CrashLeaves(Called(d, calls[0]), c) && Reaches(c, calls[1..], crashes[1..], e)
  }

  /**
   In every state that streaming, committing, sharing a held copy, linking and removing files can
   reach, crashes and all, no inode is reachable from both a part file's name and another.
   */
  lemma {:induction false} InodesStaySeparate(d: Disk, calls: seq<Call>, crashes: seq<Option<Disk>>, e: Disk)
    requires WellFormed(d) && PartsApart(d) && Reaches(d, calls, crashes, e)
    ensures WellFormed(e) && PartsApart(e)
    decreases |calls|
  {
    if calls != [] && crashes != [] {
      var after := Called(d, calls[0]);
      CallKeepsWellFormed(d, calls[0]);
      CallKeepsPartsApart(d, calls[0]);
      match crashes[0]
      case None => InodesStaySeparate(after, calls[1..], crashes[1..], e);
      case Some(c) =>
        CrashKeepsPartsApart(after, c);
        InodesStaySeparate(c, calls[1..], crashes[1..], e);
    }
  }
}
