/**
 The write protocol under concurrency and crashes: any number of workers, each streaming one item
 into its part file, committing it by rename or by a link to a held copy of the same bytes, and
 recording it; the power may go between any two steps.

 Upstream bytes are fixed, and a response announces the length of the whole file, so a body that
 reaches it is the whole file.
 */
module Downloads {
  import opened Basics
  import opened FileSystem

  type Upstream = Key -> Bytes

  // Where one worker is in fetching its item; hashed is what went through the digest.
  datatype Phase =
    | Resting
    | Streaming(hashed: Bytes)
    | Whole(hashed: Bytes)
    | Matched(hashed: Bytes, held: Path)
    | LinkStaged(hashed: Bytes, held: Path, nonce: nat)
    | Shared(hashed: Bytes, final: Path)
    | Published(hashed: Bytes, final: Path)
    | Committed(hashed: Bytes, final: Path)

  // What the store says of an item's file.
  datatype Record = Record(path: Path, size: nat, sha: Digest)

  datatype World = World(d: Disk, phases: map<Key, Phase>, records: map<Key, Record>, landed: set<Key>)

  function PhaseOf(s: World, k: Key): Phase {
    if k in s.phases then s.phases[k] else Resting
  }

  function Put(s: World, k: Key, d: Disk, phase: Phase): World {
    s.(d := d, phases := s.phases[k := phase])
  }

  datatype Step =
    | Resume(k: Key)                          // rehash what survived, open for appending
    | Receive(k: Key, chunk: Bytes)
    | WriteFails(k: Key, written: Bytes)      // the file took some bytes, the digest none
    | RangeIgnored(k: Key)                    // the partial is discarded
    | BodyEnds(k: Key)                        // at the announced length: fsync
    | FindHeldCopy(k: Key, other: Key)        // re-read, and it hashes to its record
    | StageLink(k: Key, nonce: nat)
    | PlaceLink(k: Key, leaf: string)
    | LinkIsDurable(k: Key)                   // directory fsync
    | DropPart(k: Key)                        // the part file of a download committed as a link
    | KeepOwnCopy(k: Key)                     // something stood in the way of sharing
    | CommitByRename(k: Key, leaf: string)
    | RenameIsDurable(k: Key)                 // directory fsync
    | RecordIt(k: Key)
    | GiveUp(k: Key)                          // any error, and any cancellation
    | Tidy(path: Path)
    | PowerCut(left: Disk)

  function PartBytes(s: World, k: Key): Bytes {
    match Read(s.d, Part(k)) case Some(bytes) => bytes case None => []
  }

  ghost predicate Enabled(upstream: Upstream, s: World, step: Step) {
    match step
    case Resume(k) => PhaseOf(s, k).Resting?
    case Receive(k, chunk) =>
      PhaseOf(s, k).Streaming? && IsPrefix(PhaseOf(s, k).hashed + chunk, upstream(k))
    case WriteFails(k, written) =>
      PhaseOf(s, k).Streaming? && IsPrefix(PhaseOf(s, k).hashed + written, upstream(k))
    case RangeIgnored(k) => PhaseOf(s, k).Streaming?
    case BodyEnds(k) => PhaseOf(s, k).Streaming? && |PhaseOf(s, k).hashed| == |upstream(k)|
    case FindHeldCopy(k, other) =>
      && PhaseOf(s, k).Whole? && other != k && other in s.records
      && s.records[other].sha == Sha256(PhaseOf(s, k).hashed)
      && s.records[other].size == |PhaseOf(s, k).hashed|
      && Read(s.d, s.records[other].path).Some?
      && Sha256(Read(s.d, s.records[other].path).value) == s.records[other].sha
    case StageLink(k, nonce) => PhaseOf(s, k).Matched? && Staged(nonce) !in s.d.names
    case PlaceLink(k, _) => PhaseOf(s, k).LinkStaged?
    case LinkIsDurable(k) => PhaseOf(s, k).Shared?
    case DropPart(k) => PhaseOf(s, k).Committed?
    case KeepOwnCopy(k) => Sharing(PhaseOf(s, k))
    case CommitByRename(k, _) => PhaseOf(s, k).Whole?
    case RenameIsDurable(k) => PhaseOf(s, k).Published?
    case RecordIt(k) => PhaseOf(s, k).Committed?
    case GiveUp(k) => true
    case Tidy(path) =>
      && (path.Part? ==> PhaseOf(s, path.key).Resting?)
      && (path.Staged? ==> forall k :: k in s.phases && s.phases[k].LinkStaged? ==> s.phases[k].nonce != path.nonce)
      && !path.Pool?
    case PowerCut(left) => CrashLeaves(s.d, left)
  }

  predicate Sharing(phase: Phase) {
    phase.Matched? || phase.LinkStaged? || phase.Shared?
  }

  function Next(s: World, step: Step): World {
    match step
    case Resume(k) => Put(s, k, Opened(s.d, Part(k)), Streaming(PartBytes(s, k)))
    case Receive(k, chunk) =>
      if PhaseOf(s, k).Streaming? then
        Put(s, k, Appended(s.d, Part(k), chunk), Streaming(PhaseOf(s, k).hashed + chunk))
      else s
    case WriteFails(k, written) => Put(s, k, Appended(s.d, Part(k), written), Resting)
    case RangeIgnored(k) => Put(s, k, Removed(s.d, Part(k)), Resting)
    case BodyEnds(k) =>
      if PhaseOf(s, k).Streaming? then Put(s, k, Flushed(s.d, Part(k)), Whole(PhaseOf(s, k).hashed)) else s
    case FindHeldCopy(k, other) =>
      if PhaseOf(s, k).Whole? && other in s.records then
        Put(s, k, s.d, Matched(PhaseOf(s, k).hashed, s.records[other].path))
      else s
    case StageLink(k, nonce) =>
      if PhaseOf(s, k).Matched? then
        var was := PhaseOf(s, k);
        Put(s, k, Linked(s.d, was.held, Staged(nonce)), LinkStaged(was.hashed, was.held, nonce))
      else s
    case PlaceLink(k, leaf) =>
      if PhaseOf(s, k).LinkStaged? then
        var was := PhaseOf(s, k);
        Put(s, k, Renamed(s.d, Staged(was.nonce), Pool(k, leaf)), Shared(was.hashed, Pool(k, leaf)))
      else s
    case LinkIsDurable(k) =>
      if PhaseOf(s, k).Shared? then
        Put(s, k, DirFlushed(s.d), Committed(PhaseOf(s, k).hashed, PhaseOf(s, k).final))
      else s
    case DropPart(k) =>
      if PhaseOf(s, k).Committed? then Put(s, k, Removed(s.d, Part(k)), PhaseOf(s, k)) else s
    case KeepOwnCopy(k) =>
      if Sharing(PhaseOf(s, k)) then Put(s, k, s.d, Whole(PhaseOf(s, k).hashed)) else s
    case CommitByRename(k, leaf) =>
      if PhaseOf(s, k).Whole? then
        Put(s, k, Renamed(s.d, Part(k), Pool(k, leaf)), Published(PhaseOf(s, k).hashed, Pool(k, leaf)))
      else s
    case RenameIsDurable(k) =>
      if PhaseOf(s, k).Published? then
        Put(s, k, DirFlushed(s.d), Committed(PhaseOf(s, k).hashed, PhaseOf(s, k).final))
      else s
    case RecordIt(k) =>
      if PhaseOf(s, k).Committed? then
        var was := PhaseOf(s, k);
        Put(s, k, s.d, Resting).(records := s.records[k := Record(was.final, |was.hashed|, Sha256(was.hashed))],
                                 landed := s.landed + {k})
      else s
    case GiveUp(k) => Put(s, k, s.d, Resting)
    case Tidy(path) => s.(d := Removed(s.d, path))
    case PowerCut(left) => s.(d := left, phases := map[])
  }

  // ---- What the disk keeps ----

  /**
   A part file is always a prefix of its upstream file; a name in the pool is never lost and always
   reads as what it held before or as the whole upstream file, durably; all of it in every
   namespace a crash may leave.
   */
  ghost predicate Kept(before: Disk, upstream: Upstream, d: Disk) {
    && WellFormed(d) && PartsApart(d)
    && (forall v, k :: v in Versions(d) && Part(k) in v ==> IsPrefix(d.data[v[Part(k)]], upstream(k)))
    && (forall v, q :: v in Versions(d) && q in v && !q.Part? ==> d.flushed[v[q]] == |d.data[v[q]]|)
    && (forall v, q :: v in Versions(d) && q in v && q.Pool? ==>
          d.data[v[q]] == upstream(q.key) || Read(before, q) == Some(d.data[v[q]]))
    && (forall v, q :: v in Versions(d) && q in before.names && q.Pool? ==> q in v)
  }

  // A step that touches no file's bytes keeps the disk if the names it leaves are in order.
  lemma KeptWithNames(before: Disk, upstream: Upstream, d: Disk, e: Disk)
    requires Kept(before, upstream, d) && WellFormed(e) && PartsApart(e)
    requires forall i :: i in d.data ==>
      i in e.data && e.data[i] == d.data[i] && i in d.flushed && i in e.flushed && e.flushed[i] >= d.flushed[i]
    requires forall v :: v in Versions(e) ==> v == e.names || v in Versions(d)
    requires forall k :: Part(k) in e.names ==> IsPrefix(e.data[e.names[Part(k)]], upstream(k))
    requires forall q :: q in e.names && !q.Part? ==> e.flushed[e.names[q]] == |e.data[e.names[q]]|
    requires forall q :: q in e.names && q.Pool? ==>
      e.data[e.names[q]] == upstream(q.key) || Read(before, q) == Some(e.data[e.names[q]])
    requires forall q :: q in before.names && q.Pool? ==> q in e.names
    ensures Kept(before, upstream, e)
  {
    hide PartsApart, IsPrefix;
  }

  lemma OpenKeeps(before: Disk, upstream: Upstream, d: Disk, k: Key)
    requires Kept(before, upstream, d)
    ensures Kept(before, upstream, Opened(d, Part(k)))
  {
    hide PartsApart;
    CallKeepsWellFormed(d, OpenPart(k));
    CallKeepsPartsApart(d, OpenPart(k));
    assert d.names in Versions(d);
    KeptWithNames(before, upstream, d, Opened(d, Part(k)));
  }

  lemma AppendKeeps(before: Disk, upstream: Upstream, d: Disk, k: Key, bytes: Bytes)
    requires Kept(before, upstream, d)
    requires Part(k) in d.names && IsPrefix(d.data[d.names[Part(k)]] + bytes, upstream(k))
    ensures Kept(before, upstream, Appended(d, Part(k), bytes))
  {
    CallKeepsWellFormed(d, AppendPart(k, bytes));
    CallKeepsPartsApart(d, AppendPart(k, bytes));
    var e, i := Appended(d, Part(k), bytes), d.names[Part(k)];
    assert d.names in Versions(d);
    forall v, x | v in Versions(d) && x in v && v[x] == i
      ensures x == Part(k)
    {
      assert v == d.names || v in d.earlier;
    }
  }

  lemma FlushKeeps(before: Disk, upstream: Upstream, d: Disk, k: Key)
    requires Kept(before, upstream, d)
    ensures Kept(before, upstream, Flushed(d, Part(k)))
  {
    CallKeepsWellFormed(d, FlushPart(k));
    CallKeepsPartsApart(d, FlushPart(k));
  }

  lemma PublishKeeps(before: Disk, upstream: Upstream, d: Disk, k: Key, leaf: string)
    requires Kept(before, upstream, d)
    requires Part(k) in d.names && d.data[d.names[Part(k)]] == upstream(k)
    requires d.flushed[d.names[Part(k)]] == |upstream(k)|
    ensures Kept(before, upstream, Renamed(d, Part(k), Pool(k, leaf)))
  {
    hide PartsApart;
    CallKeepsWellFormed(d, FileSystem.Publish(k, Pool(k, leaf)));
    CallKeepsPartsApart(d, FileSystem.Publish(k, Pool(k, leaf)));
    assert d.names in Versions(d);
    KeptWithNames(before, upstream, d, Renamed(d, Part(k), Pool(k, leaf)));
  }

  lemma StageKeeps(before: Disk, upstream: Upstream, d: Disk, held: Path, nonce: nat)
    requires Kept(before, upstream, d) && held.Pool?
    ensures Kept(before, upstream, Linked(d, held, Staged(nonce)))
  {
    hide PartsApart;
    CallKeepsWellFormed(d, FileSystem.StageLink(held, nonce));
    CallKeepsPartsApart(d, FileSystem.StageLink(held, nonce));
    assert d.names in Versions(d);
    KeptWithNames(before, upstream, d, Linked(d, held, Staged(nonce)));
  }

  lemma PlaceKeeps(before: Disk, upstream: Upstream, d: Disk, nonce: nat, k: Key, leaf: string)
    requires Kept(before, upstream, d) && Read(d, Staged(nonce)) == Some(upstream(k))
    ensures Kept(before, upstream, Renamed(d, Staged(nonce), Pool(k, leaf)))
  {
    hide PartsApart;
    CallKeepsWellFormed(d, FileSystem.PlaceLink(nonce, Pool(k, leaf)));
    CallKeepsPartsApart(d, FileSystem.PlaceLink(nonce, Pool(k, leaf)));
    assert d.names in Versions(d);
    KeptWithNames(before, upstream, d, Renamed(d, Staged(nonce), Pool(k, leaf)));
  }

  lemma RemoveKeeps(before: Disk, upstream: Upstream, d: Disk, path: Path)
    requires Kept(before, upstream, d) && !path.Pool?
    ensures Kept(before, upstream, Removed(d, path))
  {
    hide PartsApart;
    CallKeepsWellFormed(d, Remove(path));
    CallKeepsPartsApart(d, Remove(path));
    assert d.names in Versions(d);
    KeptWithNames(before, upstream, d, Removed(d, path));
  }

  lemma DirFlushKeeps(before: Disk, upstream: Upstream, d: Disk)
    requires Kept(before, upstream, d)
    ensures Kept(before, upstream, DirFlushed(d))
  {
    assert d.names in Versions(d);
  }

  /** The power going changes none of it. */
  lemma CrashKeeps(before: Disk, upstream: Upstream, d: Disk, c: Disk)
    requires Kept(before, upstream, d) && CrashLeaves(d, c)
    ensures Kept(before, upstream, c)
  {
    hide PartsApart;
    CrashKeepsPartsApart(d, c);
    forall q | q in c.names && !q.Part?
      ensures c.data[c.names[q]] == d.data[c.names[q]]
    {
    }
  }

  // ---- What the workers rely on ----

  ghost predicate PartIsWhole(d: Disk, k: Key, bytes: Bytes) {
    && Read(d, Part(k)) == Some(bytes)
    && d.names[Part(k)] in d.flushed && d.flushed[d.names[Part(k)]] == |bytes|
  }

  ghost predicate AlwaysReads(d: Disk, q: Path, bytes: Bytes) {
    forall v :: v in Versions(d) ==> ReadIn(d, v, q) == Some(bytes)
  }

  ghost predicate PhaseHolds(upstream: Upstream, d: Disk, k: Key, phase: Phase) {
    match phase
    case Resting => true
    case Streaming(hashed) => Read(d, Part(k)) == Some(hashed)
    case Whole(hashed) => hashed == upstream(k) && PartIsWhole(d, k, hashed)
    case Matched(hashed, held) =>
      && hashed == upstream(k) && PartIsWhole(d, k, hashed)
      && held.Pool? && upstream(held.key) == hashed && Read(d, held) == Some(hashed)
    case LinkStaged(hashed, held, nonce) =>
      && hashed == upstream(k) && PartIsWhole(d, k, hashed)
      && Read(d, Staged(nonce)) == Some(hashed)
    case Shared(hashed, final) =>
      && hashed == upstream(k) && PartIsWhole(d, k, hashed)
      && final.Pool? && final.key == k && Read(d, final) == Some(hashed)
    case Published(hashed, final) =>
      hashed == upstream(k) && final.Pool? && final.key == k && Read(d, final) == Some(hashed)
    case Committed(hashed, final) =>
      hashed == upstream(k) && final.Pool? && final.key == k && AlwaysReads(d, final, hashed)
  }

  // The store's word about a file is the upstream file's size and digest.
  ghost predicate RecordsTrue(upstream: Upstream, s: World) {
    forall k :: k in s.records ==>
      && s.records[k].path.Pool? && s.records[k].path.key == k
      && s.records[k].size == |upstream(k)|
      && s.records[k].sha == Sha256(upstream(k))
  }

  ghost predicate LandedSafely(upstream: Upstream, s: World) {
    forall k :: k in s.landed ==> k in s.records && AlwaysReads(s.d, s.records[k].path, upstream(k))
  }

  ghost predicate NoncesApart(s: World) {
    forall k, j | k in s.phases && j in s.phases && k != j ::
      s.phases[k].LinkStaged? && s.phases[j].LinkStaged? ==> s.phases[k].nonce != s.phases[j].nonce
  }

  ghost predicate Inv(before: Disk, upstream: Upstream, s: World) {
    && Kept(before, upstream, s.d)
    && (forall k :: k in s.phases ==> PhaseHolds(upstream, s.d, k, s.phases[k]))
    && RecordsTrue(upstream, s) && LandedSafely(upstream, s) && NoncesApart(s)
  }

  // What one worker's step leaves the others: their own staging files, every good file in the pool.
  ghost predicate Gentle(upstream: Upstream, d: Disk, e: Disk, mine: set<Path>) {
    && (forall q: Path :: q.Pool? && Read(d, q) == Some(upstream(q.key)) ==> Read(e, q) == Some(upstream(q.key)))
    && (forall q: Path :: q.Pool? && AlwaysReads(d, q, upstream(q.key)) ==> AlwaysReads(e, q, upstream(q.key)))
    && (forall p: Path :: !p.Pool? && p !in mine && Read(d, p).Some? ==>
          && Read(e, p) == Read(d, p) && e.names[p] == d.names[p]
          && e.names[p] in e.flushed && e.names[p] in d.flushed
          && e.flushed[e.names[p]] >= d.flushed[d.names[p]])
  }

  lemma OthersRest(upstream: Upstream, d: Disk, e: Disk, mine: set<Path>, k: Key, phase: Phase)
    requires Gentle(upstream, d, e, mine) && WellFormed(e)
    requires PhaseHolds(upstream, d, k, phase)
    requires Part(k) !in mine && (phase.LinkStaged? ==> Staged(phase.nonce) !in mine)
    ensures PhaseHolds(upstream, e, k, phase)
  {
  }

  // A step that touches no file's bytes and takes no name but its own.
  lemma GentleWithNames(upstream: Upstream, d: Disk, e: Disk, mine: set<Path>)
    requires WellFormed(d) && forall q :: q in mine ==> !q.Pool?
    requires forall i :: i in d.data ==>
      i in e.data && e.data[i] == d.data[i] && i in d.flushed && i in e.flushed && e.flushed[i] >= d.flushed[i]
    requires forall v :: v in Versions(e) ==> v == e.names || v in Versions(d)
    requires forall q :: q in d.names && q !in mine ==>
      q in e.names && (e.names[q] == d.names[q] || (q.Pool? && Read(e, q) == Some(upstream(q.key))))
    ensures Gentle(upstream, d, e, mine)
  {
    assert d.names in Versions(d);
    forall q: Path | q.Pool? && AlwaysReads(d, q, upstream(q.key))
      ensures AlwaysReads(e, q, upstream(q.key))
    {
      forall v | v in Versions(e)
        ensures ReadIn(e, v, q) == Some(upstream(q.key))
      {
        assert ReadIn(d, d.names, q) == Some(upstream(q.key));
        assert v in Versions(d) ==> ReadIn(d, v, q) == Some(upstream(q.key));
      }
    }
  }

  lemma GentleOpen(before: Disk, upstream: Upstream, d: Disk, k: Key)
    requires Kept(before, upstream, d)
    ensures Gentle(upstream, d, Opened(d, Part(k)), {Part(k)})
  {
    hide Gentle, PartsApart;
    GentleWithNames(upstream, d, Opened(d, Part(k)), {Part(k)});
  }

  lemma GentleAppend(before: Disk, upstream: Upstream, d: Disk, k: Key, bytes: Bytes)
    requires Kept(before, upstream, d)
    ensures Gentle(upstream, d, Appended(d, Part(k), bytes), {Part(k)})
  {
    var e := Appended(d, Part(k), bytes);
    assert d.names in Versions(d);
    forall v, x | v in Versions(d) && x != Part(k)
      ensures ReadIn(e, v, x) == ReadIn(d, v, x)
    {
      AppendTouchesNothingElse(d, k, bytes, v, x);
    }
  }

  lemma GentleFlush(before: Disk, upstream: Upstream, d: Disk, k: Key)
    requires Kept(before, upstream, d)
    ensures Gentle(upstream, d, Flushed(d, Part(k)), {Part(k)})
  {
    hide Gentle, PartsApart;
    GentleWithNames(upstream, d, Flushed(d, Part(k)), {Part(k)});
  }

  lemma GentleRename(before: Disk, upstream: Upstream, d: Disk, from: Path, k: Key, leaf: string)
    requires Kept(before, upstream, d) && !from.Pool?
    requires Read(d, from) == Some(upstream(k))
    ensures Gentle(upstream, d, Renamed(d, from, Pool(k, leaf)), {from})
    ensures Read(Renamed(d, from, Pool(k, leaf)), Pool(k, leaf)) == Some(upstream(k))
  {
    hide Gentle, PartsApart;
    assert d.names in Versions(d);
    GentleWithNames(upstream, d, Renamed(d, from, Pool(k, leaf)), {from});
  }

  lemma GentleLink(before: Disk, upstream: Upstream, d: Disk, held: Path, nonce: nat)
    requires Kept(before, upstream, d) && held.Pool?
    ensures Gentle(upstream, d, Linked(d, held, Staged(nonce)), {})
  {
    hide Gentle, PartsApart;
    GentleWithNames(upstream, d, Linked(d, held, Staged(nonce)), {});
  }

  lemma GentleRemove(before: Disk, upstream: Upstream, d: Disk, path: Path)
    requires Kept(before, upstream, d) && !path.Pool?
    ensures Gentle(upstream, d, Removed(d, path), {path})
  {
    hide Gentle, PartsApart;
    GentleWithNames(upstream, d, Removed(d, path), {path});
  }

  lemma GentleDirFlush(before: Disk, upstream: Upstream, d: Disk)
    requires Kept(before, upstream, d)
    ensures Gentle(upstream, d, DirFlushed(d), {})
    ensures forall q, bytes :: Read(d, q) == Some(bytes) ==> AlwaysReads(DirFlushed(d), q, bytes)
  {
    assert d.names in Versions(d);
  }

  // ---- Every step ----

  // One worker moves on: what it relies on next holds, and it was gentle with the others.
  lemma Advance(before: Disk, upstream: Upstream, s: World, k: Key, e: Disk, phase: Phase, mine: set<Path>)
    requires Inv(before, upstream, s) && Kept(before, upstream, e)
    requires Gentle(upstream, s.d, e, mine)
    requires forall j :: Part(j) in mine ==> j == k
    requires forall j :: j in s.phases && j != k && s.phases[j].LinkStaged? ==>
      Staged(s.phases[j].nonce) !in mine && (phase.LinkStaged? ==> phase.nonce != s.phases[j].nonce)
    requires PhaseHolds(upstream, e, k, phase)
    ensures Inv(before, upstream, Put(s, k, e, phase))
  {
    hide Kept, Gentle, PhaseHolds, AlwaysReads;
    var s' := Put(s, k, e, phase);
    KeptIsWellFormed(before, upstream, e);
    forall j | j in s'.phases
      ensures PhaseHolds(upstream, e, j, s'.phases[j])
    {
      if j != k {
        OthersRest(upstream, s.d, e, mine, j, s.phases[j]);
      }
    }
    forall j | j in s.landed
      ensures AlwaysReads(e, s.records[j].path, upstream(j))
    {
      GoodFilesStay(upstream, s.d, e, mine, s.records[j].path);
    }
  }

  lemma KeptIsWellFormed(before: Disk, upstream: Upstream, d: Disk)
    requires Kept(before, upstream, d)
    ensures WellFormed(d)
  {
  }

  lemma GoodFilesStay(upstream: Upstream, d: Disk, e: Disk, mine: set<Path>, q: Path)
    requires Gentle(upstream, d, e, mine) && q.Pool? && AlwaysReads(d, q, upstream(q.key))
    ensures AlwaysReads(e, q, upstream(q.key))
  {
  }

  lemma Lingers(before: Disk, upstream: Upstream, s: World, k: Key, phase: Phase)
    requires Inv(before, upstream, s) && !phase.LinkStaged? && PhaseHolds(upstream, s.d, k, phase)
    ensures Inv(before, upstream, Put(s, k, s.d, phase))
  {
  }

  lemma OpenReads(d: Disk, k: Key)
    requires WellFormed(d)
    ensures Read(Opened(d, Part(k)), Part(k)) == Some(match Read(d, Part(k)) case Some(bytes) => bytes case None => [])
  {
    assert d.names in Versions(d);
  }

  // A prefix of the upstream file as long as the upstream file is the upstream file.
  lemma WholeAtLength(before: Disk, upstream: Upstream, d: Disk, k: Key, bytes: Bytes)
    requires Kept(before, upstream, d) && Read(d, Part(k)) == Some(bytes) && |bytes| == |upstream(k)|
    ensures bytes == upstream(k)
    ensures PartIsWhole(Flushed(d, Part(k)), k, bytes)
  {
    assert d.names in Versions(d);
  }

  lemma ResumeStep(before: Disk, upstream: Upstream, s: World, k: Key)
    requires Inv(before, upstream, s) && Enabled(upstream, s, Resume(k))
    ensures Inv(before, upstream, Next(s, Resume(k)))
  {
    hide Kept, Gentle, AlwaysReads, CrashLeaves;
    var phase := PhaseOf(s, k);
    assert PhaseHolds(upstream, s.d, k, phase);
    KeptIsWellFormed(before, upstream, s.d);
    OpenKeeps(before, upstream, s.d, k);
    GentleOpen(before, upstream, s.d, k);
    OpenReads(s.d, k);
    Advance(before, upstream, s, k, Opened(s.d, Part(k)), Streaming(PartBytes(s, k)), {Part(k)});
  }

  lemma ReceiveStep(before: Disk, upstream: Upstream, s: World, k: Key, chunk: Bytes)
    requires Inv(before, upstream, s) && Enabled(upstream, s, Receive(k, chunk))
    ensures Inv(before, upstream, Next(s, Receive(k, chunk)))
  {
    hide Kept, Gentle, AlwaysReads, CrashLeaves;
    var phase := PhaseOf(s, k);
    assert PhaseHolds(upstream, s.d, k, phase);
    AppendKeeps(before, upstream, s.d, k, chunk);
    GentleAppend(before, upstream, s.d, k, chunk);
    Advance(before, upstream, s, k, Appended(s.d, Part(k), chunk), Streaming(phase.hashed + chunk), {Part(k)});
  }

  lemma WriteFailsStep(before: Disk, upstream: Upstream, s: World, k: Key, written: Bytes)
    requires Inv(before, upstream, s) && Enabled(upstream, s, WriteFails(k, written))
    ensures Inv(before, upstream, Next(s, WriteFails(k, written)))
  {
    hide Kept, Gentle, AlwaysReads, CrashLeaves;
    var phase := PhaseOf(s, k);
    assert PhaseHolds(upstream, s.d, k, phase);
    AppendKeeps(before, upstream, s.d, k, written);
    GentleAppend(before, upstream, s.d, k, written);
    Advance(before, upstream, s, k, Appended(s.d, Part(k), written), Resting, {Part(k)});
  }

  lemma RangeIgnoredStep(before: Disk, upstream: Upstream, s: World, k: Key)
    requires Inv(before, upstream, s) && Enabled(upstream, s, RangeIgnored(k))
    ensures Inv(before, upstream, Next(s, RangeIgnored(k)))
  {
    hide Kept, Gentle, AlwaysReads, CrashLeaves;
    var phase := PhaseOf(s, k);
    assert PhaseHolds(upstream, s.d, k, phase);
    RemoveKeeps(before, upstream, s.d, Part(k));
    GentleRemove(before, upstream, s.d, Part(k));
    Advance(before, upstream, s, k, Removed(s.d, Part(k)), Resting, {Part(k)});
  }

  lemma BodyEndsStep(before: Disk, upstream: Upstream, s: World, k: Key)
    requires Inv(before, upstream, s) && Enabled(upstream, s, BodyEnds(k))
    ensures Inv(before, upstream, Next(s, BodyEnds(k)))
  {
    hide Kept, Gentle, AlwaysReads, CrashLeaves;
    var phase := PhaseOf(s, k);
    assert PhaseHolds(upstream, s.d, k, phase);
    WholeAtLength(before, upstream, s.d, k, phase.hashed);
    FlushKeeps(before, upstream, s.d, k);
    GentleFlush(before, upstream, s.d, k);
    Advance(before, upstream, s, k, Flushed(s.d, Part(k)), Whole(phase.hashed), {Part(k)});
  }

  lemma FindHeldCopyStep(before: Disk, upstream: Upstream, s: World, k: Key, other: Key)
    requires Inv(before, upstream, s) && Enabled(upstream, s, FindHeldCopy(k, other))
    ensures Inv(before, upstream, Next(s, FindHeldCopy(k, other)))
  {
    hide Kept, Gentle, AlwaysReads, CrashLeaves;
    var phase := PhaseOf(s, k);
    assert PhaseHolds(upstream, s.d, k, phase);
    Lingers(before, upstream, s, k, Matched(phase.hashed, s.records[other].path));
  }

  lemma StageLinkStep(before: Disk, upstream: Upstream, s: World, k: Key, nonce: nat)
    requires Inv(before, upstream, s) && Enabled(upstream, s, Step.StageLink(k, nonce))
    ensures Inv(before, upstream, Next(s, Step.StageLink(k, nonce)))
  {
    hide Kept, Gentle, AlwaysReads, CrashLeaves;
    var phase := PhaseOf(s, k);
    assert PhaseHolds(upstream, s.d, k, phase);
    StageKeeps(before, upstream, s.d, phase.held, nonce);
    GentleLink(before, upstream, s.d, phase.held, nonce);
    LinkedReads(before, upstream, s.d, phase.held, nonce, k, phase.hashed);
    NonceIsNew(before, upstream, s, nonce);
    Advance(before, upstream, s, k, Linked(s.d, phase.held, Staged(nonce)),
            LinkStaged(phase.hashed, phase.held, nonce), {});
  }

  lemma PlaceLinkStep(before: Disk, upstream: Upstream, s: World, k: Key, leaf: string)
    requires Inv(before, upstream, s) && Enabled(upstream, s, Step.PlaceLink(k, leaf))
    ensures Inv(before, upstream, Next(s, Step.PlaceLink(k, leaf)))
  {
    hide Kept, Gentle, AlwaysReads, CrashLeaves;
    var phase := PhaseOf(s, k);
    assert PhaseHolds(upstream, s.d, k, phase);
    var staged := Staged(phase.nonce);
    var e := Renamed(s.d, staged, Pool(k, leaf));
    PlaceKeeps(before, upstream, s.d, phase.nonce, k, leaf);
    GentleRename(before, upstream, s.d, staged, k, leaf);
    PartStaysWhole(before, upstream, s.d, e, {staged}, k, phase.hashed);
    Advance(before, upstream, s, k, e, Shared(phase.hashed, Pool(k, leaf)), {staged});
  }

  lemma KeepOwnCopyStep(before: Disk, upstream: Upstream, s: World, k: Key)
    requires Inv(before, upstream, s) && Enabled(upstream, s, KeepOwnCopy(k))
    ensures Inv(before, upstream, Next(s, KeepOwnCopy(k)))
  {
    hide Kept, Gentle, AlwaysReads, CrashLeaves;
    var phase := PhaseOf(s, k);
    assert PhaseHolds(upstream, s.d, k, phase);
    Lingers(before, upstream, s, k, Whole(phase.hashed));
  }

  lemma LinkedReads(before: Disk, upstream: Upstream, d: Disk, held: Path, nonce: nat, k: Key, bytes: Bytes)
    requires Kept(before, upstream, d) && Read(d, held) == Some(bytes) && Staged(nonce) !in d.names
    requires PartIsWhole(d, k, bytes)
    ensures var e := Linked(d, held, Staged(nonce));
      Read(e, Staged(nonce)) == Some(bytes) && PartIsWhole(e, k, bytes)
  {
  }

  lemma PartStaysWhole(before: Disk, upstream: Upstream, d: Disk, e: Disk, mine: set<Path>, k: Key, bytes: Bytes)
    requires Gentle(upstream, d, e, mine) && PartIsWhole(d, k, bytes) && Part(k) !in mine
    requires Kept(before, upstream, e)
    ensures PartIsWhole(e, k, bytes)
  {
    assert e.names in Versions(e);
  }

  lemma NonceIsNew(before: Disk, upstream: Upstream, s: World, nonce: nat)
    requires Inv(before, upstream, s) && Staged(nonce) !in s.d.names
    ensures forall j :: j in s.phases && s.phases[j].LinkStaged? ==> s.phases[j].nonce != nonce
  {
    forall j | j in s.phases && s.phases[j].LinkStaged?
      ensures s.phases[j].nonce != nonce
    {
      assert PhaseHolds(upstream, s.d, j, s.phases[j]);
    }
  }

  lemma CommitByRenameStep(before: Disk, upstream: Upstream, s: World, k: Key, leaf: string)
    requires Inv(before, upstream, s) && Enabled(upstream, s, CommitByRename(k, leaf))
    ensures Inv(before, upstream, Next(s, CommitByRename(k, leaf)))
  {
    hide Kept, Gentle, AlwaysReads, CrashLeaves;
    var phase := PhaseOf(s, k);
    assert PhaseHolds(upstream, s.d, k, phase);
    PublishKeeps(before, upstream, s.d, k, leaf);
    GentleRename(before, upstream, s.d, Part(k), k, leaf);
    Advance(before, upstream, s, k, Renamed(s.d, Part(k), Pool(k, leaf)), Published(phase.hashed, Pool(k, leaf)),
            {Part(k)});
  }

  lemma RenameIsDurableStep(before: Disk, upstream: Upstream, s: World, k: Key)
    requires Inv(before, upstream, s) && Enabled(upstream, s, RenameIsDurable(k))
    ensures Inv(before, upstream, Next(s, RenameIsDurable(k)))
  {
    hide Kept, Gentle, AlwaysReads, CrashLeaves;
    var phase := PhaseOf(s, k);
    assert PhaseHolds(upstream, s.d, k, phase);
    DirFlushKeeps(before, upstream, s.d);
    GentleDirFlush(before, upstream, s.d);
    Advance(before, upstream, s, k, DirFlushed(s.d), Committed(phase.hashed, phase.final), {});
  }

  lemma LinkIsDurableStep(before: Disk, upstream: Upstream, s: World, k: Key)
    requires Inv(before, upstream, s) && Enabled(upstream, s, LinkIsDurable(k))
    ensures Inv(before, upstream, Next(s, LinkIsDurable(k)))
  {
    hide Kept, Gentle, AlwaysReads, CrashLeaves;
    var phase := PhaseOf(s, k);
    assert PhaseHolds(upstream, s.d, k, phase);
    DirFlushKeeps(before, upstream, s.d);
    GentleDirFlush(before, upstream, s.d);
    Advance(before, upstream, s, k, DirFlushed(s.d), Committed(phase.hashed, phase.final), {});
  }

  lemma DropPartStep(before: Disk, upstream: Upstream, s: World, k: Key)
    requires Inv(before, upstream, s) && Enabled(upstream, s, DropPart(k))
    ensures Inv(before, upstream, Next(s, DropPart(k)))
  {
    hide Kept, Gentle, AlwaysReads, CrashLeaves;
    var phase := PhaseOf(s, k);
    assert PhaseHolds(upstream, s.d, k, phase);
    var e := Removed(s.d, Part(k));
    RemoveKeeps(before, upstream, s.d, Part(k));
    GentleRemove(before, upstream, s.d, Part(k));
    GoodFilesStay(upstream, s.d, e, {Part(k)}, phase.final);
    Advance(before, upstream, s, k, e, phase, {Part(k)});
  }

  lemma GiveUpStep(before: Disk, upstream: Upstream, s: World, k: Key)
    requires Inv(before, upstream, s) && Enabled(upstream, s, GiveUp(k))
    ensures Inv(before, upstream, Next(s, GiveUp(k)))
  {
    hide Kept, Gentle, AlwaysReads, CrashLeaves;
    var phase := PhaseOf(s, k);
    assert PhaseHolds(upstream, s.d, k, phase);
    Lingers(before, upstream, s, k, Resting);
  }

  lemma RecordStep(before: Disk, upstream: Upstream, s: World, k: Key)
    requires Inv(before, upstream, s) && Enabled(upstream, s, RecordIt(k))
    ensures Inv(before, upstream, Next(s, RecordIt(k)))
  {
    hide Kept, AlwaysReads;
    assert PhaseHolds(upstream, s.d, k, PhaseOf(s, k));
    Lingers(before, upstream, s, k, Resting);
    assert forall j :: j in s.landed ==> AlwaysReads(s.d, s.records[j].path, upstream(j));
  }

  lemma TidyStep(before: Disk, upstream: Upstream, s: World, path: Path)
    requires Inv(before, upstream, s) && Enabled(upstream, s, Tidy(path))
    ensures Inv(before, upstream, Next(s, Tidy(path)))
  {
    hide Kept, Gentle, PhaseHolds, AlwaysReads;
    RemoveKeeps(before, upstream, s.d, path);
    GentleRemove(before, upstream, s.d, path);
    var e := Removed(s.d, path);
    KeptIsWellFormed(before, upstream, e);
    forall j | j in s.phases
      ensures PhaseHolds(upstream, e, j, s.phases[j])
    {
      if path == Part(j) {
        RestingHolds(upstream, e, j, s.phases[j]);
      } else {
        OthersRest(upstream, s.d, e, {path}, j, s.phases[j]);
      }
    }
    forall j | j in s.landed
      ensures AlwaysReads(e, s.records[j].path, upstream(j))
    {
      GoodFilesStay(upstream, s.d, e, {path}, s.records[j].path);
    }
  }

  lemma RestingHolds(upstream: Upstream, d: Disk, k: Key, phase: Phase)
    requires phase.Resting?
    ensures PhaseHolds(upstream, d, k, phase)
  {
  }

  lemma CrashKeepsGoodFile(before: Disk, upstream: Upstream, d: Disk, c: Disk, q: Path, bytes: Bytes)
    requires Kept(before, upstream, d) && CrashLeaves(d, c) && q.Pool? && AlwaysReads(d, q, bytes)
    ensures AlwaysReads(c, q, bytes)
  {
    assert ReadIn(d, c.names, q) == Some(bytes);
    var i := c.names[q];
    assert d.flushed[i] == |d.data[i]| && c.data[i] == d.data[i];
    assert forall v :: v in Versions(c) ==> v == c.names;
  }

  lemma CrashStep(before: Disk, upstream: Upstream, s: World, left: Disk)
    requires Inv(before, upstream, s) && Enabled(upstream, s, PowerCut(left))
    ensures Inv(before, upstream, Next(s, PowerCut(left)))
  {
    hide Kept, AlwaysReads, PhaseHolds;
    assert CrashLeaves(s.d, left);
    CrashKeeps(before, upstream, s.d, left);
    forall j | j in s.landed
      ensures AlwaysReads(left, s.records[j].path, upstream(j))
    {
      CrashKeepsGoodFile(before, upstream, s.d, left, s.records[j].path, upstream(j));
    }
  }

  lemma StepKeepsInv(before: Disk, upstream: Upstream, s: World, step: Step)
    requires Inv(before, upstream, s) && Enabled(upstream, s, step)
    ensures Inv(before, upstream, Next(s, step))
  {
    hide Inv, Enabled, Next;
    match step
    case Resume(k) => ResumeStep(before, upstream, s, k);
    case Receive(k, chunk) => ReceiveStep(before, upstream, s, k, chunk);
    case WriteFails(k, written) => WriteFailsStep(before, upstream, s, k, written);
    case RangeIgnored(k) => RangeIgnoredStep(before, upstream, s, k);
    case BodyEnds(k) => BodyEndsStep(before, upstream, s, k);
    case FindHeldCopy(k, other) => FindHeldCopyStep(before, upstream, s, k, other);
    case StageLink(k, nonce) => StageLinkStep(before, upstream, s, k, nonce);
    case PlaceLink(k, leaf) => PlaceLinkStep(before, upstream, s, k, leaf);
    case LinkIsDurable(k) => LinkIsDurableStep(before, upstream, s, k);
    case DropPart(k) => DropPartStep(before, upstream, s, k);
    case KeepOwnCopy(k) => KeepOwnCopyStep(before, upstream, s, k);
    case CommitByRename(k, leaf) => CommitByRenameStep(before, upstream, s, k, leaf);
    case RenameIsDurable(k) => RenameIsDurableStep(before, upstream, s, k);
    case RecordIt(k) => RecordStep(before, upstream, s, k);
    case GiveUp(k) => GiveUpStep(before, upstream, s, k);
    case Tidy(path) => TidyStep(before, upstream, s, path);
    case PowerCut(left) => CrashStep(before, upstream, s, left);
  }

  /** A run begins on any pool whose part files are prefixes, with a store that tells the truth. */
  lemma Begins(d: Disk, upstream: Upstream, records: map<Key, Record>)
    requires WellFormed(d) && PartsApart(d) && d.earlier == []
    requires forall k :: Part(k) in d.names ==> IsPrefix(d.data[d.names[Part(k)]], upstream(k))
    requires forall q :: q in d.names && !q.Part? ==> d.flushed[d.names[q]] == |d.data[d.names[q]]|
    requires RecordsTrue(upstream, World(d, map[], records, {}))
    ensures Inv(d, upstream, World(d, map[], records, {}))
  {
  }

  // ---- Whole histories ----

  ghost predicate Allowed(upstream: Upstream, s: World, steps: seq<Step>)
    decreases |steps|
  {
    steps == [] || (Enabled(upstream, s, steps[0]) && Allowed(upstream, Next(s, steps[0]), steps[1..]))
  }

  function After(s: World, steps: seq<Step>): World
    decreases |steps|
  {
    if steps == [] then s else After(Next(s, steps[0]), steps[1..])
  }

  /**
   Over any interleaving of any workers' attempts, truncations, ignored ranges, failed writes,
   shared copies and crashes: every part file is a prefix of its upstream file, every name in the
   pool reads as it did before the history began or as its whole upstream file, in every namespace
   a crash may leave, and everything the store recorded is the whole file's size and digest, with
   the file safely there.
   */
  lemma {:induction false} EveryHistory(before: Disk, upstream: Upstream, s: World, steps: seq<Step>)
    requires Inv(before, upstream, s) && Allowed(upstream, s, steps)
    ensures Inv(before, upstream, After(s, steps))
    decreases |steps|
  {
    if steps != [] {
      StepKeepsInv(before, upstream, s, steps[0]);
      EveryHistory(before, upstream, Next(s, steps[0]), steps[1..]);
    }
  }

  lemma PoolReads(before: Disk, upstream: Upstream, d: Disk, q: Path)
    requires Kept(before, upstream, d) && q.Pool?
    ensures q in before.names ==> Read(d, q).Some?
    ensures Read(d, q).Some? ==> Read(d, q) == Some(upstream(q.key)) || Read(d, q) == Read(before, q)
  {
    assert d.names in Versions(d);
  }

  /** A crash at any moment leaves each pool name its old bytes or the whole file, never less. */
  lemma NeverLess(before: Disk, upstream: Upstream, s: World, steps: seq<Step>, left: Disk, q: Path)
    requires Inv(before, upstream, s) && Allowed(upstream, s, steps)
    requires CrashLeaves(After(s, steps).d, left) && q.Pool?
    ensures q in before.names ==> Read(left, q).Some?
    ensures Read(left, q).Some? ==> Read(left, q) == Some(upstream(q.key)) || Read(left, q) == Read(before, q)
    ensures After(s, steps).landed <= After(s, steps).records.Keys
    ensures q.key in After(s, steps).landed && After(s, steps).records[q.key].path == q ==>
      && Read(left, q) == Some(upstream(q.key))
      && After(s, steps).records[q.key].sha == Sha256(upstream(q.key))
  {
    hide Kept, PartsApart, CrashLeaves, PhaseHolds, NoncesApart;
    EveryHistory(before, upstream, s, steps);
    var last := After(s, steps);
    assert Enabled(upstream, last, PowerCut(left));
    CrashStep(before, upstream, last, left);
    PoolReads(before, upstream, left, q);
    assert left.names in Versions(left);
  }
}
