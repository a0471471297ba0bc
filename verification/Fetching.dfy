/**
 One item's download as the code runs it: resume what survived, stream the rest, flush, and commit
 by a link to a held copy of the same bytes or by rename. What it promises holds wherever it stops.
 */
module Fetching {
  import opened Basics
  import opened FileSystem
  import opened Downloads
  import opened PoolDisk
  import opened StoreState
  import opened HeldCopies

  /** What the content host answers a request for the bytes from an offset on. */
  datatype Response =
    | NoAnswer
    | Answer(status: nat, body: seq<Bytes>, length: Option<nat>, cut: bool, filename: string)

  datatype Outcome = Streamed | RangeWasIgnored | BrokenOff

  datatype Downloaded = Downloaded(path: Path, size: nat, sha: Digest)

  const OK: nat := 200
  const PARTIAL_CONTENT: nat := 206

  function Joined(chunks: seq<Bytes>): Bytes {
    if chunks == [] then [] else Joined(chunks[..|chunks| - 1]) + chunks[|chunks| - 1]
  }

  // The host serves the file, from the offset on if it says it does, and announces true lengths.
  predicate Honest(response: Response, file: Bytes, offset: nat) {
    response.Answer? && offset <= |file| ==>
      && (response.status == OK ==>
            && IsPrefix(Joined(response.body), file)
            && (response.length.Some? ==> response.length.value == |file|))
      && (response.status == PARTIAL_CONTENT ==>
            && IsPrefix(file[..offset] + Joined(response.body), file)
            && (response.length.Some? ==> response.length.value == |file| - offset))
  }

  // The status a request from this offset is answered with when it is answered.
  predicate StatusFits(response: Response, offset: nat) {
    response.Answer? && response.status == (if offset > 0 then PARTIAL_CONTENT else OK)
  }

  // The body was read to its end and nothing about its length was contradicted.
  predicate BodyAccepted(response: Response) {
    response.Answer? && !response.cut
    && (response.length.Some? ==> |Joined(response.body)| == response.length.value)
  }

  // The earliest other holder of the bytes has their size on record and still reads as its hash.
  ghost predicate CanShare(items: map<Key, Row>, d: Disk, k: Key, bytes: Bytes) {
    exists h :: IsEarliest(items, HoldersOf(items, Sha256(bytes)) - {k}, h) && Serviceable(items, d, h, |bytes|)
  }

  predicate Serviceable(items: map<Key, Row>, d: Disk, h: Key, size: nat) {
    && h in items && items[h].localPath.Some? && items[h].size == Some(size)
    && HashesTo(d, items[h].localPath.value, items[h].sha)
  }

  lemma SharesTheEarliest(items: map<Key, Row>, d: Disk, k: Key, bytes: Bytes, held: Option<Key>)
    requires held.None? <==> HoldersOf(items, Sha256(bytes)) - {k} == {}
    requires held.Some? ==> IsEarliest(items, HoldersOf(items, Sha256(bytes)) - {k}, held.value)
    ensures held.Some? ==>
      held.value in items && BackedUpWithAHash(items[held.value]) && items[held.value].sha == Some(Sha256(bytes))
    ensures CanShare(items, d, k, bytes) <==> held.Some? && Serviceable(items, d, held.value, |bytes|)
  {
    var holders := HoldersOf(items, Sha256(bytes)) - {k};
    if h :| IsEarliest(items, holders, h) && Serviceable(items, d, h, |bytes|) {
      OneEarliest(items, holders, h, held.value);
    }
  }

  // The name a download is stored under.
  function NameFor(listed: string, response: Response): string {
    if response.Answer? && response.filename != "" then response.filename else listed
  }

  // What is left of an earlier attempt.
  function PartialOf(d: Disk, k: Key): Bytes {
    match Read(d, Part(k)) case Some(bytes) => bytes case None => []
  }

  // An answer that, on a disk that takes it all, is the rest of the file.
  predicate Fits(response: Response, offset: nat) {
    StatusFits(response, offset) && BodyAccepted(response)
  }

  predicate AnswersInFull(response: Response, offset: nat) {
    response.Answer? && offset > 0 && response.status == OK
  }

  // An answer to a request for what follows some bytes that is all of it, whether its length is
  // announced or not.
  predicate IsTheRest(response: Response, file: Bytes, partial: Bytes) {
    && response.Answer? && !response.cut
    && response.status == (if partial == [] then 200 else 206)
    && partial + Joined(response.body) == file
    && (response.length == None || response.length == Some(|file| - |partial|))
  }

  // An answer nothing can be made of: none, one that breaks off or stops short of the length it
  // announced, or any status but the right one.
  predicate IsNoUse(response: Response, partial: Bytes) {
    || response.NoAnswer? || response.cut || response.status != (if partial == [] then 200 else 206)
    || (response.length.Some? && |Joined(response.body)| != response.length.value)
  }

  // What a host's answers make of a download on a disk that takes everything. A 200 to a request for a
  // range, broken off or not, has the file asked for again from its beginning.
  predicate ServedAsAsked(file: Bytes, partial: Bytes, first: nat -> Response, second: nat -> Response, done: bool) {
    var answer, retried := first(|partial|), partial != [] && first(|partial|).Answer? && first(|partial|).status == 200;
    && (!retried && IsTheRest(answer, file, partial) ==> done)
    && (!retried && IsNoUse(answer, partial) ==> !done)
    && (retried && IsTheRest(second(0), file, []) ==> done)
    && (retried && IsNoUse(second(0), []) ==> !done)
  }

  lemma FitsIfTheRest(response: Response, file: Bytes, partial: Bytes)
    ensures IsTheRest(response, file, partial) ==> Fits(response, |partial|)
    ensures IsNoUse(response, partial) ==> !Fits(response, |partial|)
    ensures AnswersInFull(response, |partial|) <==> partial != [] && response.Answer? && response.status == 200
  {
    if IsTheRest(response, file, partial) {
      assert |partial + Joined(response.body)| == |partial| + |Joined(response.body)|;
    }
  }

  // The body ends where the file does, or says how long it is.
  predicate LengthIsKnown(response: Response, file: Bytes, offset: nat) {
    response.Answer? ==> response.length.Some? || offset + |Joined(response.body)| == |file|
  }

  /**
   An accepted answer completes the file exactly if its length was announced or nothing is missing:
   a host that announces no length can pass a short body off as the whole.
   */
  lemma AcceptedIsWholeIffLengthKnown(response: Response, file: Bytes, offset: nat)
    requires offset <= |file| && Honest(response, file, offset)
    requires StatusFits(response, offset) && BodyAccepted(response)
    ensures file[..offset] + Joined(response.body) == file <==> LengthIsKnown(response, file, offset)
  {
    assert offset == 0 ==> file[..offset] + Joined(response.body) == Joined(response.body);
  }

  // What a fetch leaves the pool: each name as it was, or one of its own the whole file.
  ghost predicate PoolMoves(upstream: Upstream, d: Disk, e: Disk, k: Key) {
    forall q: Path :: q.Pool? ==> Read(e, q) == Read(d, q) || (q.key == k && Read(e, q) == Some(upstream(k)))
  }

  lemma StagingMovesNothing(before: Disk, upstream: Upstream, d: Disk, k: Key, bytes: Bytes)
    requires Kept(before, upstream, d)
    ensures PoolMoves(upstream, d, d, k)
    ensures PoolMoves(upstream, d, Opened(d, Part(k)), k)
    ensures PoolMoves(upstream, d, Appended(d, Part(k), bytes), k)
    ensures PoolMoves(upstream, d, Flushed(d, Part(k)), k)
    ensures PoolMoves(upstream, d, Removed(d, Part(k)), k)
    ensures PoolMoves(upstream, d, DirFlushed(d), k)
  {
    assert d.names in Versions(d);
    forall q: Path | q.Pool?
      ensures Read(Appended(d, Part(k), bytes), q) == Read(d, q)
    {
      AppendTouchesNothingElse(d, k, bytes, d.names, q);
    }
  }

  lemma MovesChain(upstream: Upstream, a: Disk, b: Disk, c: Disk, k: Key)
    requires PoolMoves(upstream, a, b, k) && PoolMoves(upstream, b, c, k)
    ensures PoolMoves(upstream, a, c, k)
  {
  }

  lemma RenameMoves(upstream: Upstream, d: Disk, from: Path, k: Key, leaf: string)
    requires !from.Pool? && Read(d, from) == Some(upstream(k))
    ensures PoolMoves(upstream, d, Renamed(d, from, Pool(k, leaf)), k)
  {
  }

  lemma PublishMoves(before: Disk, upstream: Upstream, d: Disk, k: Key, leaf: string)
    requires Kept(before, upstream, d) && PartIsWhole(d, k, upstream(k))
    ensures var e := Renamed(d, Part(k), Pool(k, leaf));
      Kept(before, upstream, e) && PoolMoves(upstream, d, e, k) && Read(e, Pool(k, leaf)) == Some(upstream(k))
  {
    PublishKeeps(before, upstream, d, k, leaf);
    GentleRename(before, upstream, d, Part(k), k, leaf);
    RenameMoves(upstream, d, Part(k), k, leaf);
    hide Kept, Gentle, PoolMoves;
  }

  lemma StagedLink(before: Disk, upstream: Upstream, d: Disk, held: Path, k: Key, nonce: nat)
    requires Kept(before, upstream, d) && held.Pool? && Read(d, held) == Some(upstream(k))
    requires PartIsWhole(d, k, upstream(k)) && Staged(nonce) !in d.names
    ensures var e := Linked(d, held, Staged(nonce));
      && Kept(before, upstream, e) && PoolMoves(upstream, d, e, k) && PartIsWhole(e, k, upstream(k))
      && Read(e, Staged(nonce)) == Some(upstream(k))
  {
    StageKeeps(before, upstream, d, held, nonce);
  }

  lemma UnstagedLink(before: Disk, upstream: Upstream, d: Disk, k: Key, nonce: nat)
    requires Kept(before, upstream, d) && PartIsWhole(d, k, upstream(k))
    ensures var e := Removed(d, Staged(nonce));
      Kept(before, upstream, e) && PoolMoves(upstream, d, e, k) && PartIsWhole(e, k, upstream(k))
  {
    RemoveKeeps(before, upstream, d, Staged(nonce));
  }

  lemma PlacedLink(before: Disk, upstream: Upstream, d: Disk, k: Key, leaf: string, nonce: nat)
    requires Kept(before, upstream, d) && PartIsWhole(d, k, upstream(k))
    requires Read(d, Staged(nonce)) == Some(upstream(k))
    ensures var e := Renamed(d, Staged(nonce), Pool(k, leaf));
      && Kept(before, upstream, e) && PoolMoves(upstream, d, e, k) && PartIsWhole(e, k, upstream(k))
      && Read(e, Pool(k, leaf)) == Some(upstream(k))
  {
    hide Kept, Gentle, PartIsWhole, PoolMoves;
    var e := Renamed(d, Staged(nonce), Pool(k, leaf));
    PlaceKeeps(before, upstream, d, nonce, k, leaf);
    GentleRename(before, upstream, d, Staged(nonce), k, leaf);
    PartStaysWhole(before, upstream, d, e, {Staged(nonce)}, k, upstream(k));
    RenameMoves(upstream, d, Staged(nonce), k, leaf);
  }

  lemma DirectoryFlush(before: Disk, upstream: Upstream, d: Disk, k: Key, q: Path)
    requires Kept(before, upstream, d)
    ensures var e := DirFlushed(d);
      && Kept(before, upstream, e) && PoolMoves(upstream, d, e, k)
      && (Read(d, q) == Some(upstream(k)) ==> AlwaysReads(e, q, upstream(k)))
      && (PartIsWhole(d, k, upstream(k)) ==> PartIsWhole(e, k, upstream(k)))
  {
    DirFlushKeeps(before, upstream, d);
    GentleDirFlush(before, upstream, d);
  }

  // Wherever linking over stops, the pool is kept and the part file is untouched.
  lemma LinkOverKeeps(before: Disk, upstream: Upstream, d: Disk, e: Disk, held: Path, k: Key, leaf: string, nonce: nat)
    requires Kept(before, upstream, d) && held.Pool? && Read(d, held) == Some(upstream(k))
    requires PartIsWhole(d, k, upstream(k))
    requires LinkOverLeaves(d, e, held, Pool(k, leaf), nonce)
    ensures Kept(before, upstream, e) && PoolMoves(upstream, d, e, k) && PartIsWhole(e, k, upstream(k))
    ensures e == LinkedOver(d, held, Pool(k, leaf), nonce) && Staged(nonce) !in d.names ==>
      AlwaysReads(e, Pool(k, leaf), upstream(k))
  {
    hide Kept, PoolMoves, PartIsWhole, AlwaysReads, Read, Linked, Renamed, Removed, DirFlushed;
    StagingMovesNothing(before, upstream, d, k, []);
    if Staged(nonce) !in d.names {
      var linked, placed := Linked(d, held, Staged(nonce)), Placed(d, held, Pool(k, leaf), nonce);
      StagedLink(before, upstream, d, held, k, nonce);
      UnstagedLink(before, upstream, linked, k, nonce);
      PlacedLink(before, upstream, linked, k, leaf, nonce);
      DirectoryFlush(before, upstream, placed, k, Pool(k, leaf));
      MovesChain(upstream, d, linked, Removed(linked, Staged(nonce)), k);
      MovesChain(upstream, d, linked, placed, k);
      MovesChain(upstream, d, placed, DirFlushed(placed), k);
    }
  }

  class Fetcher {
    const pool: Pool
    ghost const before: Disk
    ghost const upstream: Upstream

    constructor (pool: Pool, ghost before: Disk, ghost upstream: Upstream)
      ensures this.pool == pool && this.before == before && this.upstream == upstream
    {
      this.pool, this.before, this.upstream := pool, before, upstream;
    }

    ghost predicate Valid()
      reads this, pool
    {
      Kept(before, upstream, pool.d)
    }

    /** Streams an answer into the part file and the digest together. */
    method Receive(k: Key, response: Response, offset: nat, primed: Bytes) returns (outcome: Outcome, hashed: Bytes)
      requires Valid() && Read(pool.d, Part(k)) == Some(primed) && |primed| == offset
      requires Honest(response, upstream(k), offset)
      modifies pool
      ensures Valid() && PoolMoves(upstream, old(pool.d), pool.d, k)
      ensures outcome == RangeWasIgnored <==> response.Answer? && offset > 0 && response.status == OK
      ensures outcome == RangeWasIgnored ==> pool.d == old(pool.d)
      ensures outcome == Streamed ==>
        && StatusFits(response, offset) && BodyAccepted(response)
        && hashed == primed + Joined(response.body)
        && Read(pool.d, Part(k)) == Some(hashed)
      ensures old(pool.faults) == [] ==>
        && pool.faults == []
        && (outcome == Streamed <==> StatusFits(response, offset) && BodyAccepted(response))
    {
      hide Kept, PoolMoves, Honest;
      hashed := primed;
      StagingMovesNothing(before, upstream, pool.d, k, []);
      if response.NoAnswer? {
        return BrokenOff, hashed;
      }
      if offset > 0 && response.status == OK {
        return RangeWasIgnored, hashed;
      }
      if response.status != (if offset > 0 then PARTIAL_CONTENT else OK) {
        return BrokenOff, hashed;
      }
      PrimedIsPrefix(before, upstream, pool.d, k, primed);
      for i := 0 to |response.body|
        invariant Valid() && PoolMoves(upstream, old(pool.d), pool.d, k)
        invariant hashed == primed + Joined(response.body[..i])
        invariant Read(pool.d, Part(k)) == Some(hashed)
        invariant old(pool.faults) == [] ==> pool.faults == []
      {
        ChunkFits(response, upstream(k), offset, primed, i);
        ghost var d := pool.d;
        var ok, written := pool.Append(Part(k), response.body[i]);
        PrefixOfChunk(hashed, response.body[i], written, upstream(k));
        AppendKeeps(before, upstream, d, k, response.body[i][..written]);
        StagingMovesNothing(before, upstream, d, k, response.body[i][..written]);
        MovesChain(upstream, old(pool.d), d, pool.d, k);
        if !ok {
          return BrokenOff, hashed;
        }
        assert response.body[i][..written] == response.body[i];
        hashed := hashed + response.body[i];
      }
      assert response.body[..|response.body|] == response.body;
      outcome := if BodyAccepted(response) then Streamed else BrokenOff;
    }

    /** One attempt at the bytes: what survived is rehashed, the rest streamed, and all of it flushed. */
    method Stream(k: Key, host: nat -> Response) returns (outcome: Outcome, hashed: Bytes, filename: string)
      requires Valid() && HostIsSound(host, upstream(k))
      modifies pool
      ensures Valid() && PoolMoves(upstream, old(pool.d), pool.d, k)
      ensures outcome == Streamed ==> hashed == upstream(k) && PartIsWhole(pool.d, k, hashed)
      ensures var answer := host(|PartialOf(old(pool.d), k)|);
        && (outcome == Streamed ==> Fits(answer, |PartialOf(old(pool.d), k)|) && filename == answer.filename)
        && (outcome == RangeWasIgnored ==>
              AnswersInFull(answer, |PartialOf(old(pool.d), k)|) && Part(k) in pool.d.names)
        && (old(pool.faults) == [] ==>
              && pool.faults == []
              && (outcome == Streamed <==> Fits(answer, |PartialOf(old(pool.d), k)|))
              && (outcome == RangeWasIgnored <==> AnswersInFull(answer, |PartialOf(old(pool.d), k)|)))
    {
      hide Kept, PoolMoves, PartIsWhole;
      outcome, hashed, filename := BrokenOff, [], "";
      ghost var d0 := pool.d;
      StagingMovesNothing(before, upstream, d0, k, []);
      KeptIsWellFormed(before, upstream, d0);
      var reading := pool.ReadFile(Part(k));
      if reading.Unreadable? { return; }
      var primed := if reading.Contents? then reading.bytes else [];
      assert primed == PartialOf(d0, k);

      OpenKeeps(before, upstream, d0, k);
      OpenReads(d0, k);
      var ok := pool.Open(Part(k));
      if !ok { return; }
      ghost var d1 := pool.d;
      PrimedIsPrefix(before, upstream, d1, k, primed);
      var response := host(|primed|);
      outcome, hashed := Receive(k, response, |primed|, primed);
      ghost var d2 := pool.d;
      MovesChain(upstream, d0, d1, d2, k);
      if outcome != Streamed { return; }
      filename := response.filename;

      AcceptedIsWholeIffLengthKnown(response, upstream(k), |primed|);
      WholeAtLength(before, upstream, d2, k, hashed);
      FlushKeeps(before, upstream, d2, k);
      StagingMovesNothing(before, upstream, d2, k, []);
      MovesChain(upstream, d0, d2, Flushed(d2, Part(k)), k);
      ok := pool.Flush(Part(k));
      if !ok {
        outcome := BrokenOff;
      }
    }

    // Commits as a link to a held copy, if there is one that still hashes to its record.
    method CommitSharing(k: Key, hashed: Bytes, items: map<Key, Row>, leaf: string, nonce: nat) returns (shared: bool)
      requires Valid() && PathsAreTheirOwn(items)
      requires hashed == upstream(k) && PartIsWhole(pool.d, k, hashed)
      modifies pool
      ensures Valid() && PoolMoves(upstream, old(pool.d), pool.d, k)
      ensures shared ==> AlwaysReads(pool.d, Pool(k, leaf), upstream(k))
      ensures !shared ==> PartIsWhole(pool.d, k, hashed)
      ensures old(pool.faults) == [] ==>
        && pool.faults == []
        && (shared <==> CanShare(items, old(pool.d), k, hashed) && Staged(nonce) !in old(pool.d).names)
        && (shared ==> Part(k) !in pool.d.names)
    {
      hide Kept, PoolMoves, PartIsWhole, AlwaysReads, IsEarliest, HoldersOf;
      ghost var d0 := pool.d;
      StagingMovesNothing(before, upstream, d0, k, []);
      var held := HeldCopyOf(items, Sha256(hashed), k);
      SharesTheEarliest(items, d0, k, hashed, held);
      if held.None? || items[held.value].size != Some(|hashed|) {
        return false;
      }
      var row := items[held.value];
      var intact := pool.IsIntact(row.localPath.value, row.sha);
      if !intact {
        return false;
      }
      shared := pool.LinkOver(row.localPath.value, Pool(k, leaf), nonce);
      ghost var d1 := pool.d;
      LinkOverKeeps(before, upstream, d0, d1, row.localPath.value, k, leaf, nonce);
      if shared {
        RemoveKeeps(before, upstream, d1, Part(k));
        GentleRemove(before, upstream, d1, Part(k));
        GoodFilesStay(upstream, d1, Removed(d1, Part(k)), {Part(k)}, Pool(k, leaf));
        StagingMovesNothing(before, upstream, d1, k, []);
        MovesChain(upstream, d0, d1, Removed(d1, Part(k)), k);
        var _, _ := pool.Remove(Part(k));
      }
    }

    // Publishes the part file under its own name.
    method Commit(k: Key, leaf: string) returns (ok: bool)
      requires Valid() && PartIsWhole(pool.d, k, upstream(k))
      modifies pool
      ensures Valid() && PoolMoves(upstream, old(pool.d), pool.d, k)
      ensures ok ==> AlwaysReads(pool.d, Pool(k, leaf), upstream(k))
      ensures old(pool.faults) == [] ==> ok && pool.faults == []
    {
      hide Kept, PoolMoves, PartIsWhole, AlwaysReads;
      ghost var d0 := pool.d;
      StagingMovesNothing(before, upstream, d0, k, []);
      PublishMoves(before, upstream, d0, k, leaf);
      PartIsThere(d0, k, upstream(k));
      ok := pool.Rename(Part(k), Pool(k, leaf));
      if !ok { return; }
      ghost var d1 := pool.d;
      DirectoryFlush(before, upstream, d1, k, Pool(k, leaf));
      MovesChain(upstream, d0, d1, DirFlushed(d1), k);
      ok := pool.FlushDirectory();
    }

    /**
     The write protocol for one item. Wherever it stops, the pool is kept: each name reads as it did
     or, if it is one of the item's own, as the whole file. When it succeeds the file is there for
     good, and the size and digest it answers are the whole file's, resumed or not.
     */
    method Fetch(k: Key, listed: string, first: nat -> Response, second: nat -> Response,
                 items: map<Key, Row>, nonce: nat)
      returns (result: Option<Downloaded>)
      requires Valid() && PathsAreTheirOwn(items)
      requires HostIsSound(first, upstream(k)) && HostIsSound(second, upstream(k))
      modifies pool
      ensures Valid() && PoolMoves(upstream, old(pool.d), pool.d, k)
      ensures result.Some? ==>
        && result.value.path.Pool? && result.value.path.key == k
        && AlwaysReads(pool.d, result.value.path, upstream(k))
        && result.value.size == |upstream(k)|
        && result.value.sha == Sha256(upstream(k))
      ensures var offset := |PartialOf(old(pool.d), k)|;
        && (result.Some? ==>
              result.value.path ==
                Pool(k, NameFor(listed, if AnswersInFull(first(offset), offset) then second(0) else first(offset))))
        && (old(pool.faults) == [] ==>
              && pool.faults == []
              && (result.Some? <==>
                    Fits(first(offset), offset) || (AnswersInFull(first(offset), offset) && Fits(second(0), 0))))
      ensures old(pool.faults) == [] ==> ServedAsAsked(upstream(k), PartialOf(old(pool.d), k), first, second, result.Some?)
    {
      hide Kept, PoolMoves, PartIsWhole, AlwaysReads;
      ghost var d0 := pool.d;
      FitsIfTheRest(first(|PartialOf(pool.d, k)|), upstream(k), PartialOf(pool.d, k));
      FitsIfTheRest(second(0), upstream(k), []);
      result := None;
      var outcome, hashed, served := Stream(k, first);
      if outcome == RangeWasIgnored {
        ghost var d1 := pool.d;
        RemoveKeeps(before, upstream, d1, Part(k));
        StagingMovesNothing(before, upstream, d1, k, []);
        MovesChain(upstream, d0, d1, Removed(d1, Part(k)), k);
        var ok, _ := pool.Remove(Part(k));
        if !ok { return; }
        ghost var d2 := pool.d;
        assert PartialOf(d2, k) == [];
        outcome, hashed, served := Stream(k, second);
        MovesChain(upstream, d0, d2, pool.d, k);
      }
      if outcome != Streamed { return; }

      var leaf := if served != "" then served else listed;
      ghost var d3 := pool.d;
      var committed := CommitSharing(k, hashed, items, leaf, nonce);
      MovesChain(upstream, d0, d3, pool.d, k);
      if !committed {
        ghost var d4 := pool.d;
        committed := Commit(k, leaf);
        MovesChain(upstream, d0, d4, pool.d, k);
        if !committed { return; }
      }
      result := Some(Downloaded(Pool(k, leaf), |hashed|, Sha256(hashed)));
    }
  }

  lemma PartIsThere(d: Disk, k: Key, bytes: Bytes)
    requires PartIsWhole(d, k, bytes)
    ensures Part(k) in d.names
  {
  }

  // Whatever offset it is asked from, the host is honest and the end of the body can be told.
  ghost predicate HostIsSound(host: nat -> Response, file: Bytes) {
    forall offset: nat :: Honest(host(offset), file, offset) && LengthIsKnown(host(offset), file, offset)
  }

  lemma PrimedIsPrefix(before: Disk, upstream: Upstream, d: Disk, k: Key, primed: Bytes)
    requires Kept(before, upstream, d) && Read(d, Part(k)) == Some(primed)
    ensures IsPrefix(primed, upstream(k))
  {
    assert d.names in Versions(d);
  }

  lemma {:induction false} JoinedPrefix(chunks: seq<Bytes>, i: nat)
    requires i <= |chunks|
    ensures IsPrefix(Joined(chunks[..i]), Joined(chunks))
    decreases |chunks|
  {
    if i == |chunks| {
      assert chunks[..i] == chunks;
    } else {
      var front := chunks[..|chunks| - 1];
      JoinedPrefix(front, i);
      assert front[..i] == chunks[..i];
    }
  }

  lemma ChunkFits(response: Response, file: Bytes, offset: nat, primed: Bytes, i: nat)
    requires Honest(response, file, offset) && StatusFits(response, offset)
    requires IsPrefix(primed, file) && |primed| == offset && i < |response.body|
    ensures IsPrefix(primed + Joined(response.body[..i]) + response.body[i], file)
    ensures Joined(response.body[..i + 1]) == Joined(response.body[..i]) + response.body[i]
    ensures primed + Joined(response.body[..i + 1]) == primed + Joined(response.body[..i]) + response.body[i]
  {
    JoinedPrefix(response.body, i + 1);
    assert response.body[..i + 1][..i] == response.body[..i];
    assert primed == file[..offset];
  }

  lemma PrefixOfChunk(hashed: Bytes, chunk: Bytes, written: nat, file: Bytes)
    requires written <= |chunk| && IsPrefix(hashed + chunk, file)
    ensures IsPrefix(hashed + chunk[..written], file)
  {
    assert hashed + chunk[..written] == (hashed + chunk)[..|hashed| + written];
  }
}
