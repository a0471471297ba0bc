/**
 The verification sweep: every backed-up file re-read, an inode under several names only the first
 time. internal/syncer/verify.go.
 */
module Verify {
  import opened Basics
  import opened StoreState
  import opened StoreClass
  import opened FileSystem
  import opened PoolDisk

  datatype Fault = Missing | Corrupt | NotReadable

  datatype Problem = Problem(key: Key, fault: Fault)

  datatype Verification = Verification(checked: nat, intact: nat, unhashed: nat, problems: seq<Problem>)

  datatype Verdict = Intact | Unhashed | Faulty(fault: Fault)

  predicate HasAFile(items: map<Key, Row>, k: Key) {
    k in items && items[k].state == Done && items[k].localPath.Some?
  }

  // What reading this one file by its own name would say of it.
  function VerdictOf(items: map<Key, Row>, d: Disk, k: Key): Verdict
    requires HasAFile(items, k)
  {
    match Read(d, items[k].localPath.value)
    case None => Faulty(Missing)
    case Some(bytes) =>
      if items[k].sha.None? then Unhashed
      else if Sha256(bytes) != items[k].sha.value then Faulty(Corrupt)
      else Intact
  }

  // A sweep that reads every name of every file.
  function Swept(items: map<Key, Row>, d: Disk, keys: seq<Key>): Verification
    requires forall k :: k in keys ==> HasAFile(items, k)
  {
    if keys == [] then Verification(0, 0, 0, [])
    else
      var last := keys[|keys| - 1];
      Noted(Swept(items, d, keys[..|keys| - 1]), last, VerdictOf(items, d, last))
  }

  function Noted(v: Verification, k: Key, verdict: Verdict): Verification {
    match verdict
    case Intact => v.(checked := v.checked + 1, intact := v.intact + 1)
    case Unhashed => v.(checked := v.checked + 1, unhashed := v.unhashed + 1)
    case Faulty(fault) => v.(checked := v.checked + 1, problems := v.problems + [Problem(k, fault)])
  }

  // The digests taken so far are those of the files they are kept under.
  ghost predicate DigestsTrue(d: Disk, digests: map<nat, Digest>) {
    forall i :: i in digests ==> i in d.data && digests[i] == Sha256(d.data[i])
  }

  // Hashes the file of a name, unless the file has been hashed under another.
  method Hash(pool: Pool, p: Path, digests: map<nat, Digest>)
    returns (reading: Option<Digest>, missing: bool, now: map<nat, Digest>)
    requires DigestsTrue(pool.d, digests) && WellFormed(pool.d)
    modifies pool`faults
    ensures DigestsTrue(pool.d, now)
    ensures reading.Some? ==> Read(pool.d, p).Some? && reading.value == Sha256(Read(pool.d, p).value)
    ensures reading.None? && missing ==> Read(pool.d, p).None?
    ensures old(pool.faults) == [] ==>
      pool.faults == [] && (Read(pool.d, p).Some? <==> reading.Some?) && (reading.None? ==> missing)
  {
    reading, missing, now := None, false, digests;
    assert pool.d.names in Versions(pool.d);
    var stat := pool.StatFile(p);
    if stat.File? && stat.inode in digests {
      return Some(digests[stat.inode]), false, digests;
    }
    var contents := pool.ReadFile(p);
    match contents
    case NothingThere => missing := true;
    case Unreadable =>
    case Contents(bytes) =>
      reading := Some(Sha256(bytes));
      if stat.File? {
        now := digests[stat.inode := Sha256(bytes)];
      }
  }

  // The fault found in one file, if reading it and what was recorded of it disagree.
  function Judged(row: Row, reading: Option<Digest>, missing: bool): Verdict {
    if reading.None? then Faulty(if missing then Missing else NotReadable)
    else if row.sha.None? then Unhashed
    else if reading.value != row.sha.value then Faulty(Corrupt)
    else Intact
  }

  /**
   Sweeps the files of these rows. On a disk that answers it says exactly what re-reading every file
   by its own name would say; on any disk, a file it calls missing or corrupt is, and one it has
   nothing to say of reads as its record, if it has one.
   */
  method Sweep(pool: Pool, items: map<Key, Row>, keys: seq<Key>) returns (report: Verification)
    requires WellFormed(pool.d) && forall k :: k in keys ==> HasAFile(items, k)
    modifies pool`faults
    ensures old(pool.faults) == [] ==> report == Swept(items, pool.d, keys)
    ensures report.checked == |keys| == report.intact + report.unhashed + |report.problems|
    ensures forall p :: p in report.problems ==>
      p.key in keys && (p.fault.NotReadable? || VerdictOf(items, pool.d, p.key) == Faulty(p.fault))
    ensures forall k :: k in keys && (forall p :: p in report.problems ==> p.key != k) ==>
      ReadsAsRecorded(items, pool.d, k)
    ensures forall p :: p in report.problems ==>
      && (p.fault.Missing? ==> NothingToRead(items, pool.d, p.key))
      && (p.fault.Corrupt? ==> ReadsOtherwise(items, pool.d, p.key))
  {
    hide ReadsAsRecorded, NothingToRead, ReadsOtherwise;
    report := Verification(0, 0, 0, []);
    var digests: map<nat, Digest> := map[];
    for i := 0 to |keys|
      invariant DigestsTrue(pool.d, digests)
      invariant old(pool.faults) == [] ==> pool.faults == [] && report == Swept(items, pool.d, keys[..i])
      invariant report.checked == i == report.intact + report.unhashed + |report.problems|
      invariant forall p :: p in report.problems ==>
        p.key in keys && (p.fault.NotReadable? || VerdictOf(items, pool.d, p.key) == Faulty(p.fault))
      invariant forall k :: k in keys[..i] && VerdictOf(items, pool.d, k).Faulty? ==>
        exists p :: p in report.problems && p.key == k
    {
      assert keys[..i + 1] == keys[..i] + [keys[i]];
      assert keys[i] in keys;
      var row := items[keys[i]];
      var reading, missing;
      reading, missing, digests := Hash(pool, row.localPath.value, digests);
      var verdict := Judged(row, reading, missing);
      ghost var before := report;
      report := Noted(report, keys[i], verdict);
      assert verdict.Faulty? ==> Problem(keys[i], verdict.fault) in report.problems;
      forall k | k in keys[..i] && VerdictOf(items, pool.d, k).Faulty?
        ensures exists p :: p in report.problems && p.key == k
      {
        var p :| p in before.problems && p.key == k;
        assert p in report.problems;
      }
    }
    assert keys[..|keys|] == keys;
    forall k | k in keys
      ensures !VerdictOf(items, pool.d, k).Faulty? <==> ReadsAsRecorded(items, pool.d, k)
      ensures VerdictOf(items, pool.d, k) == Faulty(Missing) <==> NothingToRead(items, pool.d, k)
      ensures VerdictOf(items, pool.d, k) == Faulty(Corrupt) <==> ReadsOtherwise(items, pool.d, k)
    {
      VerdictInTheColumns(items, pool.d, k);
    }
  }

  // In the columns and the files: a file that reads as its hash or has none on record, one that is
  // not there, and one that reads as something else.
  predicate ReadsAsRecorded(items: map<Key, Row>, d: Disk, k: Key) {
    && k in items && items[k].localPath.Some? && items[k].localPath.value in d.names
    && d.names[items[k].localPath.value] in d.data
    && (items[k].sha.Some? ==> items[k].sha.value == Sha256(d.data[d.names[items[k].localPath.value]]))
  }

  predicate NothingToRead(items: map<Key, Row>, d: Disk, k: Key) {
    && k in items && items[k].localPath.Some?
    && (items[k].localPath.value !in d.names || d.names[items[k].localPath.value] !in d.data)
  }

  predicate ReadsOtherwise(items: map<Key, Row>, d: Disk, k: Key) {
    && k in items && items[k].localPath.Some? && items[k].localPath.value in d.names
    && d.names[items[k].localPath.value] in d.data
    && items[k].sha.Some? && items[k].sha.value != Sha256(d.data[d.names[items[k].localPath.value]])
  }

  lemma VerdictInTheColumns(items: map<Key, Row>, d: Disk, k: Key)
    requires HasAFile(items, k)
    ensures !VerdictOf(items, d, k).Faulty? <==> ReadsAsRecorded(items, d, k)
    ensures VerdictOf(items, d, k) == Faulty(Missing) <==> NothingToRead(items, d, k)
    ensures VerdictOf(items, d, k) == Faulty(Corrupt) <==> ReadsOtherwise(items, d, k)
  {
  }

  // How many of these fetching the file again could mend.
  function Mendable(problems: seq<Problem>): nat {
    if problems == [] then 0
    else Mendable(problems[..|problems| - 1]) + (if problems[|problems| - 1].fault.NotReadable? then 0 else 1)
  }

  predicate ToRequeue(problems: seq<Problem>, k: Key) {
    exists p | p in problems :: p.key == k && !p.fault.NotReadable?
  }

  // Back on the work list, unless it has been written off meanwhile.
  function Requeued(items: map<Key, Row>, problems: seq<Problem>): map<Key, Row> {
    map k | k in items ::
      if ToRequeue(problems, k) then items[k].(state := UnlessWrittenOff(items[k], Discovered)) else items[k]
  }

  lemma RequeuedNext(items: map<Key, Row>, problems: seq<Problem>, p: Problem)
    ensures Requeued(items, problems + [p]) ==
      if p.fault.NotReadable? || p.key !in items then Requeued(items, problems)
      else Requeued(items, problems)[p.key := items[p.key].(state := UnlessWrittenOff(items[p.key], Discovered))]
    ensures p.key in items ==> var row := Requeued(items, problems)[p.key];
      row.(state := UnlessWrittenOff(row, Discovered)) == items[p.key].(state := UnlessWrittenOff(items[p.key], Discovered))
  {
    forall k
      ensures ToRequeue(problems + [p], k) <==> ToRequeue(problems, k) || (p.key == k && !p.fault.NotReadable?)
    {
      assert forall q :: q in problems + [p] <==> q in problems || q == p;
    }
  }

  lemma NoneRequeued(items: map<Key, Row>)
    ensures Requeued(items, []) == items
  {
  }

  /**
   Puts the missing and corrupt files back on the work list, an unreadable one never. It stops at a
   row that is no longer there, having dealt with all the problems before it.
   */
  method RequeueFaulty(store: Store, problems: seq<Problem>) returns (requeued: nat, stoppedAt: Option<nat>)
    modifies store
    ensures store.links == old(store.links) && store.albums == old(store.albums)
    ensures store.selection == old(store.selection)
    ensures stoppedAt.None? ==> store.items == Requeued(old(store.items), problems)
    ensures stoppedAt.Some? ==>
      && stoppedAt.value < |problems| && problems[stoppedAt.value].key !in old(store.items)
      && store.items == Requeued(old(store.items), problems[..stoppedAt.value])
    ensures requeued == Mendable(if stoppedAt.Some? then problems[..stoppedAt.value] else problems)
    ensures (forall p :: p in problems ==> p.key in old(store.items)) ==> stoppedAt.None?
  {
    hide Requeued, ToRequeue;
    requeued := 0;
    assert problems[..0] == [];
    ghost var t := store.Contents();
    NoneRequeued(t.items);
    for i := 0 to |problems|
      invariant store.Contents() == t.(items := Requeued(t.items, problems[..i]))
      invariant store.items.Keys == t.items.Keys
      invariant requeued == Mendable(problems[..i])
    {
      assert problems[..i + 1] == problems[..i] + [problems[i]];
      RequeuedNext(t.items, problems[..i], problems[i]);
      if !problems[i].fault.NotReadable? {
        var found := store.SetItemState(problems[i].key, Discovered);
        if !found {
          return requeued, Some(i);
        }
        requeued := requeued + 1;
      }
    }
    assert problems[..|problems|] == problems;
    stoppedAt := None;
  }
}
