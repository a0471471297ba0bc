/** The pool's disk, changed by one system call at a time, any of which may fail. */
module PoolDisk {
  import opened Basics
  import opened FileSystem

  // A call that fails leaves things as they were, but for a write, which may have written a part.
  // A crash is a run of failures with no success after it.
  datatype Fault = Works | Fails(written: nat)

  datatype Reading = Contents(bytes: Bytes) | NothingThere | Unreadable

  datatype Stat = File(inode: nat) | NoStat

  class Pool {
    var d: Disk
    var faults: seq<Fault>

    constructor (d: Disk, faults: seq<Fault>)
      ensures this.d == d && this.faults == faults
    {
      this.d, this.faults := d, faults;
    }

    method NextFault() returns (fault: Fault)
      modifies this`faults
      ensures old(faults) == [] ==> fault.Works? && faults == []
    {
      fault := if faults == [] then Works else faults[0];
      faults := if faults == [] then [] else faults[1..];
    }

    method Open(p: Path) returns (ok: bool)
      modifies this
      ensures old(faults) == [] ==> faults == [] && ok
      ensures d == if ok then Opened(old(d), p) else old(d)
    {
      var fault := NextFault();
      ok := fault.Works?;
      if ok { d := Opened(d, p); }
    }

    method Append(p: Path, bytes: Bytes) returns (ok: bool, written: nat)
      modifies this
      ensures written <= |bytes| && (ok ==> written == |bytes|)
      ensures old(faults) == [] ==> faults == [] && ok
      ensures d == Appended(old(d), p, bytes[..written])
    {
      var fault := NextFault();
      ok := fault.Works?;
      written := if ok || fault.written > |bytes| then |bytes| else fault.written;
      d := Appended(d, p, bytes[..written]);
    }

    method Flush(p: Path) returns (ok: bool)
      modifies this
      ensures old(faults) == [] ==> faults == [] && ok
      ensures d == if ok then Flushed(old(d), p) else old(d)
    {
      var fault := NextFault();
      ok := fault.Works?;
      if ok { d := Flushed(d, p); }
    }

    method Rename(from: Path, to: Path) returns (ok: bool)
      modifies this
      ensures ok ==> from in old(d).names
      ensures old(faults) == [] ==> faults == [] && (ok <==> from in old(d).names)
      ensures d == if ok then Renamed(old(d), from, to) else old(d)
    {
      var fault := NextFault();
      ok := fault.Works? && from in d.names;
      if ok { d := Renamed(d, from, to); }
    }

    method Link(held: Path, to: Path) returns (ok: bool)
      modifies this
      ensures ok ==> held in old(d).names && to !in old(d).names
      ensures old(faults) == [] ==> faults == [] && (ok <==> held in old(d).names && to !in old(d).names)
      ensures d == if ok then Linked(old(d), held, to) else old(d)
    {
      var fault := NextFault();
      ok := fault.Works? && held in d.names && to !in d.names;
      if ok { d := Linked(d, held, to); }
    }

    // Answers whether the name is gone, and whether it was already.
    method Remove(p: Path) returns (ok: bool, missing: bool)
      modifies this
      ensures old(faults) == [] ==> faults == [] && (ok <==> !missing)
      ensures missing ==> p !in old(d).names && !ok
      ensures ok ==> p in old(d).names
      ensures d == if ok then Removed(old(d), p) else old(d)
    {
      var fault := NextFault();
      missing := fault.Works? && p !in d.names;
      ok := fault.Works? && !missing;
      if ok { d := Removed(d, p); }
    }

    method FlushDirectory() returns (ok: bool)
      modifies this
      ensures old(faults) == [] ==> faults == [] && ok
      ensures d == if ok then DirFlushed(old(d)) else old(d)
    {
      var fault := NextFault();
      ok := fault.Works?;
      if ok { d := DirFlushed(d); }
    }

    method ReadFile(p: Path) returns (reading: Reading)
      modifies this`faults
      ensures old(faults) == [] ==> faults == [] && !reading.Unreadable?
      ensures reading.Contents? ==> Read(d, p) == Some(reading.bytes)
      ensures reading.NothingThere? ==> Read(d, p).None?
    {
      var fault := NextFault();
      if fault.Fails? {
        return Unreadable;
      }
      match Read(d, p)
      case Some(bytes) => return Contents(bytes);
      case None => return NothingThere;
    }

    method StatFile(p: Path) returns (stat: Stat)
      modifies this`faults
      ensures old(faults) == [] ==> faults == [] && (p in d.names ==> stat.File?)
      ensures stat.File? ==> p in d.names && d.names[p] == stat.inode
    {
      var fault := NextFault();
      stat := if fault.Works? && p in d.names then File(d.names[p]) else NoStat;
    }

    /** Reads a file anew and compares it with its record; a file without a hash on record never passes. */
    method IsIntact(p: Path, recorded: Option<Digest>) returns (intact: bool)
      modifies this`faults
      ensures intact ==> HashesTo(d, p, recorded)
      ensures old(faults) == [] ==> faults == [] && (intact <==> HashesTo(d, p, recorded))
    {
      if recorded.None? {
        return false;
      }
      var reading := ReadFile(p);
      intact := reading.Contents? && Sha256(reading.bytes) == recorded.value;
    }

    /**
     Links a held file under a staged name and renames the link over a path, so that both are one
     file. However it stops, the disk is one of five states, and only the last is success.
     */
    method LinkOver(held: Path, path: Path, nonce: nat) returns (ok: bool)
      modifies this
      ensures old(faults) == [] ==> faults == [] && (ok <==> held in old(d).names && Staged(nonce) !in old(d).names)
      ensures LinkOverLeaves(old(d), d, held, path, nonce)
      ensures ok ==> held in old(d).names && Staged(nonce) !in old(d).names && d == LinkedOver(old(d), held, path, nonce)
    {
      var staged := Staged(nonce);
      ok := Link(held, staged);
      if !ok { return; }
      ok := Rename(staged, path);
      if !ok {
        var _, _ := Remove(staged);
        return;
      }
      ok := FlushDirectory();
    }
  }

  // A recorded hash, and a file that still reads as it.
  predicate HashesTo(d: Disk, p: Path, recorded: Option<Digest>) {
    recorded.Some? && Read(d, p).Some? && Sha256(Read(d, p).value) == recorded.value
  }

  function Placed(d: Disk, held: Path, path: Path, nonce: nat): Disk {
    Renamed(Linked(d, held, Staged(nonce)), Staged(nonce), path)
  }

  function LinkedOver(d: Disk, held: Path, path: Path, nonce: nat): Disk {
    DirFlushed(Placed(d, held, path, nonce))
  }

  predicate LinkOverLeaves(d: Disk, e: Disk, held: Path, path: Path, nonce: nat) {
    || e == d
    || (&& held in d.names && Staged(nonce) !in d.names
        && (|| e == Linked(d, held, Staged(nonce))
            || e == Removed(Linked(d, held, Staged(nonce)), Staged(nonce))
            || e == Placed(d, held, path, nonce)
            || e == LinkedOver(d, held, path, nonce)))
  }
}
