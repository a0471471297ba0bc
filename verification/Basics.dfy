/** What every other module names: keys, times, files' bytes and their digests. */
module Basics {

  datatype Option<+T> = None | Some(value: T)

  /** A media key, standing for its place in SQLite's text order. */
  type Key = nat

  /**
   A Go time.Time, in nanoseconds since Go's zero time. The zero time is how the source spells
   "no date", so it is an ordinary number here too and arithmetic can land on it.
   */
  type Time = int

  const HOUR: Time := 3_600_000_000_000

  predicate IsZero(t: Time) {
    t == 0
  }

  // A nullable timestamp column: the zero time is stored as NULL and read back from it.
  function NullableTime(t: Time): Option<Time> {
    if IsZero(t) then None else Some(t)
  }

  function ParseTime(stored: Option<Time>): Time {
    match stored
    case None => 0
    case Some(t) => t
  }

  newtype Byte = b: int | 0 <= b < 0x100

  type Bytes = seq<Byte>

  /** A SHA-256 digest. It carries what it is the digest of, which makes it injective. */
  datatype Digest = Sha256(of: Bytes)

  /**
   A name on the pool's filesystem. The three kinds of file live in disjoint places, and each
   names the media key it belongs to, so names made for distinct keys are distinct.
   */
  datatype Path =
    | Part(key: Key)                  // <staging>/<key>.part
    | Staged(nonce: nat)              // <staging>/<random>.link
    | Pool(key: Key, leaf: string)    // <pool>/<year>/<month>/<key>_<name>

  predicate IsPrefix<T(==)>(a: seq<T>, b: seq<T>) {
    |a| <= |b| && a == b[..|a|]
  }

  predicate Distinct<T(==)>(s: seq<T>) {
    forall i, j :: 0 <= i < j < |s| ==> s[i] != s[j]
  }

  function Elements<T>(s: seq<T>): set<T> {
    set x | x in s
  }

  lemma DistinctCount<T>(s: seq<T>)
    requires Distinct(s)
    ensures |Elements(s)| == |s|
  {
    if s != [] {
      var front, last := s[..|s| - 1], s[|s| - 1];
      DistinctCount(front);
      assert Elements(s) == Elements(front) + {last};
      assert last !in Elements(front);
    }
  }

  lemma SubsetCount<T>(a: set<T>, b: set<T>)
    requires a <= b
    ensures |a| <= |b|
    ensures |a| == |b| ==> a == b
  {
    assert b == a + (b - a);
  }
}
