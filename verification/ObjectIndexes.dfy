/** Entities shared by the cache components. */
module ObjectIndexes {

  datatype Option<+T> = None | Some(value: T)

  type Byte = b: int | 0 <= b < 256

  type Bytes = seq<Byte>

  /** The hash of an object, which is its identity in the lookup map and in the scheduler. */
  type ObjectID = nat

  /** One part of one object. Two values are equal exactly when their hashes are. */
  datatype ObjectIndex = ObjectIndex(id: ObjectID, part: nat)

  const UINT64 := 0x1_0000_0000_0000_0000

  const UINT32 := 0x1_0000_0000

  /** Conversion of an unsigned 64-bit value to the signed type of the same width. */
  function ToInt64(u: nat): (r: int)
    requires u < UINT64
    ensures (r - u) % UINT64 == 0
    ensures -(UINT64 / 2) <= r < UINT64 / 2
  {
    if u < UINT64 / 2 then u else u - UINT64
  }

  function Min(a: int, b: int): int { if a > b then b else a }

  function Max(a: int, b: int): int { if a > b then a else b }

  /** As many of the first elements as n says and s has. */
  function Take<T>(s: seq<T>, n: int): seq<T> { s[..Min(Max(n, 0), |s|)] }

  ghost predicate NoDup<T>(s: seq<T>) {
    forall i, j :: 0 <= i < j < |s| ==> s[i] != s[j]
  }

  /** The elements of s, as a set. */
  function Elements<T>(s: seq<T>): set<T> { set x | x in s }

  lemma NoDupCount<T>(s: seq<T>)
    requires NoDup(s)
    ensures |Elements(s)| == |s|
  {
    if s != [] {
      NoDupCount(s[1..]);
      assert Elements(s) == {s[0]} + Elements(s[1..]);
    }
  }
}
