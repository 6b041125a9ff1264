/** The reference model of the tiered LRU: one ranked list, best object first, and the
    number of its elements that each of the four tiers holds. Every operation of the
    cache is one small edit of that list. */
module Ranked {
  import opened ObjectIndexes
  import opened Arithmetic

  const TIERS: nat := 4

  datatype Ranking = Ranking(list: seq<ObjectIndex>, sizes: seq<nat>) {
    /** The sizes cut the list into four consecutive tiers. */
    predicate Shaped() {
      |sizes| == TIERS && Begin(sizes, TIERS) == |list|
    }

    ghost predicate Valid() {
      Shaped() && NoDup(list)
    }
  }

  /** The position in the ranked list at which tier t begins. */
  function Begin(sizes: seq<nat>, t: nat): nat
    requires t <= |sizes|
  {
    if t == 0 then 0 else Begin(sizes, t - 1) + sizes[t - 1]
  }

  /** The most that tier t may hold. AddObject pushes to the last tier without looking
      when the tier size is 0, so that tier can always reach one element. */
  function Limit(size: nat, t: nat): nat {
    if t == TIERS - 1 && size == 0 then 1 else size
  }

  ghost predicate Fits(sizes: seq<nat>, size: nat) {
    |sizes| == TIERS && forall t :: 0 <= t < TIERS ==> sizes[t] <= Limit(size, t)
  }

  function InsertAt<T>(s: seq<T>, i: nat, x: T): (r: seq<T>)
    requires i <= |s|
    ensures |r| == |s| + 1
  {
    s[..i] + [x] + s[i..]
  }

  function RemoveAt<T>(s: seq<T>, i: nat): (r: seq<T>)
    requires i < |s|
    ensures |r| == |s| - 1
  {
    s[..i] + s[i + 1..]
  }

  function IndexOf<T(==)>(s: seq<T>, x: T): (i: nat)
    requires x in s
    ensures i < |s| && s[i] == x
  {
    if s[0] == x then 0 else 1 + IndexOf(s[1..], x)
  }

  /** The lowest-ranked tier above tier i that has room, or -1. */
  function FreeTier(sizes: seq<nat>, size: nat, i: nat): (f: int)
    requires i <= |sizes|
    ensures -1 <= f < i
    ensures f >= 0 ==> sizes[f] < size
    ensures forall t :: f < t < i ==> sizes[t] >= size
  {
    if i == 0 then -1 else if sizes[i - 1] < size then i - 1 else FreeTier(sizes, size, i - 1)
  }

  /** All four tiers are full. */
  predicate Full(c: Ranking, size: nat)
    requires c.Shaped()
  {
    c.sizes[3] >= size && FreeTier(c.sizes, size, 3) == -1
  }

  /** What AddObject drops to make room for a new object. */
  function Evicted(c: Ranking, size: nat): (e: seq<ObjectIndex>)
    requires c.Shaped()
  {
    if Full(c, size) && c.sizes[3] > 0 then c.list[|c.list| - 1..] else []
  }

  /** Making room in a last list that is full: either the tiers above take one object each
      and the ranked list stays as it is, or the worst object goes. */
  function Freed(c: Ranking, size: nat): Ranking
    requires c.Shaped()
  {
    var f := FreeTier(c.sizes, size, 3);
    if c.sizes[3] == 0 then c
    else if f >= 0 then Ranking(c.list, c.sizes[3 := c.sizes[3] - 1][f := c.sizes[f] + 1])
    else Ranking(c.list[..|c.list| - 1], c.sizes[3 := c.sizes[3] - 1])
  }

  lemma EvictedOnlyWhenFull(c: Ranking, size: nat)
    requires c.Shaped()
    ensures c.sizes[3] < size ==> Elements(Evicted(c, size)) == {}
  {
  }

  /** A new object enters at the head of the last tier; the last tier's old head stays in
      front of it when the tiers above gave it room. */
  function Added(c: Ranking, size: nat, x: ObjectIndex): Ranking
    requires c.Shaped() && x !in c.list
  {
    var n := |c.list|;
    if c.sizes[3] < size || c.sizes[3] == 0 then
      Ranking(InsertAt(c.list, n - c.sizes[3], x), c.sizes[3 := c.sizes[3] + 1])
    else
      var f := FreeTier(c.sizes, size, 3);
      if f >= 0 then
        Ranking(InsertAt(c.list, n - c.sizes[3] + 1, x), c.sizes[f := c.sizes[f] + 1])
      else
        Ranking(InsertAt(c.list[..n - 1], n - c.sizes[3], x), c.sizes)
  }

  /** Making room first and then pushing to the front of the last tier adds the object. */
  lemma FreeThenPush(c: Ranking, size: nat, x: ObjectIndex)
    requires c.Shaped() && x !in c.list
    ensures var d := if c.sizes[3] >= size then Freed(c, size) else c;
            |d.sizes| == TIERS && |d.list| >= d.sizes[3]
            && Added(c, size, x) == Ranking(InsertAt(d.list, |d.list| - d.sizes[3], x), d.sizes[3 := d.sizes[3] + 1])
  {
    var f := FreeTier(c.sizes, size, 3);
    assert c.sizes[3] > 0 && f < 0 ==> c.sizes[3 := c.sizes[3] - 1][3 := c.sizes[3]] == c.sizes;
    assert c.sizes[3] > 0 && f >= 0 ==> c.sizes[3 := c.sizes[3] - 1][f := c.sizes[f] + 1][3 := c.sizes[3]]
                                        == c.sizes[f := c.sizes[f] + 1];
  }

  /** The tier that position i of the list belongs to. */
  function TierAt(sizes: seq<nat>, i: nat): (t: nat)
    requires i < Begin(sizes, |sizes|)
    ensures t < |sizes| && Begin(sizes, t) <= i < Begin(sizes, t + 1)
    decreases |sizes|
  {
    var last := |sizes| - 1;
    BeginPrefix(sizes, last, last);
    if i >= Begin(sizes, last) then last
    else
      var t := TierAt(sizes[..last], i);
      BeginPrefix(sizes, last, t);
      BeginPrefix(sizes, last, t + 1);
      t
  }

  lemma BeginPrefix(sizes: seq<nat>, n: nat, t: nat)
    requires t <= n <= |sizes|
    ensures Begin(sizes[..n], t) == Begin(sizes, t)
  {
    if t > 0 { BeginPrefix(sizes, n, t - 1); }
  }

  /** Tiers do not overlap in the ranked list. */
  lemma TierAtUnique(sizes: seq<nat>, t: nat, p: nat)
    requires t < |sizes| && Begin(sizes, t) <= p < Begin(sizes, t + 1)
    ensures p < Begin(sizes, |sizes|) && TierAt(sizes, p) == t
  {
    BeginMonotone(sizes, t + 1, |sizes|);
    var u := TierAt(sizes, p);
    if u < t { BeginMonotone(sizes, u + 1, t); }
    if t < u { BeginMonotone(sizes, t + 1, u); }
  }

  lemma BeginMonotone(sizes: seq<nat>, t: nat, u: nat)
    requires t <= u <= |sizes|
    ensures Begin(sizes, t) <= Begin(sizes, u)
  {
    if t < u { BeginMonotone(sizes, t, u - 1); }
  }

  /** A cached object moves to where the tier above its own begins, or to the head. */
  function Promoted(c: Ranking, size: nat, x: ObjectIndex): Ranking
    requires c.Shaped() && x in c.list
  {
    var i := IndexOf(c.list, x);
    var t := TierAt(c.sizes, i);
    if t == 0 then
      Ranking([x] + RemoveAt(c.list, i), c.sizes)
    else
      assert Begin(c.sizes, t) == Begin(c.sizes, t - 1) + c.sizes[t - 1];
      assert Begin(c.sizes, t + 1) == Begin(c.sizes, t) + c.sizes[t];
      Ranking(InsertAt(RemoveAt(c.list, i), Begin(c.sizes, t - 1), x),
              if c.sizes[t - 1] < size
              then c.sizes[t - 1 := c.sizes[t - 1] + 1][t := c.sizes[t] - 1]
              else c.sizes)
  }

  function Removed(c: Ranking, x: ObjectIndex): Ranking
    requires c.Shaped()
  {
    if x !in c.list then c
    else
      var i := IndexOf(c.list, x);
      var t := TierAt(c.sizes, i);
      assert Begin(c.sizes, t + 1) == Begin(c.sizes, t) + c.sizes[t];
      Ranking(RemoveAt(c.list, i), c.sizes[t := c.sizes[t] - 1])
  }

  /** How many of the best objects the first t tiers keep when every tier is cut to the
      given size and objects that do not fit spill into the tier below. */
  function Kept(sizes: seq<nat>, size: nat, t: nat): nat
    requires t <= |sizes|
  {
    if t == 0 then 0 else Min(Begin(sizes, t), Kept(sizes, size, t - 1) + size)
  }

  lemma KeptBounds(sizes: seq<nat>, size: nat, t: nat)
    requires t < |sizes|
    ensures Kept(sizes, size, t) <= Begin(sizes, t)
    ensures Kept(sizes, size, t) <= Kept(sizes, size, t + 1)
    ensures Kept(sizes, size, t + 1) <= Begin(sizes, t + 1)
    ensures Kept(sizes, size, t + 1) <= Kept(sizes, size, t) + size
  {
    if t > 0 { KeptBounds(sizes, size, t - 1); }
  }

  /** Shrinking keeps a prefix of the ranked list. */
  function Shrunk(c: Ranking, size: nat): Ranking
    requires c.Shaped()
  {
    KeptBounds(c.sizes, size, TIERS - 1);
    Ranking(c.list[..Kept(c.sizes, size, TIERS)],
            seq(TIERS, t requires 0 <= t < TIERS =>
              KeptBounds(c.sizes, size, t);
              Kept(c.sizes, size, t + 1) - Kept(c.sizes, size, t)))
  }

  function Resized(c: Ranking, oldSize: nat, newSize: nat): Ranking
    requires c.Shaped()
  {
    if oldSize > newSize then Shrunk(c, newSize) else c
  }

  /** The last n elements, last first. */
  function Backwards<T>(s: seq<T>, n: nat): (r: seq<T>)
    requires n <= |s|
    ensures |r| == n
  {
    seq(n, j requires 0 <= j < n => s[|s| - 1 - j])
  }

  lemma BackwardsSplit<T>(s: seq<T>, m: nat, n: nat)
    requires m + n <= |s|
    ensures Backwards(s, m + n) == Backwards(s, m) + Backwards(s[..|s| - m], n)
  {
  }

  function RemovedAll(c: Ranking, ois: seq<ObjectIndex>): (r: Ranking)
    requires c.Shaped()
    ensures r.Shaped()
    decreases |ois|
  {
    if ois == [] then c
    else
      var d := RemovedAll(c, ois[..|ois| - 1]);
      RemovedShaped(d, ois[|ois| - 1]);
      Removed(d, ois[|ois| - 1])
  }

  /** Changing the size of one tier moves the beginnings of all the tiers below it. */
  lemma BeginUpdate(sizes: seq<nat>, t: nat, m: nat, u: nat)
    requires t < |sizes| && u <= |sizes|
    ensures Begin(sizes[t := m], u) == Begin(sizes, u) + if u > t then m - sizes[t] else 0
  {
    if u > 0 { BeginUpdate(sizes, t, m, u - 1); }
  }

  lemma RemovedShaped(c: Ranking, x: ObjectIndex)
    requires c.Shaped()
    ensures Removed(c, x).Shaped()
  {
    if x in c.list {
      var t := TierAt(c.sizes, IndexOf(c.list, x));
      assert Begin(c.sizes, t + 1) == Begin(c.sizes, t) + c.sizes[t];
      BeginUpdate(c.sizes, t, c.sizes[t] - 1, TIERS);
    }
  }

  /** The sizes follow from where the tiers begin. */
  lemma BeginDetermines(a: seq<nat>, b: seq<nat>)
    requires |a| == |b| && forall t :: 0 <= t <= |a| ==> Begin(a, t) == Begin(b, t)
    ensures a == b
  {
    forall t | 0 <= t < |a| ensures a[t] == b[t] {
      assert Begin(a, t + 1) == Begin(a, t) + a[t] && Begin(b, t + 1) == Begin(b, t) + b[t];
    }
  }

  lemma ShrunkBegin(c: Ranking, size: nat, t: nat)
    requires c.Shaped() && t <= TIERS
    ensures Begin(Shrunk(c, size).sizes, t) == Kept(c.sizes, size, t)
  {
    if t > 0 {
      ShrunkBegin(c, size, t - 1);
      KeptBounds(c.sizes, size, t - 1);
    }
  }

  /** Dropping the back of the list first does not change what shrinking keeps, as long
      as no more is dropped than the new size allows. */
  lemma KeptOfCut(sizes: seq<nat>, cut: seq<nat>, n: nat, size: nat, t: nat)
    requires |sizes| == |cut| && t <= |sizes| && |sizes| * size <= n
    requires forall u :: 0 <= u <= |sizes| ==> Begin(cut, u) == Min(Begin(sizes, u), n)
    ensures Kept(cut, size, t) == Kept(sizes, size, t) <= t * size
  {
    if t > 0 {
      KeptOfCut(sizes, cut, n, size, t - 1);
      assert t * size == (t - 1) * size + size;
      assert t * size <= |sizes| * size by { MulMono(t, |sizes|, size); }
    }
  }

  /** The first i tiers were cut to size, what did not fit is in the tier below. */
  ghost predicate Spilled(was: seq<nat>, now: seq<nat>, size: nat, i: nat)
    requires |was| == |now| && i <= |was|
  {
    && (forall u :: 0 <= u <= i ==> Begin(now, u) == Kept(was, size, u))
    && (forall u :: i < u <= |was| ==> Begin(now, u) == Begin(was, u))
  }

  /** What exceeds the size in tier i goes to tier i + 1. */
  function SpillSizes(sizes: seq<nat>, i: nat, m: nat): (r: seq<nat>)
    requires i + 1 < |sizes| && m <= sizes[i]
    ensures |r| == |sizes|
  {
    sizes[i := sizes[i] - m][i + 1 := sizes[i + 1] + m]
  }

  lemma SpillMore(was: seq<nat>, sizes: seq<nat>, size: nat, i: nat)
    requires |was| == |sizes| && i + 1 < |sizes| && Spilled(was, sizes, size, i)
    ensures Spilled(was, SpillSizes(sizes, i, Max(sizes[i] - size, 0)), size, i + 1)
  {
    var m := Max(sizes[i] - size, 0);
    var now := SpillSizes(sizes, i, m);
    assert Begin(sizes, i + 1) == Begin(sizes, i) + sizes[i];
    forall u | 0 <= u <= |sizes| ensures Begin(now, u) == Begin(sizes, u) - if u == i + 1 then m else 0 {
      BeginUpdate(sizes, i, sizes[i] - m, u);
      BeginUpdate(sizes[i := sizes[i] - m], i + 1, sizes[i + 1] + m, u);
    }
    KeptBounds(was, size, i);
  }

  /** Cutting the list, spilling the first three tiers and trimming the last one leaves
      exactly the shrunk ranking. */
  lemma ShrinkSteps(c: Ranking, mid: Ranking, end: Ranking, n: nat, size: nat)
    requires c.Shaped() && mid.Shaped() && end.Shaped() && n <= |c.list|
    requires n == |c.list| || TIERS * size <= n
    requires forall u :: 0 <= u <= TIERS ==> Begin(mid.sizes, u) <= Begin(c.sizes, u)
    requires c.list[..n] == mid.list
    requires |end.list| <= |mid.list| && end.list == mid.list[..|end.list|]
    requires forall u :: 0 <= u < TIERS ==> Begin(end.sizes, u) == Kept(c.sizes, size, u)
    requires |end.list| == Min(n, Kept(c.sizes, size, 3) + size)
    ensures end == Shrunk(c, size)
  {
    KeptBounds(c.sizes, size, 3);
    KeptAtMost(c.sizes, size, TIERS);
    forall u | 0 <= u <= TIERS ensures Begin(end.sizes, u) == Begin(Shrunk(c, size).sizes, u) {
      ShrunkBegin(c, size, u);
    }
    BeginDetermines(end.sizes, Shrunk(c, size).sizes);
  }

  lemma KeptAtMost(sizes: seq<nat>, size: nat, t: nat)
    requires t <= |sizes|
    ensures Kept(sizes, size, t) <= t * size
  {
    if t > 0 { KeptAtMost(sizes, size, t - 1); assert t * size == (t - 1) * size + size; }
  }

  /** What shrinking drops, worst object first. */
  function Dropped(c: Ranking, size: nat): seq<ObjectIndex>
    requires c.Shaped()
  {
    KeptBounds(c.sizes, size, TIERS - 1);
    Backwards(c.list, |c.list| - Kept(c.sizes, size, TIERS))
  }

  lemma BoundedCount(sizes: seq<nat>, size: nat)
    requires Fits(sizes, size)
    ensures Begin(sizes, TIERS) <= Max(TIERS * size, 1)
  {
    assert Begin(sizes, TIERS) == sizes[0] + sizes[1] + sizes[2] + sizes[3] by {
      assert Begin(sizes, 1) == sizes[0] && Begin(sizes, 2) == sizes[0] + sizes[1];
    }
  }

  lemma ShrunkFits(c: Ranking, size: nat)
    requires c.Shaped()
    ensures Fits(Shrunk(c, size).sizes, size)
  {
    forall t: nat | t < TIERS ensures Shrunk(c, size).sizes[t] <= size {
      KeptBounds(c.sizes, size, t);
    }
  }

  lemma FitsMore(sizes: seq<nat>, size: nat, more: nat)
    requires Fits(sizes, size) && size <= more
    ensures Fits(sizes, more)
  {
  }

  lemma AddedFits(c: Ranking, size: nat, x: ObjectIndex)
    requires c.Shaped() && x !in c.list && Fits(c.sizes, size)
    ensures Fits(Added(c, size, x).sizes, size)
  {
  }

  lemma PromotedFits(c: Ranking, size: nat, x: ObjectIndex)
    requires c.Shaped() && x in c.list && Fits(c.sizes, size)
    ensures Fits(Promoted(c, size, x).sizes, size)
  {
  }

  lemma RemovedFits(c: Ranking, x: ObjectIndex, size: nat)
    requires c.Shaped() && Fits(c.sizes, size)
    ensures Fits(Removed(c, x).sizes, size)
  {
  }

  lemma {:induction false} RemovedAllFits(c: Ranking, ois: seq<ObjectIndex>, size: nat)
    requires c.Shaped() && Fits(c.sizes, size)
    ensures Fits(RemovedAll(c, ois).sizes, size)
    decreases |ois|
  {
    if ois != [] {
      RemovedAllFits(c, ois[..|ois| - 1], size);
      RemovedFits(RemovedAll(c, ois[..|ois| - 1]), ois[|ois| - 1], size);
    }
  }
}
