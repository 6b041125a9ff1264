/** The weighted random balancer of upstream/balancing/weighted/random. */
module WeightedRandom {
  import opened ObjectIndexes
  import opened Arithmetic
  import opened Continuum
  import Sorting

  function Heaviest(u: Upstream): int { 0 - u.weight }

  /** i is the first bucket whose reached weight, in 32-bit arithmetic, is above the number. */
  ghost predicate Reaches(buckets: seq<Upstream>, chosen: u32, r: Option<nat>) {
    match r
    case None => forall k :: 0 <= k < |buckets| ==> chosen >= Reached(buckets, k)
    case Some(i) =>
      && i < |buckets| && chosen < Reached(buckets, i)
      && forall k :: 0 <= k < i ==> chosen >= Reached(buckets, k)
  }

  function Reached(buckets: seq<Upstream>, k: nat): u32
    requires k < |buckets|
  {
    TotalWeight(buckets[..k + 1]) % UINT32
  }

  /** The buckets are the slice that Set was given, which the caller also has. */
  class Random {
    var buckets: array<Upstream>
    var totalWeight: nat

    ghost predicate Valid()
      reads this, buckets
    {
      totalWeight == TotalWeight(buckets[..])
    }

    constructor ()
      ensures Valid() && buckets[..] == []
    {
      buckets, totalWeight := new Upstream[0], 0;
    }

    method Set(us: array<Upstream>)
      modifies this, us
      ensures Valid() && buckets == us
      ensures multiset(us[..]) == multiset(old(us[..])) && Sorting.SortedBy(us[..], Heaviest)
      ensures forall i, j :: 0 <= i < j < us.Length ==> us[i].weight >= us[j].weight
    {
      hide TotalWeight, Sorting.SortedBy;
      buckets := us;
      Sorting.SortInPlace(us, Heaviest);
      ghost var sorted := us[..];
      totalWeight := 0;
      SumNone(us[..]);
      for j := 0 to us.Length
        invariant buckets == us && us[..] == sorted && totalWeight == TotalWeight(us[..][..j])
      {
        SumNext(us[..], j);
        totalWeight := totalWeight + us[j].weight;
      }
      assert us[..][..us.Length] == us[..];
      HeaviestFirst(us[..]);
    }

    /** draw stands for the random number that the generator returns. */
    method Get(draw: nat) returns (r: Option<Upstream>)
      requires Valid() && (totalWeight > 0 ==> draw < totalWeight)
      ensures totalWeight == 0 ==> r == None
      ensures totalWeight > 0 ==> exists i: Option<nat> ::
                Reaches(buckets[..], draw % UINT32, i) && r == (if i.Some? then Some(buckets[i.value]) else None)
    {
      hide TotalWeight;
      if totalWeight <= 0 {
        return None;
      }
      var us := buckets[..];
      SumNone(us);
      var chosen := draw % UINT32;
      var reachedWeight: u32 := 0;
      for i := 0 to |us|
        invariant reachedWeight == TotalWeight(us[..i]) % UINT32
        invariant forall k :: 0 <= k < i ==> chosen >= Reached(us, k)
      {
        SumNext(us, i);
        reachedWeight := (reachedWeight + us[i].weight) % UINT32;
        if chosen < reachedWeight {
          assert Reaches(us, chosen, Some(i));
          return Some(us[i]);
        }
      }
      assert Reaches(us, chosen, None);
      return None;
    }
  }

  lemma HeaviestFirst(us: seq<Upstream>)
    requires Sorting.SortedBy(us, Heaviest)
    ensures forall i, j :: 0 <= i < j < |us| ==> us[i].weight >= us[j].weight
  {
    assert forall i, j :: 0 <= i < j < |us| ==> Heaviest(us[i]) <= Heaviest(us[j]);
  }

  lemma SumNone(buckets: seq<Upstream>)
    ensures TotalWeight(buckets[..0]) == 0
  {
  }

  lemma SumNext(buckets: seq<Upstream>, i: nat)
    requires i < |buckets|
    ensures TotalWeight(buckets[..i + 1]) == TotalWeight(buckets[..i]) + buckets[i].weight
    ensures TotalWeight(buckets[..i + 1]) % UINT32
         == (TotalWeight(buckets[..i]) % UINT32 + buckets[i].weight) % UINT32
  {
    assert buckets[..i + 1][..i] == buckets[..i];
  }

  lemma {:induction false} Grows(buckets: seq<Upstream>, i: nat, j: nat)
    requires i <= j <= |buckets|
    ensures TotalWeight(buckets[..i]) <= TotalWeight(buckets[..j])
  {
    if i < j {
      Grows(buckets, i, j - 1);
      assert buckets[..j][..j - 1] == buckets[..j - 1];
    }
  }

  lemma SmallReached(buckets: seq<Upstream>, k: nat)
    requires k < |buckets| && TotalWeight(buckets) < UINT32
    ensures Reached(buckets, k) == TotalWeight(buckets[..k + 1])
  {
    Grows(buckets, k + 1, |buckets|);
    assert buckets[..|buckets|] == buckets;
    SmallMod(TotalWeight(buckets[..k + 1]), UINT32);
  }

  /** Without wrapping, the numbers of a bucket form an interval as long as its weight. */
  lemma ReachesInterval(buckets: seq<Upstream>, chosen: u32, i: nat)
    requires i < |buckets| && TotalWeight(buckets) < UINT32
    ensures Reaches(buckets, chosen, Some(i))
       <==> TotalWeight(buckets[..i]) <= chosen < TotalWeight(buckets[..i]) + buckets[i].weight
  {
    hide TotalWeight, Reached;
    SumNext(buckets, i);
    SumNone(buckets);
    SmallReached(buckets, i);
    if i > 0 {
      SmallReached(buckets, i - 1);
    }
    EarlierReached(buckets, i);
  }

  lemma EarlierReached(buckets: seq<Upstream>, i: nat)
    requires i < |buckets| && TotalWeight(buckets) < UINT32
    ensures forall k :: 0 <= k < i ==> Reached(buckets, k) <= TotalWeight(buckets[..i])
  {
    hide TotalWeight, Reached;
    forall k | 0 <= k < i ensures Reached(buckets, k) <= TotalWeight(buckets[..i]) {
      SmallReached(buckets, k);
      Grows(buckets, k + 1, i);
    }
  }

  /** The draws that select bucket i. */
  ghost function DrawsFor(buckets: seq<Upstream>, i: nat): set<nat> {
    set d: nat | d < TotalWeight(buckets) && Reaches(buckets, d % UINT32, Some(i))
  }

  lemma {:induction false} IntervalSize(s: set<nat>, a: nat, b: nat)
    requires a <= b && forall d :: d in s <==> a <= d < b
    ensures |s| == b - a
  {
    if a == b {
      assert s == {};
    } else {
      IntervalSize(s - {b - 1}, a, b - 1);
    }
  }

  /** Each bucket is selected by exactly as many of the draws as its weight says, whatever order
      the buckets are in. */
  lemma ExactShare(buckets: seq<Upstream>, i: nat)
    requires i < |buckets| && TotalWeight(buckets) < UINT32
    ensures |DrawsFor(buckets, i)| == buckets[i].weight
  {
    var a := TotalWeight(buckets[..i]);
    var b := a + buckets[i].weight;
    assert buckets[..i + 1][..i] == buckets[..i];
    Grows(buckets, i + 1, |buckets|);
    assert buckets[..|buckets|] == buckets;
    forall d: nat ensures d in DrawsFor(buckets, i) <==> a <= d < b {
      if d < TotalWeight(buckets) {
        SmallMod(d, UINT32);
        ReachesInterval(buckets, d, i);
      }
    }
    IntervalSize(DrawsFor(buckets, i), a, b);
  }

  /** Some draw fails to select an upstream exactly when the weights add up to 2^32 or more. */
  lemma AlwaysSelects(buckets: seq<Upstream>)
    requires TotalWeight(buckets) > 0
    ensures (forall d: nat :: d < TotalWeight(buckets) ==> !Reaches(buckets, d % UINT32, None))
       <==> TotalWeight(buckets) < UINT32
  {
    if TotalWeight(buckets) < UINT32 {
      var last := |buckets| - 1;
      SmallReached(buckets, last);
      assert buckets[..last + 1] == buckets;
      forall d: nat | d < TotalWeight(buckets) ensures !Reaches(buckets, d % UINT32, None) {
        SmallMod(d, UINT32);
      }
    } else {
      var d := UINT32 - 1;
      SmallMod(d, UINT32);
      assert Reaches(buckets, d % UINT32, None);
    }
  }
}
