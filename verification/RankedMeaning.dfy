/** What the operations of the ranked list mean for the objects in it. */
module RankedMeaning {
  import opened ObjectIndexes
  import opened Ranked

  /** The list without x. */
  function Others(s: seq<ObjectIndex>, x: ObjectIndex): seq<ObjectIndex> {
    if s == [] then [] else (if s[0] == x then [] else [s[0]]) + Others(s[1..], x)
  }

  lemma {:induction false} OthersConcat(a: seq<ObjectIndex>, b: seq<ObjectIndex>, x: ObjectIndex)
    ensures Others(a + b, x) == Others(a, x) + Others(b, x)
  {
    if a == [] {
      assert a + b == b;
    } else {
      assert (a + b)[1..] == a[1..] + b;
      OthersConcat(a[1..], b, x);
    }
  }

  lemma {:induction false} OthersAll(s: seq<ObjectIndex>, x: ObjectIndex)
    requires x !in s
    ensures Others(s, x) == s
  {
    if s != [] { OthersAll(s[1..], x); }
  }

  lemma OthersInsert(s: seq<ObjectIndex>, i: nat, x: ObjectIndex)
    requires i <= |s|
    ensures Others(InsertAt(s, i, x), x) == Others(s, x)
  {
    OthersConcat(s[..i] + [x], s[i..], x);
    OthersConcat(s[..i], [x], x);
    OthersConcat(s[..i], s[i..], x);
    assert s == s[..i] + s[i..];
    assert Others([x], x) == [];
  }

  lemma OthersRemove(s: seq<ObjectIndex>, i: nat, x: ObjectIndex)
    requires i < |s| && s[i] == x
    ensures Others(RemoveAt(s, i), x) == Others(s, x)
  {
    OthersConcat(s[..i], s[i + 1..], x);
    OthersConcat(s[..i], [x] + s[i + 1..], x);
    OthersConcat([x], s[i + 1..], x);
    assert s == s[..i] + ([x] + s[i + 1..]);
    assert Others([x], x) == [];
  }

  /** AddObject inserts the new object and nothing else: all cached objects keep their
      order, and the worst of them goes exactly when all four tiers are full. */
  lemma AddKeepsOrder(c: Ranking, size: nat, x: ObjectIndex)
    requires c.Valid() && x !in c.list
    ensures Added(c, size, x).Valid()
    ensures x in Added(c, size, x).list
    ensures Others(Added(c, size, x).list, x) + Evicted(c, size) == c.list
    ensures Evicted(c, size) != [] <==> c.sizes[3] > 0 && forall t :: 0 <= t < 4 ==> c.sizes[t] >= size
  {
    hide InsertAt, Added, Evicted, Others, NoDup;
    EvictedIff(c, size);
    var d, i := AddedEdit(c, size, x);
    OthersInsert(d, i, x);
    OthersAll(d, x);
    PrefixNoDup(c.list, d);
    InsertNoDup(d, i, x);
    AddedShaped(c, size, x);
  }

  /** There is room in the last tier, or it is empty: the new object goes to the head of it. */
  lemma AddWithRoom(c: Ranking, size: nat, x: ObjectIndex)
    requires c.Valid() && x !in c.list && (c.sizes[3] < size || c.sizes[3] == 0)
    ensures var p, at := Added(c, size, x), Begin(c.sizes, 3);
            && p.sizes == c.sizes[3 := c.sizes[3] + 1]
            && |p.list| == |c.list| + 1 && at < |p.list| && p.list[at] == x
  {
    BeginNext(c.sizes, 3);
    hide Begin, FreeTier;
  }

  /** The last tier is full, and f is the lowest tier above it that has room: that tier grows by one,
      and one object of the last tier stays in front of the new one. */
  lemma AddCascades(c: Ranking, size: nat, x: ObjectIndex, f: nat)
    requires c.Valid() && x !in c.list && c.sizes[3] >= size && c.sizes[3] > 0
    requires f < 3 && c.sizes[f] < size && forall t :: f < t < 3 ==> c.sizes[t] >= size
    ensures var p, at := Added(c, size, x), Begin(c.sizes, 3);
            && p.sizes == c.sizes[f := c.sizes[f] + 1]
            && |p.list| == |c.list| + 1 && at + 1 < |p.list| && p.list[at + 1] == x
  {
    BeginNext(c.sizes, 3);
    assert FreeTier(c.sizes, size, 3) == f;
    hide Begin, FreeTier;
  }

  /** All four tiers are full: the new object takes a place in the last one. */
  lemma AddEvicts(c: Ranking, size: nat, x: ObjectIndex)
    requires c.Valid() && x !in c.list && c.sizes[3] > 0 && forall t :: 0 <= t < 4 ==> c.sizes[t] >= size
    ensures var p, at := Added(c, size, x), Begin(c.sizes, 3);
            && p.sizes == c.sizes && |p.list| == |c.list| && at < |p.list| && p.list[at] == x
            && Evicted(c, size) == [c.list[|c.list| - 1]]
  {
    BeginNext(c.sizes, 3);
    assert FreeTier(c.sizes, size, 3) == -1;
    hide Begin, FreeTier;
  }

  lemma EvictedIff(c: Ranking, size: nat)
    requires c.Shaped()
    ensures Evicted(c, size) != [] <==> c.sizes[3] > 0 && forall t :: 0 <= t < 4 ==> c.sizes[t] >= size
  {
    var f := FreeTier(c.sizes, size, 3);
    assert Begin(c.sizes, 4) == Begin(c.sizes, 3) + c.sizes[3];
  }

  /** AddObject as one edit of what stays. */
  lemma AddedEdit(c: Ranking, size: nat, x: ObjectIndex) returns (d: seq<ObjectIndex>, i: nat)
    requires c.Shaped() && x !in c.list
    ensures i <= |d| && d <= c.list && Added(c, size, x).list == InsertAt(d, i, x)
    ensures d + Evicted(c, size) == c.list
  {
    d := if Full(c, size) && c.sizes[3] > 0 then c.list[..|c.list| - 1] else c.list;
    i := |c.list| - c.sizes[3] + if c.sizes[3] >= size && c.sizes[3] > 0 && !Full(c, size) then 1 else 0;
  }

  lemma PrefixNoDup(s: seq<ObjectIndex>, d: seq<ObjectIndex>)
    requires NoDup(s) && d <= s
    ensures NoDup(d)
    ensures forall x :: x in d ==> x in s
  {
  }

  lemma InsertNoDup(s: seq<ObjectIndex>, i: nat, x: ObjectIndex)
    requires i <= |s| && NoDup(s) && x !in s
    ensures NoDup(InsertAt(s, i, x)) && x in InsertAt(s, i, x)
  {
    assert InsertAt(s, i, x)[i] == x;
  }

  lemma AddedShaped(c: Ranking, size: nat, x: ObjectIndex)
    requires c.Shaped() && x !in c.list
    ensures Added(c, size, x).Shaped()
  {
    var f := FreeTier(c.sizes, size, 3);
    BeginUpdate(c.sizes, 3, c.sizes[3] + 1, TIERS);
    if f >= 0 { BeginUpdate(c.sizes, f, c.sizes[f] + 1, TIERS); }
  }

  /** PromoteObject moves one object and nothing else: all the others keep their order,
      whether or not one of them had to change its tier. The object ends at the front of
      the tier above, or at the head of the list. */
  lemma PromoteKeepsOrder(c: Ranking, size: nat, x: ObjectIndex)
    requires c.Valid() && x in c.list
    ensures var p := Promoted(c, size, x);
            var t := TierAt(c.sizes, IndexOf(c.list, x));
            && p.Valid()
            && Others(p.list, x) == Others(c.list, x)
            && x in p.list && IndexOf(p.list, x) == Begin(c.sizes, if t == 0 then 0 else t - 1)
            && (size > 0 ==> TierAt(p.sizes, IndexOf(p.list, x)) == if t == 0 then 0 else t - 1)
  {
    hide InsertAt, RemoveAt, Others, Promoted, NoDup, TierAt, IndexOf, Begin;
    var i, j := PromotedEdit(c, size, x);
    OthersRemove(c.list, i, x);
    OthersInsert(RemoveAt(c.list, i), j, x);
    EditNoDup(c.list, i, j, x);
    PromotedShaped(c, size, x);
    if size > 0 { PromotedTier(c, size, x); }
  }

  /** The object takes a place of the tier above only if there is one: otherwise the two tiers keep
      their sizes, because the last object of the tier above takes its place. */
  lemma PromotePlaces(c: Ranking, size: nat, x: ObjectIndex, t: nat, i: nat)
    requires c.Valid() && t < TIERS && i < c.sizes[t] && Begin(c.sizes, t) + i < |c.list|
    requires c.list[Begin(c.sizes, t) + i] == x
    ensures var p := Promoted(c, size, x);
            && (t == 0 ==> p.sizes == c.sizes && p.list != [] && p.list[0] == x)
            && (t > 0 ==> Begin(c.sizes, t - 1) < |p.list| && p.list[Begin(c.sizes, t - 1)] == x)
            && (t > 0 && c.sizes[t - 1] >= size ==> p.sizes == c.sizes)
            && (t > 0 && c.sizes[t - 1] < size ==>
                  p.sizes == c.sizes[t - 1 := c.sizes[t - 1] + 1][t := c.sizes[t] - 1])
  {
    InTier(c, x, t, i);
    var j := IndexOf(c.list, x);
    if t > 0 { BeginNext(c.sizes, t - 1); }
    hide Begin, IndexOf, TierAt;
  }

  lemma InTier(c: Ranking, x: ObjectIndex, t: nat, i: nat)
    requires c.Valid() && t < TIERS && i < c.sizes[t] && Begin(c.sizes, t) + i < |c.list|
    requires c.list[Begin(c.sizes, t) + i] == x
    ensures x in c.list && IndexOf(c.list, x) == Begin(c.sizes, t) + i
    ensures Begin(c.sizes, t) + i < Begin(c.sizes, |c.sizes|) && TierAt(c.sizes, Begin(c.sizes, t) + i) == t
  {
    hide IndexOf;
    BeginNext(c.sizes, t);
    TierAtUnique(c.sizes, t, Begin(c.sizes, t) + i);
  }

  /** The tier that an object is removed from loses one. */
  lemma RemovePlaces(c: Ranking, x: ObjectIndex, t: nat, i: nat)
    requires c.Valid() && t < TIERS && i < c.sizes[t] && Begin(c.sizes, t) + i < |c.list|
    requires c.list[Begin(c.sizes, t) + i] == x
    ensures Removed(c, x).sizes == c.sizes[t := c.sizes[t] - 1]
  {
    hide Begin, IndexOf, TierAt;
    InTier(c, x, t, i);
  }

  lemma PromotedEdit(c: Ranking, size: nat, x: ObjectIndex) returns (i: nat, j: nat)
    requires c.Shaped() && x in c.list
    ensures i < |c.list| && c.list[i] == x && i == IndexOf(c.list, x) && j <= i
    ensures j == var t := TierAt(c.sizes, i); Begin(c.sizes, if t == 0 then 0 else t - 1)
    ensures Promoted(c, size, x).list == InsertAt(RemoveAt(c.list, i), j, x)
  {
    i := IndexOf(c.list, x);
    var t := TierAt(c.sizes, i);
    j := Begin(c.sizes, if t == 0 then 0 else t - 1);
    assert t > 0 ==> Begin(c.sizes, t) == Begin(c.sizes, t - 1) + c.sizes[t - 1];
    assert t == 0 ==> InsertAt(RemoveAt(c.list, i), 0, x) == [x] + RemoveAt(c.list, i);
  }

  lemma EditNoDup(s: seq<ObjectIndex>, i: nat, j: nat, x: ObjectIndex)
    requires i < |s| && s[i] == x && NoDup(s) && j <= i
    ensures var r := InsertAt(RemoveAt(s, i), j, x);
            NoDup(r) && x in r && IndexOf(r, x) == j
  {
    var r := InsertAt(RemoveAt(s, i), j, x);
    assert x !in RemoveAt(s, i);
    InsertNoDup(RemoveAt(s, i), j, x);
    assert r[j] == x;
  }

  lemma PromotedShaped(c: Ranking, size: nat, x: ObjectIndex)
    requires c.Shaped() && x in c.list
    ensures Promoted(c, size, x).Shaped()
  {
    var t := TierAt(c.sizes, IndexOf(c.list, x));
    if t > 0 && c.sizes[t - 1] < size {
      BeginUpdate(c.sizes, t - 1, c.sizes[t - 1] + 1, TIERS);
      BeginUpdate(c.sizes[t - 1 := c.sizes[t - 1] + 1], t, c.sizes[t] - 1, TIERS);
    }
  }

  lemma PromotedTier(c: Ranking, size: nat, x: ObjectIndex)
    requires c.Shaped() && x in c.list && size > 0
    ensures var p := Promoted(c, size, x);
            var t := TierAt(c.sizes, IndexOf(c.list, x));
            var u := if t == 0 then 0 else t - 1;
            Begin(c.sizes, u) < Begin(p.sizes, TIERS) && |p.sizes| == TIERS && TierAt(p.sizes, Begin(c.sizes, u)) == u
  {
    hide Promoted, IndexOf, Begin, TierAt;
    var sizes := Promoted(c, size, x).sizes;
    var t := TierAt(c.sizes, IndexOf(c.list, x));
    var u := if t == 0 then 0 else t - 1;
    PromotedSizes(c, size, x);
    BeginNext(sizes, u);
    TierAtUnique(sizes, u, Begin(c.sizes, u));
  }

  lemma BeginNext(sizes: seq<nat>, t: nat)
    requires t < |sizes|
    ensures Begin(sizes, t + 1) == Begin(sizes, t) + sizes[t]
  {
  }

  lemma PromotedSizes(c: Ranking, size: nat, x: ObjectIndex)
    requires c.Shaped() && x in c.list && size > 0
    ensures var sizes := Promoted(c, size, x).sizes;
            var t := TierAt(c.sizes, IndexOf(c.list, x));
            var u := if t == 0 then 0 else t - 1;
            |sizes| == TIERS && Begin(sizes, u) == Begin(c.sizes, u) && sizes[u] > 0
  {
    hide IndexOf, Begin, InsertAt, RemoveAt;
    var t := TierAt(c.sizes, IndexOf(c.list, x));
    BeginNext(c.sizes, t);
    if t > 0 {
      BeginNext(c.sizes, t - 1);
      BeginUpdate(c.sizes, t - 1, c.sizes[t - 1] + 1, t - 1);
      BeginUpdate(c.sizes[t - 1 := c.sizes[t - 1] + 1], t, c.sizes[t] - 1, t - 1);
    }
  }

  /** Remove takes one object out. */
  lemma RemoveKeepsOrder(c: Ranking, x: ObjectIndex)
    requires c.Valid()
    ensures Removed(c, x).Valid() && Removed(c, x).list == Others(c.list, x)
    ensures x !in Removed(c, x).list
  {
    hide Others, Begin, TierAt;
    RemovedShaped(c, x);
    if x in c.list {
      var i := IndexOf(c.list, x);
      OthersRemove(c.list, i, x);
      assert x !in RemoveAt(c.list, i);
      OthersAll(RemoveAt(c.list, i), x);
    } else {
      OthersAll(c.list, x);
    }
  }

  /** Shrinking keeps a prefix; what it drops, in the order it is handed to
      throttledRemove, is the rest, worst first; it drops nothing that it could keep. */
  lemma ShrinkKeepsBest(c: Ranking, size: nat)
    requires c.Valid()
    ensures Shrunk(c, size).Valid() && Fits(Shrunk(c, size).sizes, size)
    ensures Shrunk(c, size).list <= c.list
    ensures |Shrunk(c, size).list| + |Dropped(c, size)| == |c.list|
    ensures forall j :: 0 <= j < |Dropped(c, size)| ==> Dropped(c, size)[j] == c.list[|c.list| - 1 - j]
    ensures |Shrunk(c, size).list| <= TIERS * size
    ensures (forall t :: 0 <= t < TIERS ==> c.sizes[t] <= size) ==> Shrunk(c, size) == c
    ensures Dropped(c, size) != [] ==> Shrunk(c, size).sizes[3] == size
    ensures SpillsOnly(c.sizes, Shrunk(c, size).sizes, size)
  {
    hide SpillsOnly, Kept;
    ShrinkSpills(c, size);
    ShrinkPrefix(c, size);
    ShrunkFits(c, size);
    ShrinkNothing(c, size);
  }

  lemma ShrinkPrefix(c: Ranking, size: nat)
    requires c.Valid()
    ensures Shrunk(c, size).Valid()
    ensures Shrunk(c, size).list <= c.list
    ensures |Shrunk(c, size).list| + |Dropped(c, size)| == |c.list|
    ensures forall j :: 0 <= j < |Dropped(c, size)| ==> Dropped(c, size)[j] == c.list[|c.list| - 1 - j]
    ensures |Shrunk(c, size).list| <= TIERS * size
    ensures Dropped(c, size) != [] ==> Shrunk(c, size).sizes[3] == size
  {
    KeptBounds(c.sizes, size, 3);
    KeptAtMost(c.sizes, size, TIERS);
    ShrunkBegin(c, size, TIERS);
  }

  lemma ShrinkNothing(c: Ranking, size: nat)
    requires c.Shaped()
    ensures (forall t :: 0 <= t < TIERS ==> c.sizes[t] <= size) ==> Shrunk(c, size) == c
  {
    if forall t :: 0 <= t < TIERS ==> c.sizes[t] <= size {
      NothingSpills(c.sizes, size, 4);
      forall u | 0 <= u <= TIERS ensures Begin(Shrunk(c, size).sizes, u) == Begin(c.sizes, u) {
        ShrunkBegin(c, size, u);
        NothingSpills(c.sizes, size, u);
      }
      BeginDetermines(Shrunk(c, size).sizes, c.sizes);
    }
  }

  /** No object goes to a higher tier, and a tier that is not full then has nothing to give up: all the
      objects that were in it or above it are still there. Together with the limits this leaves no
      choice about the sizes: see SpillsOneWay. */
  ghost predicate SpillsOnly(was: seq<nat>, now: seq<nat>, size: nat) {
    && |was| == |now| == TIERS
    && forall t :: 0 <= t < TIERS ==>
         now[t] <= size && Begin(now, t) <= Begin(was, t)
         && (now[t] == size || Begin(now, t + 1) == Begin(was, t + 1))
  }

  lemma ShrinkSpills(c: Ranking, size: nat)
    requires c.Shaped()
    ensures SpillsOnly(c.sizes, Shrunk(c, size).sizes, size)
  {
    var now := Shrunk(c, size).sizes;
    forall t | 0 <= t < TIERS
      ensures now[t] <= size && Begin(now, t) <= Begin(c.sizes, t)
              && (now[t] == size || Begin(now, t + 1) == Begin(c.sizes, t + 1))
    {
      KeptBounds(c.sizes, size, t);
      ShrunkBegin(c, size, t);
      ShrunkBegin(c, size, t + 1);
    }
  }

  lemma SpillsSizes(was: seq<nat>, now: seq<nat>, size: nat)
    requires SpillsOnly(was, now, size)
    ensures |was| == |now| == TIERS
  {
  }

  lemma BeginNone(sizes: seq<nat>)
    ensures Begin(sizes, 0) == 0
  {
  }

  lemma SpillsOne(was: seq<nat>, a: seq<nat>, b: seq<nat>, size: nat, t: nat)
    requires SpillsOnly(was, a, size) && SpillsOnly(was, b, size) && 0 < t <= TIERS
    requires Begin(a, TIERS) <= Begin(was, TIERS) && Begin(b, TIERS) <= Begin(was, TIERS)
    requires Begin(a, t - 1) == Begin(b, t - 1)
    requires Begin(a, t) == Begin(a, t - 1) + a[t - 1] && Begin(b, t) == Begin(b, t - 1) + b[t - 1]
    ensures a[t - 1] == b[t - 1]
  {
    hide Begin;
    assert a[t - 1] == size || Begin(a, t - 1 + 1) == Begin(was, t - 1 + 1);
    assert b[t - 1] == size || Begin(b, t - 1 + 1) == Begin(was, t - 1 + 1);
    if t < TIERS {
      assert Begin(a, t) <= Begin(was, t) && Begin(b, t) <= Begin(was, t);
    }
  }

  lemma {:induction false} SpillsOneWay(was: seq<nat>, a: seq<nat>, b: seq<nat>, size: nat, t: nat)
    requires SpillsOnly(was, a, size) && SpillsOnly(was, b, size) && t <= TIERS
    requires Begin(a, TIERS) <= Begin(was, TIERS) && Begin(b, TIERS) <= Begin(was, TIERS)
    ensures a[..t] == b[..t] && Begin(a, t) == Begin(b, t)
  {
    hide SpillsOnly, Begin;
    if t == 0 {
      BeginNone(a);
      BeginNone(b);
    } else {
      SpillsSizes(was, a, size);
      SpillsSizes(was, b, size);
      SpillsOneWay(was, a, b, size, t - 1);
      BeginNext(a, t - 1);
      BeginNext(b, t - 1);
      SpillsOne(was, a, b, size, t);
      assert a[..t] == a[..t - 1] + [a[t - 1]] && b[..t] == b[..t - 1] + [b[t - 1]];
    }
  }

  lemma NothingSpills(sizes: seq<nat>, size: nat, t: nat)
    requires t <= |sizes| && forall u :: 0 <= u < |sizes| ==> sizes[u] <= size
    ensures Kept(sizes, size, t) == Begin(sizes, t)
  {
    if t > 0 { NothingSpills(sizes, size, t - 1); }
  }
}
