/** The weighted balancer of upstream/balancing/weighted/ketama. */
module Ketama {
  import opened ObjectIndexes
  import opened Arithmetic
  import opened Continuum
  import Decimal
  import Sorting

  function Prefix(u: Upstream): string { u.host + ":" + u.port }

  /** The strings that are hashed for the points: host, colon, port, hyphen and a number, which every
      four points share. Other hosts, ports or numbers give other strings. */
  lemma Keys(md5: MD5, u: Upstream, k: nat)
    ensures PointAt(md5, Prefix(u), u, k)
         == Point(u, GetKetamaHash(md5, u.host + ":" + u.port + "-" + Decimal.FormatUint(k / 4), k % 4))
  {
  }

  lemma KeysDiffer(u: Upstream, i: nat, v: Upstream, j: nat)
    requires ':' !in u.host && ':' !in v.host
    ensures Prefix(u) + "-" + Decimal.FormatUint(i) == Prefix(v) + "-" + Decimal.FormatUint(j)
       <==> u.host == v.host && u.port == v.port && i == j
  {
    hide Decimal.FormatUint;
    NumberedKeys(Prefix(u), i, Prefix(v), j);
    AddressKeys(u.host, u.port, v.host, v.port);
  }

  /** How many points an upstream gets: its share, cut to whole hashes. */
  function Count(u: Upstream, max: u32, total: u32): (n: nat)
    requires total > 0
  {
    Share(u.weight, max, total) / POINTS_PER_HASH * POINTS_PER_HASH
  }

  /** The points of the upstreams, one upstream after the other. */
  function Points(md5: MD5, us: seq<Upstream>, max: u32, total: u32): seq<Point>
    requires total > 0
  {
    if us == [] then []
    else
      var u := us[|us| - 1];
      Points(md5, us[..|us| - 1], max, total) + PointsOf(md5, Prefix(u), u, Count(u, max, total))
  }

  function Ring(md5: MD5, us: seq<Upstream>): seq<Point> {
    if TotalWeight(us) % UINT32 == 0 then []
    else Points(md5, us, MaxPoints(us), TotalWeight(us) % UINT32)
  }

  function Descending(p: Point): int { 0 - p.point }

  class Ketama {
    const md5: MD5
    var ring: seq<Point>
    ghost var upstreams: seq<Upstream>

    ghost predicate Valid()
      reads this
    {
      && Divisible(upstreams)
      && Sorting.SortedBy(ring, Descending)
      && multiset(ring) == multiset(Ring(md5, upstreams))
    }

    constructor (md5: MD5)
      ensures Valid() && upstreams == [] && this.md5 == md5
    {
      this.md5 := md5;
      ring, upstreams := [], [];
    }

    /** Divides by the sum of the weights, and panics, with the ring made empty, where that is 0
        although there are upstreams. */
    method Set(us: seq<Upstream>) returns (panics: bool)
      modifies this
      ensures Valid() && (panics <==> !Divisible(us))
      ensures if panics then upstreams == [] && ring == [] else upstreams == us
    {
      var max := |us| % UINT32 * POINTS_PER_SERVER % UINT32;
      ring, upstreams := [], [];
      var total := SumWeights(us);
      if us != [] && total == 0 {
        return true;
      }
      var points: seq<Point> := [];
      for j := 0 to |us|
        invariant j == 0 ==> points == []
        invariant j > 0 ==> points == Points(md5, us[..j], max, total)
      {
        assert us[..j + 1][..j] == us[..j];
        points := AddPoints(points, us[j], max, total);
      }
      assert us[..|us|] == us;
      ring := Sorting.Sort(points, Descending);
      upstreams := us;
      panics := false;
    }

    method AddPoints(before: seq<Point>, u: Upstream, max: u32, total: u32) returns (points: seq<Point>)
      requires total > 0
      ensures points == before + PointsOf(md5, Prefix(u), u, Count(u, max, total))
    {
      hide Share, GetKetamaHash, PointsOf;
      var hashes := Share(u.weight, max, total) / POINTS_PER_HASH;
      points := before;
      assert PointsOf(md5, Prefix(u), u, 0) == [];
      for i := 0 to hashes
        invariant points == before + PointsOf(md5, Prefix(u), u, POINTS_PER_HASH * i)
      {
        var source := u.host + ":" + u.port + "-" + Decimal.FormatUint(i);
        for x := 0 to POINTS_PER_HASH
          invariant points == before + PointsOf(md5, Prefix(u), u, POINTS_PER_HASH * i + x)
        {
          PointsOfNext(md5, Prefix(u), u, i, x);
          points := points + [Point(u, GetKetamaHash(md5, source, x))];
        }
      }
    }

    method Get(path: string) returns (r: Option<Upstream>)
      requires Valid()
      ensures Answers(md5, upstreams, path, r)
    {
      hide Points, GetKetamaHash;
      SameElements(ring, Ring(md5, upstreams));
      if |ring| == 0 {
        return None;
      }
      var point := GetKetamaHash(md5, path, 0);
      var ring := ring;
      var seeker := (i: nat) => i < |ring| && ring[i].point < point;
      var idx := Sorting.Search(|ring|, seeker);
      Preceding(ring, point, idx);
      if idx < |ring| {
        assert Precedes(Ring(md5, upstreams), point, ring[idx]);
        return Some(ring[idx].owner);
      }
      assert Precedes(Ring(md5, upstreams), point, ring[0]);
      return Some(ring[0].owner);
    }
  }

  /** p lies strictly below h as closely as any point, or is the largest of all where no point lies
      strictly below h. */
  ghost predicate Precedes(ring: seq<Point>, h: u32, p: Point) {
    && p in ring
    && (if exists q :: q in ring && q.point < h
        then p.point < h && forall q :: q in ring && q.point < h ==> q.point <= p.point
        else forall q :: q in ring ==> q.point <= p.point)
  }

  /** r is a right answer for path: the owner of the point that precedes its hash. */
  ghost predicate Answers(md5: MD5, us: seq<Upstream>, path: string, r: Option<Upstream>) {
    var ring := Ring(md5, us);
    match r
    case None => ring == []
    case Some(u) => exists p :: Precedes(ring, GetKetamaHash(md5, path, 0), p) && p.owner == u
  }

  lemma Preceding(ring: seq<Point>, h: u32, i: nat)
    requires Sorting.SortedBy(ring, Descending) && ring != [] && i <= |ring|
    requires i < |ring| ==> ring[i].point < h
    requires i > 0 ==> ring[i - 1].point >= h
    ensures Precedes(ring, h, if i < |ring| then ring[i] else ring[0])
  {
    if i < |ring| {
      assert ring[i] in ring;
      assert forall k :: 0 <= k < i ==> ring[k].point >= h;
      assert forall k :: i < k < |ring| ==> Descending(ring[i]) <= Descending(ring[k]);
    } else {
      assert forall k :: 0 <= k < |ring| ==> ring[k].point >= h;
      assert forall k :: 0 < k < |ring| ==> Descending(ring[0]) <= Descending(ring[k]);
    }
  }

  /* ---------- Size of the ring ---------- */

  /** The points of an upstream are its exact share of all points, short of it by less than 4. */
  lemma CountBounds(us: seq<Upstream>, u: Upstream)
    requires Regular(us) && u in us
    ensures var c, t := Count(u, MaxPoints(us), TotalWeight(us)), TotalWeight(us);
            c * t <= u.weight * (POINTS_PER_SERVER * |us|) < (c + 4) * t
  {
    hide TotalWeight, MaxPoints, Share;
    RegularMax(us);
    var max, t := MaxPoints(us), TotalWeight(us);
    var s := Share(u.weight, max, t);
    ShareBounds(u.weight, max, t);
    Between(s, Count(u, max, t), t, u.weight * max);
  }

  lemma Between(s: nat, c: nat, t: nat, x: nat)
    requires c <= s < c + 4 && s * t <= x < s * t + t
    ensures c * t <= x < (c + 4) * t
  {
    MulMono(c, s, t);
    MulMono(s + 1, c + 4, t);
    MulNext(s, t);
  }

  lemma PointsSnoc(md5: MD5, us: seq<Upstream>, n: nat, max: u32, total: u32)
    requires total > 0 && n < |us|
    ensures |Points(md5, us[..n + 1], max, total)| == |Points(md5, us[..n], max, total)| + Count(us[n], max, total)
    ensures TotalWeight(us[..n + 1]) == TotalWeight(us[..n]) + us[n].weight
  {
    hide Count;
    assert us[..n + 1][..n] == us[..n];
  }

  lemma PointsEmpty(md5: MD5, us: seq<Upstream>, max: u32, total: u32)
    requires total > 0
    ensures Points(md5, us[..0], max, total) == [] && TotalWeight(us[..0]) == 0
  {
  }

  lemma {:induction false} PointsSize(md5: MD5, us: seq<Upstream>, n: nat)
    requires Regular(us) && n <= |us|
    ensures var t, max := TotalWeight(us), POINTS_PER_SERVER * |us|;
            var c := |Points(md5, us[..n], MaxPoints(us), t)|;
            c * t <= TotalWeight(us[..n]) * max <= (c + 4 * n) * t
            && (n > 0 ==> TotalWeight(us[..n]) * max < (c + 4 * n) * t)
  {
    hide Regular, Count, MaxPoints, Points, TotalWeight;
    RegularTotal(us);
    var max, total := MaxPoints(us), TotalWeight(us);
    if n == 0 {
      PointsEmpty(md5, us, max, total);
    } else {
      PointsSize(md5, us, n - 1);
      PointsSnoc(md5, us, n - 1, max, total);
      CountBounds(us, us[n - 1]);
      SizeStep(|Points(md5, us[..n - 1], max, total)|, n - 1, Count(us[n - 1], max, total),
               total, TotalWeight(us[..n - 1]), us[n - 1].weight, POINTS_PER_SERVER * |us|);
    }
  }

  lemma SizeStep(c: nat, n: nat, d: nat, t: nat, sum: nat, w: nat, max: nat)
    requires c * t <= sum * max <= (c + 4 * n) * t && d * t <= w * max < (d + 4) * t
    ensures (c + d) * t <= (sum + w) * max < (c + d + 4 * (n + 1)) * t
  {
    MulAdd(c, d, t);
    MulAdd(c + 4 * n, d + 4, t);
    MulAdd(sum, w, max);
  }

  lemma RegularTotal(us: seq<Upstream>)
    requires Regular(us)
    ensures us != [] && 0 < TotalWeight(us) < UINT32
  {
  }

  lemma RingIsPoints(md5: MD5, us: seq<Upstream>)
    requires Regular(us)
    ensures us != [] && Ring(md5, us) == Points(md5, us, MaxPoints(us), TotalWeight(us))
  {
    hide Points;
    SmallMod(TotalWeight(us), UINT32);
  }

  /** The ring never has more than 160 points for each upstream, and falls short of that by less
      than 4 for each. */
  lemma RingSize(md5: MD5, us: seq<Upstream>)
    requires Regular(us)
    ensures POINTS_PER_SERVER * |us| - 4 * |us| < |Ring(md5, us)| <= POINTS_PER_SERVER * |us|
  {
    hide Ring, Points, MaxPoints, TotalWeight;
    RingIsPoints(md5, us);
    PointsSize(md5, us, |us|);
    assert us[..|us|] == us;
    SizeBetween(|Ring(md5, us)|, POINTS_PER_SERVER * |us|, |us|, TotalWeight(us));
  }

  lemma SizeBetween(c: nat, max: nat, n: nat, t: nat)
    requires c * t <= t * max < (c + 4 * n) * t
    ensures c <= max < c + 4 * n
  {
    MulCancelStrict(max, c + 4 * n, t);
    MulCancel(c, max, t);
  }

  /** Each upstream owns as many points as its count says. */
  lemma {:induction false} OwnedPoints(md5: MD5, us: seq<Upstream>, max: u32, total: u32, u: Upstream)
    requires total > 0 && NoDup(us)
    ensures OwnedBy(Points(md5, us, max, total), u) == if u in us then Count(u, max, total) else 0
  {
    hide Count, PointAt, OwnedBy;
    if us == [] {
      OwnedByOne([], u, u);
    } else {
      var n := |us| - 1;
      OwnedPoints(md5, us[..n], max, total, u);
      var mine := PointsOf(md5, Prefix(us[n]), us[n], Count(us[n], max, total));
      OwnedInBoth(Points(md5, us[..n], max, total), mine, u);
      MineOnly(md5, Prefix(us[n]), us[n], Count(us[n], max, total));
      OwnedByOne(mine, us[n], u);
      assert us == us[..n] + [us[n]];
    }
  }

  /* ---------- Consistent hashing ---------- */

  ghost predicate IsPoint(md5: MD5, p: Point, max: u32, total: u32)
    requires total > 0
  {
    exists k :: 0 <= k < Count(p.owner, max, total) && p == PointAt(md5, Prefix(p.owner), p.owner, k)
  }

  lemma {:induction false} PointsMember(md5: MD5, us: seq<Upstream>, max: u32, total: u32, p: Point)
    requires total > 0
    ensures p in Points(md5, us, max, total) <==> p.owner in us && IsPoint(md5, p, max, total)
  {
    hide PointAt, Count;
    if us != [] {
      var n := |us| - 1;
      PointsMember(md5, us[..n], max, total, p);
      assert us == us[..n] + [us[n]];
      PointsOfMember(md5, us[n], max, total, p);
    }
  }

  lemma PointsOfMember(md5: MD5, u: Upstream, max: u32, total: u32, p: Point)
    requires total > 0
    ensures p in PointsOf(md5, Prefix(u), u, Count(u, max, total)) <==> p.owner == u && IsPoint(md5, p, max, total)
  {
    hide GetKetamaHash, Count, Prefix;
    var mine := PointsOf(md5, Prefix(u), u, Count(u, max, total));
    if p in mine {
      var k :| 0 <= k < |mine| && mine[k] == p;
      assert p == PointAt(md5, Prefix(p.owner), p.owner, k);
    }
    if p.owner == u && IsPoint(md5, p, max, total) {
      var k :| 0 <= k < Count(u, max, total) && p == PointAt(md5, Prefix(u), u, k);
      assert mine[k] == p;
    }
  }

  /** With equal weights, the ring of a list holds exactly the first 160 points of each upstream. */
  lemma EqualRingMember(md5: MD5, us: seq<Upstream>, w: u32, p: Point)
    requires Regular(us) && Equal(us, w)
    ensures p in Ring(md5, us)
       <==> p.owner in us && exists k :: 0 <= k < POINTS_PER_SERVER && p == PointAt(md5, Prefix(p.owner), p.owner, k)
  {
    hide PointAt, MaxPoints, TotalWeight;
    if us != [] {
      RingIsPoints(md5, us);
      PointsMember(md5, us, MaxPoints(us), TotalWeight(us), p);
      EqualShare(us, w);
    }
  }

  /** Where one ring is part of another, the answers are the same, or the new one is a point that
      the smaller ring did not have. */
  lemma LargerRing(small: seq<Point>, large: seq<Point>, h: u32, p: Point, q: Point)
    requires DistinctPoints(large) && forall x :: x in small ==> x in large
    requires Precedes(small, h, p) && Precedes(large, h, q)
    ensures q == p || q !in small
  {
    if q in small {
      assert p in large;
      assert p.point < h <==> q.point < h;
    }
  }

  /** Every upstream of us is in vs and has as many points in both rings. */
  ghost predicate Keeps(us: seq<Upstream>, vs: seq<Upstream>) {
    && TotalWeight(us) % UINT32 > 0 && TotalWeight(vs) % UINT32 > 0
    && forall u :: u in us ==>
         && u in vs
         && Count(u, MaxPoints(us), TotalWeight(us) % UINT32) == Count(u, MaxPoints(vs), TotalWeight(vs) % UINT32)
  }

  /** Monotonicity: with distinct points, and as long as the old upstreams keep their numbers of
      points, adding any number of upstreams at any places changes the answer for a path only to one
      of the added upstreams. */
  lemma OnlyToTheNew(md5: MD5, us: seq<Upstream>, vs: seq<Upstream>, path: string, a: Upstream, b: Upstream)
    requires Keeps(us, vs) && DistinctPoints(Ring(md5, vs))
    requires Answers(md5, us, path, Some(a)) && Answers(md5, vs, path, Some(b))
    ensures b == a || (b in vs && b !in us)
  {
    hide GetKetamaHash, PointAt, TotalWeight, MaxPoints, Ring, Precedes, IsPoint, Keeps, Points;
    var h := GetKetamaHash(md5, path, 0);
    var small, large := Ring(md5, us), Ring(md5, vs);
    var p :| Precedes(small, h, p) && p.owner == a;
    var q :| Precedes(large, h, q) && q.owner == b;
    forall x ensures x in small <==> x.owner in us && x in large {
      KeptPoint(md5, us, vs, x);
    }
    LargerRing(small, large, h, p, q);
    InRing(large, h, q);
    KeptPoint(md5, us, vs, q);
  }

  lemma KeptPoint(md5: MD5, us: seq<Upstream>, vs: seq<Upstream>, p: Point)
    requires Keeps(us, vs)
    ensures p in Ring(md5, us) <==> p.owner in us && p in Ring(md5, vs)
    ensures p in Ring(md5, vs) ==> p.owner in vs
  {
    hide PointAt, TotalWeight, MaxPoints, Count, Points;
    PointsMember(md5, us, MaxPoints(us), TotalWeight(us) % UINT32, p);
    PointsMember(md5, vs, MaxPoints(vs), TotalWeight(vs) % UINT32, p);
  }

  /** With equal weights every upstream has 160 points in every ring. */
  lemma EqualKeeps(us: seq<Upstream>, vs: seq<Upstream>, w: u32)
    requires Regular(us) && Regular(vs) && Equal(vs, w) && forall u :: u in us ==> u in vs
    ensures Keeps(us, vs)
  {
    hide TotalWeight, MaxPoints, Share;
    RegularTotal(us);
    RegularTotal(vs);
    SmallMod(TotalWeight(us), UINT32);
    SmallMod(TotalWeight(vs), UINT32);
    EqualShare(us, w);
    EqualShare(vs, w);
  }

  lemma EqualOnlyToTheNew(md5: MD5, us: seq<Upstream>, vs: seq<Upstream>, w: u32, path: string,
                          a: Upstream, b: Upstream)
    requires Regular(us) && Regular(vs) && Equal(vs, w)
    requires forall u :: u in us ==> u in vs
    requires DistinctPoints(Ring(md5, vs))
    requires Answers(md5, us, path, Some(a)) && Answers(md5, vs, path, Some(b))
    ensures b == a || (b in vs && b !in us)
  {
    hide Keeps, Regular, Equal, Ring, Precedes, Answers;
    EqualKeeps(us, vs, w);
    OnlyToTheNew(md5, us, vs, path, a, b);
  }

  /** Whatever the weights are, an added upstream of their mean leaves all others their points. */
  lemma MeanKeeps(us: seq<Upstream>, u: Upstream)
    requires Regular(us) && Regular(us + [u]) && u.weight * |us| == TotalWeight(us)
    ensures Keeps(us, us + [u])
  {
    hide TotalWeight, MaxPoints, Count, Regular;
    RegularTotal(us);
    RegularTotal(us + [u]);
    SmallMod(TotalWeight(us), UINT32);
    SmallMod(TotalWeight(us + [u]), UINT32);
    forall v | v in us
      ensures Count(v, MaxPoints(us), TotalWeight(us)) == Count(v, MaxPoints(us + [u]), TotalWeight(us + [u]))
    {
      MeanCount(us, u, v);
    }
  }

  lemma MeanCount(us: seq<Upstream>, u: Upstream, v: Upstream)
    requires Regular(us) && Regular(us + [u]) && u.weight * |us| == TotalWeight(us) && v in us
    ensures Count(v, MaxPoints(us), TotalWeight(us)) == Count(v, MaxPoints(us + [u]), TotalWeight(us + [u]))
  {
    hide TotalWeight, MaxPoints, Share;
    var n := |us|;
    MeanTotal(us, u);
    RegularShare(us, v);
    RegularShare(us + [u], v);
    MeanQuotient(v.weight, u.weight, n);
    MeanQuotient(v.weight, u.weight, n + 1);
  }

  lemma MeanTotal(us: seq<Upstream>, u: Upstream)
    requires u.weight * |us| == TotalWeight(us)
    ensures TotalWeight(us + [u]) == u.weight * (|us| + 1)
  {
    assert (us + [u])[..|us|] == us;
    MulNext(|us|, u.weight);
  }

  lemma RegularShare(us: seq<Upstream>, v: Upstream)
    requires Regular(us) && v in us
    ensures Share(v.weight, MaxPoints(us), TotalWeight(us))
         == v.weight * (POINTS_PER_SERVER * |us|) / TotalWeight(us)
  {
    hide TotalWeight, MaxPoints;
    RegularMax(us);
    SmallMod(v.weight * (POINTS_PER_SERVER * |us|), UINT32);
  }

  lemma MeanQuotient(w: nat, m: nat, n: nat)
    requires m > 0 && n > 0
    ensures m * n > 0 && w * (POINTS_PER_SERVER * n) / (m * n) == POINTS_PER_SERVER * w / m
  {
    MulMono(1, n, m);
    Reorder(w, n);
    DivScale(POINTS_PER_SERVER * w, m, n);
    Regroup(w, n);
  }

  lemma Regroup(w: nat, n: nat)
    ensures POINTS_PER_SERVER * (w * n) == (POINTS_PER_SERVER * w) * n
  {
  }

  lemma InRing(ring: seq<Point>, h: u32, p: Point)
    requires Precedes(ring, h, p)
    ensures p in ring
  {
  }
}
