/** The weighted balancer of upstream/balancing/weighted/legacyketama. */
module LegacyKetama {
  import opened ObjectIndexes
  import opened Arithmetic
  import opened Continuum
  import Decimal
  import Sorting

  function Prefix(u: Upstream): string {
    if u.port != "80" then u.host + ":" + u.port else u.host
  }

  /** The strings that are hashed for the points: host, colon, port, hyphen and a number, which every
      four points share. Port 80 is left out, with its colon. Other hosts, ports or numbers give other
      strings. */
  lemma Keys(md5: MD5, u: Upstream, k: nat)
    ensures u.port != "80" ==>
              PointAt(md5, Prefix(u), u, k)
              == Point(u, GetKetamaHash(md5, u.host + ":" + u.port + "-" + Decimal.FormatUint(k / 4), k % 4))
    ensures u.port == "80" ==>
              PointAt(md5, Prefix(u), u, k)
              == Point(u, GetKetamaHash(md5, u.host + "-" + Decimal.FormatUint(k / 4), k % 4))
  {
  }

  lemma KeysDiffer(u: Upstream, i: nat, v: Upstream, j: nat)
    requires ':' !in u.host && ':' !in v.host
    ensures Prefix(u) + "-" + Decimal.FormatUint(i) == Prefix(v) + "-" + Decimal.FormatUint(j)
       <==> u.host == v.host && u.port == v.port && i == j
  {
    hide Decimal.FormatUint;
    NumberedKeys(Prefix(u), i, Prefix(v), j);
    AddressKeys(u.host, u.port, v.host, v.port);
    if u.port != "80" { assert Prefix(u)[|u.host|] == ':'; }
    if v.port != "80" { assert Prefix(v)[|v.host|] == ':'; }
  }

  /** How many whole hashes an upstream is given: its share, always rounded up. */
  function Hashes(u: Upstream, max: u32, total: u32): nat
    requires total > 0
  {
    var points := Share(u.weight, max, total);
    (points + (POINTS_PER_HASH - points % POINTS_PER_HASH)) % UINT32 / POINTS_PER_HASH
  }

  /** The points of the upstreams before the ring is cut, one upstream after the other. */
  function Uncut(md5: MD5, us: seq<Upstream>, max: u32, total: u32): seq<Point>
    requires total > 0
  {
    if us == [] then []
    else
      var u := us[|us| - 1];
      Uncut(md5, us[..|us| - 1], max, total)
      + PointsOf(md5, Prefix(u), u, POINTS_PER_HASH * Hashes(u, max, total))
  }

  function Cut<T>(s: seq<T>, n: nat): (r: seq<T>)
    ensures r <= s && |r| == Min(|s|, n)
  {
    if |s| <= n then s else s[..n]
  }

  function Ring(md5: MD5, us: seq<Upstream>): seq<Point> {
    if TotalWeight(us) % UINT32 == 0 then []
    else Cut(Uncut(md5, us, MaxPoints(us), TotalWeight(us) % UINT32), MaxPoints(us))
  }

  lemma EmptyRing(md5: MD5)
    ensures Ring(md5, []) == [] && TotalWeight([]) == 0
  {
  }

  function Ascending(p: Point): int { p.point }

  lemma CutNext<T>(s: seq<T>, x: T, n: nat)
    ensures Cut(s + [x], n) == if |Cut(s, n)| >= n then Cut(s, n) else Cut(s, n) + [x]
  {
  }

  lemma CutAppend<T>(a: seq<T>, b: seq<T>, x: T, n: nat)
    ensures Cut(a + (b + [x]), n) == if |Cut(a + b, n)| >= n then Cut(a + b, n) else Cut(a + b, n) + [x]
  {
    assert a + (b + [x]) == (a + b) + [x];
    CutNext(a + b, x, n);
  }

  class Ketama {
    const md5: MD5
    var ring: seq<Point>
    ghost var upstreams: seq<Upstream>

    ghost predicate Valid()
      reads this
    {
      && Divisible(upstreams)
      && Sorting.SortedBy(ring, Ascending)
      && multiset(ring) == multiset(Ring(md5, upstreams))
    }

    constructor (md5: MD5)
      ensures Valid() && upstreams == [] && this.md5 == md5
    {
      this.md5 := md5;
      ring, upstreams := [], [];
    }

    /** Divides by the sum of the weights, and panics, with the ring made empty, where that is 0
        although there are upstreams. */
    method Set(us: seq<Upstream>) returns (panics: bool)
      modifies this
      ensures Valid() && (panics <==> !Divisible(us))
      ensures if panics then upstreams == [] && ring == [] else upstreams == us
    {
      hide Hashes, PointsOf, TotalWeight, Cut;
      EmptyRing(md5);
      var max := |us| % UINT32 * POINTS_PER_SERVER % UINT32;
      ring, upstreams := [], [];
      var total := SumWeights(us);
      if us != [] && total == 0 {
        return true;
      }
      var points: seq<Point> := [];
      for j := 0 to |us|
        invariant j == 0 ==> points == []
        invariant j > 0 ==> points == Cut(Uncut(md5, us[..j], max, total), max)
      {
        assert us[..j + 1][..j] == us[..j];
        points := AddPoints(points, Uncut(md5, us[..j], max, total), us[j], max, total);
      }
      assert us[..|us|] == us;
      ring := Sorting.Sort(points, Ascending);
      upstreams := us;
      panics := false;
    }

    method AddPoints(before: seq<Point>, ghost uncut: seq<Point>, u: Upstream, max: u32, total: u32)
      returns (points: seq<Point>)
      requires total > 0 && before == Cut(uncut, max)
      ensures points == Cut(uncut + PointsOf(md5, Prefix(u), u, POINTS_PER_HASH * Hashes(u, max, total)), max)
    {
      hide Hashes, GetKetamaHash, PointsOf, Cut;
      var hashes := Hashes(u, max, total);
      var preSource := u.host;
      if u.port != "80" {
        preSource := preSource + ":" + u.port;
      }
      points := before;
      assert PointsOf(md5, Prefix(u), u, 0) == [] && uncut + [] == uncut;
      for i := 0 to hashes
        invariant points == Cut(uncut + PointsOf(md5, Prefix(u), u, POINTS_PER_HASH * i), max)
      {
        var source := preSource + "-" + Decimal.FormatUint(i);
        for x := 0 to POINTS_PER_HASH
          invariant points == Cut(uncut + PointsOf(md5, Prefix(u), u, POINTS_PER_HASH * i + x), max)
        {
          var next := Point(u, GetKetamaHash(md5, source, x));
          PointsOfNext(md5, Prefix(u), u, i, x);
          CutAppend(uncut, PointsOf(md5, Prefix(u), u, POINTS_PER_HASH * i + x), next, max);
          SmallMod(|points|, UINT32);
          if |points| % UINT32 >= max {
            continue;
          }
          points := points + [next];
        }
      }
    }

    method Get(path: string) returns (r: Option<Upstream>)
      requires Valid()
      ensures Answers(md5, upstreams, path, r)
    {
      hide Uncut, GetKetamaHash, Hex;
      SameElements(ring, Ring(md5, upstreams));
      if |ring| == 0 {
        return None;
      }
      var point := GetKetamaHash(md5, Hex(md5(path)), 0);
      var idx := Find(ring, point);
      if idx < |ring| {
        assert Follows(Ring(md5, upstreams), point, ring[idx]);
        return Some(ring[idx].owner);
      }
      assert false;
    }
  }

  /** The index of the first point that is not below the hash or, where there is none, the last
      index: the ring does not wrap around to its first point. */
  method Find(points: seq<Point>, point: u32) returns (r: int)
    requires Sorting.SortedBy(points, Ascending)
    ensures points == [] ==> r == -1
    ensures points != [] ==> 0 <= r < |points| && Follows(points, point, points[r])
  {
    hide Follows;
    var left, right := 0, |points| - 1;
    while left < right
      invariant points == [] ==> right == -1
      invariant points != [] ==> 0 <= left <= right < |points|
      invariant forall k :: 0 <= k < left < |points| ==> points[k].point < point
      invariant 0 <= right < |points| - 1 ==> points[right].point >= point
    {
      var middle := left + (right - left) / 2;
      assert forall k :: 0 <= k < middle ==> Ascending(points[k]) <= Ascending(points[middle]);
      if points[middle].point < point {
        left := middle + 1;
      } else {
        right := middle;
      }
    }
    if points != [] {
      Following(points, point, right);
    }
    return right;
  }

  lemma Following(points: seq<Point>, h: u32, i: nat)
    requires Sorting.SortedBy(points, Ascending) && i < |points|
    requires forall k :: 0 <= k < i ==> points[k].point < h
    requires i < |points| - 1 ==> points[i].point >= h
    ensures Follows(points, h, points[i])
  {
    assert forall k :: i < k < |points| ==> Ascending(points[i]) <= Ascending(points[k]);
  }

  /** p is the least point that is not below h, or the largest of all where every point is. */
  ghost predicate Follows(ring: seq<Point>, h: u32, p: Point) {
    && p in ring
    && (if exists q :: q in ring && q.point >= h
        then p.point >= h && forall q :: q in ring && q.point >= h ==> p.point <= q.point
        else forall q :: q in ring ==> q.point <= p.point)
  }

  function HexDigit(n: nat): char
    requires n < 16
  {
    "0123456789abcdef"[n]
  }

  function Hex(d: Bytes): (s: string)
    ensures |s| == 2 * |d|
  {
    seq(2 * |d|, k requires 0 <= k < 2 * |d| => HexDigit(if k % 2 == 0 then d[k / 2] / 16 else d[k / 2] % 16))
  }

  function HexValue(c: char): (v: int)
  {
    if '0' <= c <= '9' then c as int - '0' as int
    else if 'a' <= c <= 'f' then c as int - 'a' as int + 10
    else -1
  }

  /** Two digits for each byte, in lower case, the one that counts sixteens first. */
  lemma HexMeans(d: Bytes, i: nat)
    requires i < |d|
    ensures |Hex(d)| == 2 * |d|
    ensures 0 <= HexValue(Hex(d)[2 * i]) && 0 <= HexValue(Hex(d)[2 * i + 1])
    ensures 16 * HexValue(Hex(d)[2 * i]) + HexValue(Hex(d)[2 * i + 1]) == d[i]
  {
    hide Hex, HexDigit, HexValue;
    HexAt(d, i);
    DivBounds(d[i], 16);
    HexDigitMeans(d[i] / 16);
    HexDigitMeans(d[i] % 16);
  }

  lemma HexAt(d: Bytes, i: nat)
    requires i < |d|
    ensures 0 <= d[i] / 16 < 16 && Hex(d)[2 * i] == HexDigit(d[i] / 16) && Hex(d)[2 * i + 1] == HexDigit(d[i] % 16)
  {
    hide HexDigit;
    assert 2 * i % 2 == 0 && 2 * i / 2 == i && (2 * i + 1) % 2 == 1 && (2 * i + 1) / 2 == i;
  }

  lemma HexDigitMeans(n: nat)
    requires n < 16
    ensures HexValue(HexDigit(n)) == n
  {
  }

  /** Rounding goes past the exact share by at most one hash. */
  lemma Underfull(us: seq<Upstream>, u: Upstream)
    requires Regular(us) && u in us
    ensures POINTS_PER_HASH * Hashes(u, MaxPoints(us), TotalWeight(us)) * TotalWeight(us)
         <= u.weight * (POINTS_PER_SERVER * |us|) + POINTS_PER_HASH * TotalWeight(us)
  {
    hide TotalWeight, MaxPoints, Share, Hashes;
    RegularMax(us);
    var max, t := MaxPoints(us), TotalWeight(us);
    var s := Share(u.weight, max, t);
    ShareBounds(u.weight, max, t);
    WeightInTotal(us, u);
    ShareAtMost(s, t, u.weight, max);
    HashesUp(u, max, t);
    MulMono(POINTS_PER_HASH * Hashes(u, max, t), s + POINTS_PER_HASH, t);
    MulAdd(s, POINTS_PER_HASH, t);
  }

  /** r is a right answer for path: the owner of the point that follows the hash of its digest. */
  ghost predicate Answers(md5: MD5, us: seq<Upstream>, path: string, r: Option<Upstream>) {
    var ring := Ring(md5, us);
    match r
    case None => ring == []
    case Some(u) => exists p :: Follows(ring, GetKetamaHash(md5, Hex(md5(path)), 0), p) && p.owner == u
  }

  /* ---------- Size of the ring ---------- */

  /** Rounding always goes past the exact share. */
  lemma Overfull(us: seq<Upstream>, u: Upstream)
    requires Regular(us) && u in us
    ensures u.weight * (POINTS_PER_SERVER * |us|)
          < POINTS_PER_HASH * Hashes(u, MaxPoints(us), TotalWeight(us)) * TotalWeight(us)
  {
    hide TotalWeight, MaxPoints, Share, Hashes;
    RegularMax(us);
    var max, t := MaxPoints(us), TotalWeight(us);
    var s := Share(u.weight, max, t);
    ShareBounds(u.weight, max, t);
    WeightInTotal(us, u);
    ShareAtMost(s, t, u.weight, max);
    HashesUp(u, max, t);
    Above(s, POINTS_PER_HASH * Hashes(u, max, t), t, u.weight * max);
  }

  lemma HashesUp(u: Upstream, max: u32, total: u32)
    requires total > 0 && Share(u.weight, max, total) + POINTS_PER_HASH < UINT32
    ensures var s := Share(u.weight, max, total);
            POINTS_PER_HASH * Hashes(u, max, total) == s + (POINTS_PER_HASH - s % POINTS_PER_HASH)
  {
    hide Share;
    var s := Share(u.weight, max, total);
    SmallMod(s + (POINTS_PER_HASH - s % POINTS_PER_HASH), UINT32);
  }

  lemma Above(s: nat, c: nat, t: nat, x: nat)
    requires s < c && x < s * t + t
    ensures x < c * t
  {
    MulMono(s + 1, c, t);
    MulNext(s, t);
  }

  lemma ShareAtMost(s: nat, t: nat, w: nat, max: nat)
    requires s * t <= w * max && w <= t && t > 0
    ensures s <= max
  {
    MulMono(w, t, max);
    MulCancel(s, max, t);
  }

  lemma {:induction false} WeightInTotal(us: seq<Upstream>, u: Upstream)
    requires u in us
    ensures u.weight <= TotalWeight(us)
  {
    var n := |us| - 1;
    if u != us[n] {
      assert us == us[..n] + [us[n]];
      WeightInTotal(us[..n], u);
    }
  }

  lemma UncutSnoc(md5: MD5, us: seq<Upstream>, n: nat, max: u32, total: u32)
    requires total > 0 && n < |us|
    ensures |Uncut(md5, us[..n + 1], max, total)|
         == |Uncut(md5, us[..n], max, total)| + POINTS_PER_HASH * Hashes(us[n], max, total)
    ensures TotalWeight(us[..n + 1]) == TotalWeight(us[..n]) + us[n].weight
  {
    hide Hashes;
    assert us[..n + 1][..n] == us[..n];
  }

  lemma UncutEmpty(md5: MD5, us: seq<Upstream>, max: u32, total: u32)
    requires total > 0
    ensures Uncut(md5, us[..0], max, total) == [] && TotalWeight(us[..0]) == 0
  {
  }

  lemma {:induction false} UncutSize(md5: MD5, us: seq<Upstream>, n: nat)
    requires Regular(us) && n <= |us|
    ensures var t, max := TotalWeight(us), POINTS_PER_SERVER * |us|;
            var c := |Uncut(md5, us[..n], MaxPoints(us), t)|;
            TotalWeight(us[..n]) * max <= c * t && (n > 0 ==> TotalWeight(us[..n]) * max < c * t)
  {
    hide Regular, Hashes, MaxPoints, Uncut, TotalWeight;
    RegularDivides(us);
    var max, total := MaxPoints(us), TotalWeight(us);
    if n == 0 {
      UncutEmpty(md5, us, max, total);
    } else {
      UncutSize(md5, us, n - 1);
      UncutSnoc(md5, us, n - 1, max, total);
      Overfull(us, us[n - 1]);
      SizeStep(|Uncut(md5, us[..n - 1], max, total)|, POINTS_PER_HASH * Hashes(us[n - 1], max, total),
               total, TotalWeight(us[..n - 1]), us[n - 1].weight, POINTS_PER_SERVER * |us|);
    }
  }

  lemma SizeStep(c: nat, d: nat, t: nat, sum: nat, w: nat, max: nat)
    requires sum * max <= c * t && w * max < d * t
    ensures (sum + w) * max < (c + d) * t
  {
    MulAdd(c, d, t);
    MulAdd(sum, w, max);
  }

  lemma RegularDivides(us: seq<Upstream>)
    requires Regular(us)
    ensures us != [] && 0 < TotalWeight(us) < UINT32 && TotalWeight(us) % UINT32 == TotalWeight(us)
  {
    SmallMod(TotalWeight(us), UINT32);
  }

  lemma RingIsCut(md5: MD5, us: seq<Upstream>)
    requires Regular(us)
    ensures us != [] && MaxPoints(us) == POINTS_PER_SERVER * |us|
    ensures Ring(md5, us) == Cut(Uncut(md5, us, MaxPoints(us), TotalWeight(us)), MaxPoints(us))
  {
    hide Uncut;
    RegularMax(us);
    SmallMod(TotalWeight(us), UINT32);
  }

  /** Rounding up overfills the ring whatever the weights are, so the cut leaves exactly 160 points
      for each upstream. */
  lemma RingSize(md5: MD5, us: seq<Upstream>)
    requires Regular(us)
    ensures |Ring(md5, us)| == POINTS_PER_SERVER * |us|
  {
    hide Ring, Uncut, MaxPoints, TotalWeight;
    RingIsCut(md5, us);
    UncutSize(md5, us, |us|);
    assert us[..|us|] == us;
    MulCancelStrict(POINTS_PER_SERVER * |us|, |Uncut(md5, us, MaxPoints(us), TotalWeight(us))|, TotalWeight(us));
  }

  /* ---------- Who is cut ---------- */

  const ROUNDED := POINTS_PER_SERVER + POINTS_PER_HASH

  lemma EqualHashes(us: seq<Upstream>, w: u32, u: Upstream)
    requires Regular(us) && u in us && Equal(us, w)
    ensures POINTS_PER_HASH * Hashes(u, MaxPoints(us), TotalWeight(us)) == ROUNDED
  {
    hide TotalWeight, MaxPoints, Share;
    EqualShare(us, w);
  }

  /** With equal weights every upstream has 164 points before the cut. */
  lemma UncutNext(md5: MD5, us: seq<Upstream>, w: u32, n: nat)
    requires Regular(us) && n < |us| && Equal(us, w)
    ensures Uncut(md5, us[..n + 1], MaxPoints(us), TotalWeight(us))
         == Uncut(md5, us[..n], MaxPoints(us), TotalWeight(us)) + PointsOf(md5, Prefix(us[n]), us[n], ROUNDED)
  {
    hide PointsOf, TotalWeight, MaxPoints, Hashes, Regular, Prefix;
    assert us[..n + 1][..n] == us[..n];
    RegularDivides(us);
    EqualHashes(us, w, us[n]);
  }

  lemma {:induction false} UncutAt(md5: MD5, us: seq<Upstream>, w: u32, n: nat, k: nat)
    requires Regular(us) && n <= |us| && Equal(us, w)
    ensures var s := Uncut(md5, us[..n], MaxPoints(us), TotalWeight(us));
            |s| == ROUNDED * n
            && (k < ROUNDED * n ==> s[k] == PointAt(md5, Prefix(us[k / ROUNDED]), us[k / ROUNDED], k % ROUNDED))
  {
    hide PointAt, TotalWeight, MaxPoints, Uncut, Prefix, Regular, Equal;
    RegularDivides(us);
    if n == 0 {
      UncutNone(md5, us);
    } else {
      UncutNext(md5, us, w, n - 1);
      UncutAt(md5, us, w, n - 1, k);
      if ROUNDED * (n - 1) <= k < ROUNDED * n {
        DivIs(k, ROUNDED, n - 1);
      }
    }
  }

  lemma UncutNone(md5: MD5, us: seq<Upstream>)
    requires 0 < TotalWeight(us) < UINT32
    ensures Uncut(md5, us[..0], MaxPoints(us), TotalWeight(us)) == []
  {
  }

  /** With equal weights the ring holds the first 160 * n of the points that were made 164 to an
      upstream, in the order of the upstreams. */
  lemma EqualRing(md5: MD5, us: seq<Upstream>, w: u32, k: nat)
    requires Regular(us) && Equal(us, w)
    requires k < POINTS_PER_SERVER * |us|
    ensures |Ring(md5, us)| == POINTS_PER_SERVER * |us|
    ensures k / ROUNDED < |us|
         && Ring(md5, us)[k] == PointAt(md5, Prefix(us[k / ROUNDED]), us[k / ROUNDED], k % ROUNDED)
  {
    hide Ring, Uncut, PointAt, MaxPoints, TotalWeight;
    RingSize(md5, us);
    RingIsCut(md5, us);
    UncutAt(md5, us, w, |us|, k);
    assert us[..|us|] == us;
    DivBounds(k, ROUNDED);
    MulCancelStrict(k / ROUNDED, |us|, ROUNDED);
  }

  /** What the cut leaves to the upstream at index j, whatever the weights are: nothing if those
      before it use up all that is allowed, all of its points if there is room for them, and
      otherwise what is left. */
  function Left(md5: MD5, us: seq<Upstream>, j: nat): nat
    requires j < |us| && TotalWeight(us) % UINT32 > 0
  {
    var max, total := MaxPoints(us), TotalWeight(us) % UINT32;
    Min(POINTS_PER_HASH * Hashes(us[j], max, total), Max(0, max - |Uncut(md5, us[..j], max, total)|))
  }

  lemma CutSplit<T>(a: seq<T>, b: seq<T>, n: nat)
    ensures Cut(a + b, n) == Cut(a, n) + Cut(b, Max(0, n - |a|))
  {
  }

  lemma {:induction false} CutOwned(md5: MD5, us: seq<Upstream>, m: nat, j: nat, max: u32, total: u32, cap: nat)
    requires total > 0 && NoDup(us) && j < |us| && m <= |us|
    ensures OwnedBy(Cut(Uncut(md5, us[..m], max, total), cap), us[j])
         == if m <= j then 0
            else Min(POINTS_PER_HASH * Hashes(us[j], max, total), Max(0, cap - |Uncut(md5, us[..j], max, total)|))
  {
    hide Hashes, Cut, OwnedBy, PointsOf, Uncut, NoDup, Prefix;
    if m == 0 {
      CutNone(md5, us, max, total, cap);
      OwnedByOne([], us[j], us[j]);
    } else {
      CutOwned(md5, us, m - 1, j, max, total, cap);
      UncutPoints(md5, us, m - 1, max, total);
      assert us[m - 1] == us[j] <==> m - 1 == j by { SameIndex(us, m - 1, j); }
      var u := us[m - 1];
      var before := Uncut(md5, us[..m - 1], max, total);
      var mine := PointsOf(md5, Prefix(u), u, POINTS_PER_HASH * Hashes(u, max, total));
      CutSplit(before, mine, cap);
      OwnedInBoth(Cut(before, cap), Cut(mine, Max(0, cap - |before|)), us[j]);
      CutMine(md5, u, POINTS_PER_HASH * Hashes(u, max, total), Max(0, cap - |before|), us[j]);
    }
  }

  lemma SameIndex(us: seq<Upstream>, i: nat, j: nat)
    requires NoDup(us) && i < |us| && j < |us|
    ensures us[i] == us[j] <==> i == j
  {
  }

  lemma UncutPoints(md5: MD5, us: seq<Upstream>, n: nat, max: u32, total: u32)
    requires total > 0 && n < |us|
    ensures Uncut(md5, us[..n + 1], max, total)
         == Uncut(md5, us[..n], max, total)
          + PointsOf(md5, Prefix(us[n]), us[n], POINTS_PER_HASH * Hashes(us[n], max, total))
  {
    hide Hashes, PointsOf;
    assert us[..n + 1][..n] == us[..n];
  }

  lemma CutNone(md5: MD5, us: seq<Upstream>, max: u32, total: u32, cap: nat)
    requires total > 0
    ensures Cut(Uncut(md5, us[..0], max, total), cap) == []
  {
  }

  lemma CutMine(md5: MD5, u: Upstream, n: nat, cap: nat, v: Upstream)
    ensures OwnedBy(Cut(PointsOf(md5, Prefix(u), u, n), cap), v) == if v == u then Min(n, cap) else 0
  {
    hide GetKetamaHash, OwnedBy;
    MineOnly(md5, Prefix(u), u, n);
    OwnedByOne(Cut(PointsOf(md5, Prefix(u), u, n), cap), u, v);
  }

  /** How many points of the ring each upstream owns, for all weights. */
  lemma OwnedPoints(md5: MD5, us: seq<Upstream>, j: nat)
    requires Divisible(us) && NoDup(us) && j < |us|
    ensures OwnedBy(Ring(md5, us), us[j]) == Left(md5, us, j)
  {
    hide Hashes, Cut, OwnedBy, PointsOf, Uncut, MaxPoints, TotalWeight;
    CutOwned(md5, us, |us|, j, MaxPoints(us), TotalWeight(us) % UINT32, MaxPoints(us));
    assert us[..|us|] == us;
  }

  /** So the last upstreams can be left without any point: the one at index j owns one exactly when
      the points of those before it do not use up the maximum. */
  lemma OwnsAPoint(md5: MD5, us: seq<Upstream>, j: nat)
    requires Regular(us) && NoDup(us) && j < |us|
    ensures (exists p :: p in Ring(md5, us) && p.owner == us[j])
       <==> |Uncut(md5, us[..j], MaxPoints(us), TotalWeight(us))| < POINTS_PER_SERVER * |us|
  {
    hide Ring, TotalWeight, MaxPoints, Uncut, OwnedBy, Hashes, NoDup;
    RegularDivides(us);
    OwnedPoints(md5, us, j);
    OwnsSome(Ring(md5, us), us[j]);
    RingIsCut(md5, us);
    SomeHash(us, us[j]);
  }

  /** Every upstream has at least one hash before the cut, also one without weight. */
  lemma SomeHash(us: seq<Upstream>, u: Upstream)
    requires Regular(us) && u in us
    ensures Hashes(u, MaxPoints(us), TotalWeight(us)) > 0
  {
    hide TotalWeight, MaxPoints, Hashes;
    Overfull(us, u);
    if Hashes(u, MaxPoints(us), TotalWeight(us)) == 0 {
      assert false;
    }
  }

  /** With equal weights the upstream at index j owns a point exactly when 164 * j < 160 * n. */
  lemma OwnsEqual(md5: MD5, us: seq<Upstream>, w: u32, j: nat)
    requires Regular(us) && NoDup(us) && j < |us| && Equal(us, w)
    ensures (exists p :: p in Ring(md5, us) && p.owner == us[j]) <==> ROUNDED * j < POINTS_PER_SERVER * |us|
  {
    hide Ring, TotalWeight, MaxPoints, Uncut, NoDup, Regular, Equal;
    OwnsAPoint(md5, us, j);
    UncutAt(md5, us, w, j, 0);
  }

  /** So the last one has none from 41 upstreams on. */
  lemma LastOfFortyOne(md5: MD5, us: seq<Upstream>, w: u32)
    requires Regular(us) && NoDup(us) && us != [] && Equal(us, w)
    ensures (forall p :: p in Ring(md5, us) ==> p.owner != us[|us| - 1]) <==> |us| >= 41
  {
    hide Ring, Regular, Equal, NoDup;
    OwnsEqual(md5, us, w, |us| - 1);
  }

  /* ---------- Consistent hashing ---------- */

  lemma LargerRing(small: seq<Point>, large: seq<Point>, h: u32, p: Point, q: Point)
    requires DistinctPoints(large) && forall x :: x in small ==> x in large
    requires Follows(small, h, p) && Follows(large, h, q)
    ensures q == p || q !in small
  {
    if q in small {
      assert p in large;
      assert p.point >= h <==> q.point >= h;
    }
  }

  lemma StillEqual(us: seq<Upstream>, u: Upstream, w: u32)
    requires Equal(us + [u], w)
    ensures Equal(us, w)
  {
    assert forall v :: v in us ==> v in us + [u];
  }

  lemma EqualPrefix(md5: MD5, us: seq<Upstream>, u: Upstream, w: u32)
    requires Regular(us) && Regular(us + [u]) && Equal(us + [u], w)
    ensures Ring(md5, us) <= Ring(md5, us + [u])
  {
    hide Ring, PointAt, Regular, Equal, TotalWeight;
    RegularDivides(us);
    RegularDivides(us + [u]);
    RingSize(md5, us);
    RingSize(md5, us + [u]);
    StillEqual(us, u, w);
    forall k | 0 <= k < |Ring(md5, us)| ensures Ring(md5, us)[k] == Ring(md5, us + [u])[k] {
      EqualRing(md5, us, w, k);
      EqualRing(md5, us + [u], w, k);
    }
  }

  /** Adding an upstream at the end of the list changes an answer only to the new upstream or to one
      of the last old ones, some of whose points the smaller ring had cut. */
  lemma OnlyToTheNewOrCut(md5: MD5, us: seq<Upstream>, u: Upstream, w: u32, path: string, a: Upstream, b: Upstream)
    requires Regular(us) && Regular(us + [u]) && Equal(us + [u], w)
    requires DistinctPoints(Ring(md5, us + [u]))
    requires Answers(md5, us, path, Some(a)) && Answers(md5, us + [u], path, Some(b))
    ensures b == a || exists j :: 0 <= j <= |us| && b == (us + [u])[j] && POINTS_PER_SERVER * |us| < ROUNDED * (j + 1)
  {
    hide GetKetamaHash, Hex, PointAt, TotalWeight, Ring, Follows, Regular, Equal, DistinctPoints;
    RegularDivides(us);
    RegularDivides(us + [u]);
    var h := GetKetamaHash(md5, Hex(md5(path)), 0);
    var p :| Follows(Ring(md5, us), h, p) && p.owner == a;
    var q :| Follows(Ring(md5, us + [u]), h, q) && q.owner == b;
    EqualPrefix(md5, us, u, w);
    RingSize(md5, us);
    RingSize(md5, us + [u]);
    var small, large := Ring(md5, us), Ring(md5, us + [u]);
    LargerRing(small, large, h, p, q);
    if q != p {
      InRing(large, h, q);
      var k := NewIndex(small, large, q);
      NewPoint(md5, us, u, w, k);
    }
  }

  lemma InRing(ring: seq<Point>, h: u32, p: Point)
    requires Follows(ring, h, p)
    ensures p in ring
  {
  }

  lemma NewIndex(small: seq<Point>, large: seq<Point>, q: Point) returns (k: nat)
    requires small <= large && q in large && q !in small
    ensures |small| <= k < |large| && large[k] == q
  {
    k :| 0 <= k < |large| && large[k] == q;
    assert forall i :: 0 <= i < |small| ==> large[i] in small;
  }

  lemma NewPoint(md5: MD5, us: seq<Upstream>, u: Upstream, w: u32, k: nat)
    requires Regular(us) && Regular(us + [u]) && Equal(us + [u], w)
    requires POINTS_PER_SERVER * |us| <= k < POINTS_PER_SERVER * |us + [u]|
    ensures |Ring(md5, us + [u])| == POINTS_PER_SERVER * |us + [u]|
    ensures var j := k / ROUNDED;
            j <= |us| && Ring(md5, us + [u])[k].owner == (us + [u])[j] && POINTS_PER_SERVER * |us| < ROUNDED * (j + 1)
  {
    hide GetKetamaHash, TotalWeight, Ring, Regular, Prefix, Equal;
    EqualRing(md5, us + [u], w, k);
    DivBounds(k, ROUNDED);
  }
}
