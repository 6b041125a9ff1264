/** Upstreams, points and hashes, which the two Ketama balancers share. */
module Continuum {
  import opened ObjectIndexes
  import opened Arithmetic
  import opened Decimal

  type u32 = n: nat | n < UINT32

  type Digest = d: Bytes | |d| == 16 witness seq(16, _ => 0)

  /** The hash function. Nothing is known about it. */
  type MD5 = string -> Digest

  datatype Upstream = Upstream(host: string, port: string, weight: u32)

  datatype Point = Point(owner: Upstream, point: u32)

  const POINTS_PER_SERVER := 160

  const POINTS_PER_HASH := 4

  /** Four bytes of the digest, the least significant first. */
  function GetKetamaHash(md5: MD5, key: string, alignment: nat): u32
    requires alignment < POINTS_PER_HASH
  {
    var d, a := md5(key), 4 * alignment;
    var n: int := d[a + 3];
    var n: int := 0x100 * n + d[a + 2];
    var n: int := 0x100 * n + d[a + 1];
    0x100 * n + d[a]
  }

  /** Byte j of the hash, counted from the least significant one, is byte 4 * alignment + j of the
      digest. */
  lemma HashBytes(md5: MD5, key: string, alignment: nat)
    requires alignment < POINTS_PER_HASH
    ensures var h, d := GetKetamaHash(md5, key, alignment), md5(key);
            && h % 0x100 == d[4 * alignment]
            && h / 0x100 % 0x100 == d[4 * alignment + 1]
            && h / 0x1_0000 % 0x100 == d[4 * alignment + 2]
            && h / 0x100_0000 == d[4 * alignment + 3]
  {
    var d, a := md5(key), 4 * alignment;
    FourBytes(d[a], d[a + 1], d[a + 2], d[a + 3]);
  }

  lemma FourBytes(b0: Byte, b1: Byte, b2: Byte, b3: Byte)
    ensures var h: int := 0x100 * (0x100 * (0x100 * b3 + b2) + b1) + b0;
            h % 0x100 == b0 && h / 0x100 % 0x100 == b1 && h / 0x1_0000 % 0x100 == b2 && h / 0x100_0000 == b3
  {
    var h: int := 0x100 * (0x100 * (0x100 * b3 + b2) + b1) + b0;
    DivIs(h, 0x100, 0x100 * (0x100 * b3 + b2) + b1);
    DivIs(0x100 * (0x100 * b3 + b2) + b1, 0x100, 0x100 * b3 + b2);
    DivIs(h, 0x1_0000, 0x100 * b3 + b2);
    DivIs(0x100 * b3 + b2, 0x100, b3);
    DivIs(h, 0x100_0000, b3);
  }

  /** So two hashes are equal exactly when their four bytes are. */
  lemma HashesEqual(md5: MD5, key: string, alignment: nat, other: string, otherAlignment: nat)
    requires alignment < POINTS_PER_HASH && otherAlignment < POINTS_PER_HASH
    ensures GetKetamaHash(md5, key, alignment) == GetKetamaHash(md5, other, otherAlignment)
       <==> md5(key)[4 * alignment..4 * alignment + 4] == md5(other)[4 * otherAlignment..4 * otherAlignment + 4]
  {
    HashBytes(md5, key, alignment);
    HashBytes(md5, other, otherAlignment);
    var d, e := md5(key)[4 * alignment..4 * alignment + 4], md5(other)[4 * otherAlignment..4 * otherAlignment + 4];
    assert d == [md5(key)[4 * alignment], md5(key)[4 * alignment + 1], md5(key)[4 * alignment + 2],
                 md5(key)[4 * alignment + 3]];
    assert e == [md5(other)[4 * otherAlignment], md5(other)[4 * otherAlignment + 1],
                 md5(other)[4 * otherAlignment + 2], md5(other)[4 * otherAlignment + 3]];
    FourBytesOnly(GetKetamaHash(md5, key, alignment), d[0], d[1], d[2], d[3]);
    FourBytesOnly(GetKetamaHash(md5, other, otherAlignment), e[0], e[1], e[2], e[3]);
  }

  lemma FourBytesOnly(h: u32, b0: Byte, b1: Byte, b2: Byte, b3: Byte)
    requires h % 0x100 == b0 && h / 0x100 % 0x100 == b1 && h / 0x1_0000 % 0x100 == b2 && h / 0x100_0000 == b3
    ensures h == 0x100 * (0x100 * (0x100 * b3 as int + b2) + b1) + b0
  {
  }

  /** What is hashed for a point ends with its number: nothing before it and no other number makes the
      same string. */
  lemma NumberedKeys(a: string, i: nat, b: string, j: nat)
    ensures a + "-" + FormatUint(i) == b + "-" + FormatUint(j) <==> a == b && i == j
  {
    var x, y := FormatUint(i), FormatUint(j);
    ValueOfFormat(i);
    ValueOfFormat(j);
    if a + "-" + x == b + "-" + y {
      LastHyphen(a, x, b, y);
    }
  }

  lemma LastHyphen(a: string, x: string, b: string, y: string)
    requires '-' !in x && '-' !in y && a + "-" + x == b + "-" + y
    ensures a == b && x == y
  {
    var s := a + "-" + x;
    assert s[|a|] == '-' && s[|b|] == '-';
    assert forall k :: |a| < k < |s| ==> s[k] == x[k - |a| - 1];
    assert forall k :: |b| < k < |s| ==> s[k] == y[k - |b| - 1];
    assert |a| == |b|;
    assert a == s[..|a|] && b == s[..|b|];
    assert x == s[|a| + 1..] && y == s[|b| + 1..];
  }

  /** Neither do two addresses. */
  lemma AddressKeys(host: string, port: string, otherHost: string, otherPort: string)
    requires ':' !in host && ':' !in otherHost
    ensures host + ":" + port == otherHost + ":" + otherPort <==> host == otherHost && port == otherPort
  {
    if host + ":" + port == otherHost + ":" + otherPort {
      IndexAfter(host, ':', port);
      IndexAfter(otherHost, ':', otherPort);
      var s := host + ":" + port;
      assert host == s[..|host|] && port == s[|host| + 1..];
      assert otherHost == s[..|host|] && otherPort == s[|host| + 1..];
    }
  }

  function PointAt(md5: MD5, prefix: string, u: Upstream, k: nat): Point {
    Point(u, GetKetamaHash(md5, prefix + "-" + FormatUint(k / POINTS_PER_HASH), k % POINTS_PER_HASH))
  }

  /** The first n points of an upstream. */
  function PointsOf(md5: MD5, prefix: string, u: Upstream, n: nat): (r: seq<Point>)
    ensures |r| == n && forall k :: 0 <= k < n ==> r[k] == PointAt(md5, prefix, u, k)
  {
    seq(n, k requires 0 <= k < n => PointAt(md5, prefix, u, k))
  }

  lemma PointsOfNext(md5: MD5, prefix: string, u: Upstream, i: nat, x: nat)
    requires x < POINTS_PER_HASH
    ensures PointsOf(md5, prefix, u, POINTS_PER_HASH * i + x + 1)
         == PointsOf(md5, prefix, u, POINTS_PER_HASH * i + x)
          + [Point(u, GetKetamaHash(md5, prefix + "-" + FormatUint(i), x))]
  {
    hide FormatUint, GetKetamaHash;
    var k := POINTS_PER_HASH * i + x;
    assert k / POINTS_PER_HASH == i && k % POINTS_PER_HASH == x;
  }

  function TotalWeight(us: seq<Upstream>): nat {
    if us == [] then 0 else TotalWeight(us[..|us| - 1]) + us[|us| - 1].weight
  }

  /** The sum that the loop over the upstreams arrives at. */
  method SumWeights(us: seq<Upstream>) returns (total: u32)
    ensures total == TotalWeight(us) % UINT32
  {
    total := 0;
    for j := 0 to |us|
      invariant total == TotalWeight(us[..j]) % UINT32
    {
      assert us[..j + 1][..j] == us[..j];
      total := (total + us[j].weight) % UINT32;
    }
    assert us[..|us|] == us;
  }

  /** Division by the wrapped sum of the weights. */
  predicate Divisible(us: seq<Upstream>) { us == [] || TotalWeight(us) % UINT32 > 0 }

  function MaxPoints(us: seq<Upstream>): u32 { |us| % UINT32 * POINTS_PER_SERVER % UINT32 }

  /** The share of an upstream, in 32-bit arithmetic. */
  function Share(weight: u32, max: u32, total: u32): (s: u32)
    requires total > 0
  {
    Quotient(weight * max, total)
  }

  /** The quotient of a product that may have wrapped. */
  function Quotient(x: nat, total: u32): u32
    requires total > 0
  {
    DivLess(x % UINT32, total);
    x % UINT32 / total
  }

  lemma DivLess(y: nat, d: nat)
    requires d > 0
    ensures 0 <= y / d <= y
  {
    DivBounds(y, d);
    MulMono(1, d, y / d);
  }

  /** No product or sum wraps, and there is some weight. */
  ghost predicate Regular(us: seq<Upstream>) {
    && 0 < TotalWeight(us) < UINT32
    && POINTS_PER_SERVER * |us| < UINT32
    && forall u :: u in us ==> u.weight * (POINTS_PER_SERVER * |us|) < UINT32
  }

  lemma RegularMax(us: seq<Upstream>)
    requires POINTS_PER_SERVER * |us| < UINT32
    ensures MaxPoints(us) == POINTS_PER_SERVER * |us|
  {
    SmallMod(|us|, UINT32);
    SmallMod(|us| * POINTS_PER_SERVER, UINT32);
  }

  /** Without wrapping the share is the exact proportion, rounded down. */
  lemma ShareBounds(weight: u32, max: u32, total: u32)
    requires total > 0 && weight * max < UINT32
    ensures Share(weight, max, total) * total <= weight * max < Share(weight, max, total) * total + total
  {
    hide Quotient;
    QuotientBounds(weight * max, total);
  }

  /** The product wraps around at 2^32 before it is divided. */
  lemma WrappedShare(weight: u32, max: u32, total: u32)
    requires total > 0
    ensures var r := weight * max - UINT32 * (weight * max / UINT32);
            0 <= r < UINT32 && Share(weight, max, total) * total <= r < Share(weight, max, total) * total + total
  {
    WrappedQuotient(weight * max, total);
  }

  lemma WrappedQuotient(x: nat, total: u32)
    requires total > 0
    ensures var r := x - UINT32 * (x / UINT32);
            0 <= r < UINT32 && Quotient(x, total) * total <= r < Quotient(x, total) * total + total
  {
    DivBounds(x, UINT32);
    DivBounds(x % UINT32, total);
  }

  /** So do the number of upstreams and its product. */
  lemma WrappedMax(us: seq<Upstream>)
    ensures MaxPoints(us) == POINTS_PER_SERVER * |us| - UINT32 * (POINTS_PER_SERVER * |us| / UINT32)
  {
    var q, r := |us| / UINT32, |us| % UINT32;
    DivBounds(|us|, UINT32);
    var k := r * POINTS_PER_SERVER / UINT32;
    DivBounds(r * POINTS_PER_SERVER, UINT32);
    DivIs(POINTS_PER_SERVER * |us|, UINT32, POINTS_PER_SERVER * q + k);
  }

  lemma QuotientBounds(x: nat, total: u32)
    requires total > 0 && x < UINT32
    ensures Quotient(x, total) * total <= x < Quotient(x, total) * total + total
  {
    SmallMod(x, UINT32);
    DivBounds(x, total);
  }

  ghost predicate Equal(us: seq<Upstream>, w: u32) { forall u :: u in us ==> u.weight == w }

  /** With equal weights each share is exactly the points of one server. */
  lemma EqualShare(us: seq<Upstream>, w: u32)
    requires Regular(us) && Equal(us, w)
    ensures us != [] ==> Share(w, MaxPoints(us), TotalWeight(us)) == POINTS_PER_SERVER
  {
    RegularMax(us);
    EqualTotal(us, w);
    if us != [] {
      assert us[0] in us;
      var s, t := Share(w, MaxPoints(us), TotalWeight(us)), TotalWeight(us);
      ShareBounds(w, MaxPoints(us), t);
      Reorder(w, |us|);
      MulCancel(s, POINTS_PER_SERVER, t);
      MulCancel(POINTS_PER_SERVER, s, t);
    }
  }

  lemma Reorder(w: nat, n: nat)
    ensures w * (POINTS_PER_SERVER * n) == POINTS_PER_SERVER * (w * n)
  {
  }

  lemma {:induction false} EqualTotal(us: seq<Upstream>, w: u32)
    requires Equal(us, w)
    ensures TotalWeight(us) == w * |us|
  {
    if us != [] {
      EqualTotal(us[..|us| - 1], w);
      assert us[|us| - 1] in us;
      MulNext(|us| - 1, w);
    }
  }

  lemma SameElements<T>(a: seq<T>, b: seq<T>)
    requires multiset(a) == multiset(b)
    ensures |a| == |b| && forall x :: x in a <==> x in b
  {
    assert |a| == |multiset(a)| && |b| == |multiset(b)|;
    forall x ensures x in a <==> x in b {
      assert x in a <==> x in multiset(a);
      assert x in b <==> x in multiset(b);
    }
  }

  ghost predicate DistinctPoints(s: seq<Point>) {
    forall p, q :: p in s && q in s && p.point == q.point ==> p == q
  }

  /** How many of the points belong to an upstream. */
  function OwnedBy(s: seq<Point>, u: Upstream): nat {
    if s == [] then 0 else OwnedBy(s[..|s| - 1], u) + (if s[|s| - 1].owner == u then 1 else 0)
  }

  lemma {:induction false} OwnedInBoth(a: seq<Point>, b: seq<Point>, u: Upstream)
    ensures OwnedBy(a + b, u) == OwnedBy(a, u) + OwnedBy(b, u)
  {
    if b == [] {
      assert a + b == a;
    } else {
      assert (a + b)[..|a + b| - 1] == a + b[..|b| - 1];
      OwnedInBoth(a, b[..|b| - 1], u);
    }
  }

  lemma {:induction false} OwnedByOne(s: seq<Point>, v: Upstream, u: Upstream)
    requires forall k :: 0 <= k < |s| ==> s[k].owner == v
    ensures OwnedBy(s, u) == if u == v then |s| else 0
  {
    if s != [] {
      OwnedByOne(s[..|s| - 1], v, u);
    }
  }

  lemma MineOnly(md5: MD5, prefix: string, u: Upstream, n: nat)
    ensures forall k :: 0 <= k < n ==> PointsOf(md5, prefix, u, n)[k].owner == u
  {
    hide GetKetamaHash;
  }

  lemma {:induction false} OwnsSome(s: seq<Point>, u: Upstream)
    ensures (exists p :: p in s && p.owner == u) <==> OwnedBy(s, u) > 0
  {
    if s != [] {
      var n := |s| - 1;
      assert s == s[..n] + [s[n]];
      OwnsSome(s[..n], u);
    }
  }
}
