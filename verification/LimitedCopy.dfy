/** utils.CopyN: copying from readers that are wrapped in any number of limits. */
module LimitedCopy {
  import opened ObjectIndexes

  /** A source that still has some data to give, or a limit of n bytes on another reader. */
  datatype Reader = Source(data: Bytes) | Limited(inner: Reader, n: int)

  /** What was written, whether the caller is told that the data ended early, and the reader as it is
      afterwards. */
  datatype Outcome = Outcome(written: Bytes, eof: bool, left: Reader)

  /** io.Copy: reads a reader to its end, which is no error. */
  function Copy(r: Reader): Bytes {
    match r
    case Source(data) => data
    case Limited(inner, n) => Take(Copy(inner), n)
  }

  /** The reader after k bytes were read through it: every limit on the way is counted down. */
  function Advanced(r: Reader, k: nat): Reader {
    match r
    case Source(data) => Source(data[Min(k, |data|)..])
    case Limited(inner, n) => Limited(Advanced(inner, k), n - k)
  }

  /** utils.CopyN, with io.CopyN in the last branch. A limit that it goes past stays as it is. */
  function CopyN(r: Reader, limit: int): Outcome {
    match r
    case Limited(inner, n) =>
      if n <= limit then
        if inner.Limited? && inner.n <= n then
          var o := CopyN(inner, n);
          o.(left := Limited(o.left, n))
        else Outcome(Copy(r), false, Advanced(r, |Copy(r)|))
      else
        var o := CopyN(inner, limit);
        o.(left := Limited(o.left, n))
    case Source(data) => Outcome(Take(data, limit), |data| < limit, Source(data[|Take(data, limit)|..]))
  }

  function Innermost(r: Reader): Bytes {
    match r
    case Source(data) => data
    case Limited(inner, _) => Innermost(inner)
  }

  function Limits(r: Reader): seq<int> {
    match r
    case Source(_) => []
    case Limited(inner, n) => [n] + Limits(inner)
  }

  /** The smallest of a number and some limits. */
  function Least(limit: int, ns: seq<int>): (m: int)
    ensures m <= limit && forall k :: 0 <= k < |ns| ==> m <= ns[k]
    ensures m == limit || m in ns
    decreases ns
  {
    if ns == [] then limit
    else
      var rest := Least(Min(limit, ns[0]), ns[1..]);
      assert forall k :: 1 <= k < |ns| ==> ns[k] == ns[1..][k - 1];
      rest
  }

  lemma {:induction false} LeastOfLess(a: int, b: int, ns: seq<int>)
    ensures Least(Min(a, b), ns) == Min(a, Least(b, ns))
    decreases ns
  {
    if ns != [] {
      LeastOfLess(a, Min(b, ns[0]), ns[1..]);
      assert Min(Min(a, b), ns[0]) == Min(a, Min(b, ns[0]));
    }
  }

  lemma TakeLess(s: Bytes, a: int, b: int)
    ensures Take(Take(s, a), b) == Take(s, Min(b, a))
  {
  }

  lemma {:induction false} CopyMeans(r: Reader, limit: int)
    ensures Take(Copy(r), limit) == Take(Innermost(r), Least(limit, Limits(r)))
    ensures r.Limited? ==> Copy(r) == Take(Innermost(r), Least(r.n, Limits(r.inner)))
  {
    if r.Limited? {
      hide Take, Min;
      CopyMeans(r.inner, Min(limit, r.n));
      CopyMeans(r.inner, r.n);
      TakeLess(Copy(r.inner), r.n, limit);
      assert Limits(r)[1..] == Limits(r.inner);
    }
  }

  /** However the limits are nested, exactly the first bytes of the innermost source are copied, as
      many as the argument, every limit and the source allow. */
  lemma {:induction false} CopiesTheLeast(r: Reader, limit: int)
    ensures CopyN(r, limit).written == Take(Innermost(r), Least(limit, Limits(r)))
  {
    if r.Limited? {
      assert Limits(r)[1..] == Limits(r.inner);
      CopyMeans(r, limit);
      if r.n > limit {
        CopiesTheLeast(r.inner, limit);
      } else if r.inner.Limited? && r.inner.n <= r.n {
        CopiesTheLeast(r.inner, r.n);
      }
    }
  }

  /** The caller hears of an early end exactly when no limit is as small as the argument and the
      source holds less than was asked for: a limit hides the shortage. */
  lemma {:induction false} EarlyEnd(r: Reader, limit: int)
    ensures CopyN(r, limit).eof
       <==> ((forall n :: n in Limits(r) ==> n > limit) && |Innermost(r)| < limit)
  {
    if r.Limited? {
      assert Limits(r)[0] in Limits(r);
      assert forall n :: n in Limits(r) <==> n == r.n || n in Limits(r.inner);
      EarlyEnd(r.inner, limit);
      EarlyEnd(r.inner, r.n);
      if r.inner.Limited? {
        assert Limits(r.inner)[0] in Limits(r.inner);
      }
    }
  }

  lemma {:induction false} AdvancedMeans(r: Reader, k: nat)
    requires k <= |Innermost(r)|
    ensures Innermost(Advanced(r, k)) == Innermost(r)[k..]
    ensures |Limits(Advanced(r, k))| == |Limits(r)|
    ensures forall j :: 0 <= j < |Limits(r)| ==> Limits(Advanced(r, k))[j] == Limits(r)[j] - k
  {
    if r.Limited? {
      AdvancedMeans(r.inner, k);
    }
  }

  /** What is copied is gone from the source. No limit is counted down if all of them are above the
      argument; otherwise one of those that are not is, by all that was copied. */
  lemma {:induction false} LeftBehind(r: Reader, limit: int)
    ensures var o := CopyN(r, limit);
            && |o.written| <= |Innermost(r)| && Innermost(o.left) == Innermost(r)[|o.written|..]
            && if forall n :: n in Limits(r) ==> n > limit then Limits(o.left) == Limits(r)
               else exists n :: n in Limits(o.left) && n <= limit - |o.written|
  {
    var o := CopyN(r, limit);
    if r.Limited? {
      MemberLimits(r);
      MemberLimits(o.left);
      if r.n > limit {
        LeftBehind(r.inner, limit);
      } else if r.inner.Limited? && r.inner.n <= r.n {
        LeftBehind(r.inner, r.n);
        MemberLimits(r.inner);
        assert r.n in Limits(r) && r.inner.n in Limits(r.inner);
        var o' := CopyN(r.inner, r.n);
        var m :| m in Limits(o'.left) && m <= r.n - |o'.written|;
        assert m in Limits(o.left) && m <= limit - |o.written|;
      } else {
        CopyLength(r);
        AdvancedMeans(r, |o.written|);
        assert r.n - |o.written| in Limits(o.left);
      }
    }
  }

  lemma MemberLimits(r: Reader)
    requires r.Limited?
    ensures forall n :: n in Limits(r) <==> n == r.n || n in Limits(r.inner)
  {
    assert Limits(r)[0] == r.n;
  }

  lemma {:induction false} CopyLength(r: Reader)
    ensures |Copy(r)| <= |Innermost(r)|
  {
    if r.Limited? {
      CopyLength(r.inner);
    }
  }
}
