/** ReadFrom of utils/netutils/timeout_conn.go, which a response can reach when it is copied to. */
module TimeoutConn {
  import opened ObjectIndexes
  import opened LimitedCopy

  class Conn {
    const maxSizeOfTransfer: int
    var sent: Bytes

    constructor (maxSizeOfTransfer: int)
      ensures this.maxSizeOfTransfer == maxSizeOfTransfer && sent == []
    {
      this.maxSizeOfTransfer, sent := maxSizeOfTransfer, [];
    }

    /** Calls CopyN until it copies less than the maximum. Only a limit that is not above the maximum
        is ever counted down, so limits that are all above it are not kept to at all. */
    method ReadFrom(r: Reader) returns (n: nat)
      requires maxSizeOfTransfer >= 1
      modifies this
      ensures sent == old(sent) + Transferred(r, maxSizeOfTransfer) && n == |Transferred(r, maxSizeOfTransfer)|
    {
      hide CopyN, Going, Done, Transferred, Innermost;
      var max := maxSizeOfTransfer;
      FirstTransfer(r, max);
      var cur, nn, eof := r, max, false;
      n := 0;
      ghost var copied: Bytes := [];
      while !eof && nn == max
        invariant sent == old(sent) + copied && n == |copied| && nn <= max
        invariant Going(r, max, cur, copied, nn) || Done(r, max, cur, copied, nn)
        invariant eof || nn < max ==> copied == Transferred(r, max)
        decreases !eof && nn == max, |Innermost(cur)|
      {
        var o := CopyN(cur, max);
        NextTransfer(r, max, cur, copied, nn);
        nn, eof, cur := |o.written|, o.eof, o.left;
        sent := sent + o.written;
        n := n + nn;
        copied := copied + o.written;
      }
    }
  }

  predicate AllAbove(r: Reader, max: int) { forall n :: n in Limits(r) ==> n > max }

  function Transferred(r: Reader, max: int): Bytes {
    if AllAbove(r, max) then Innermost(r) else Take(Innermost(r), Least(max, Limits(r)))
  }

  /** All limits are above the maximum, or nothing was copied yet. */
  ghost predicate Going(r: Reader, max: int, cur: Reader, copied: Bytes, nn: int) {
    if AllAbove(r, max) then Limits(cur) == Limits(r) && copied + Innermost(cur) == Innermost(r)
    else cur == r && copied == [] && nn == max
  }

  /** A limit was reached, and one that is left allows nothing more. */
  ghost predicate Done(r: Reader, max: int, cur: Reader, copied: Bytes, nn: int) {
    && !AllAbove(r, max) && copied == Transferred(r, max)
    && (nn == max ==> exists n :: n in Limits(cur) && n <= 0)
  }

  lemma FirstTransfer(r: Reader, max: int)
    ensures Going(r, max, r, [], max)
  {
    assert [] + Innermost(r) == Innermost(r);
  }

  lemma NextTransfer(r: Reader, max: int, cur: Reader, copied: Bytes, nn: int)
    requires max >= 1 && nn == max && (Going(r, max, cur, copied, nn) || Done(r, max, cur, copied, nn))
    ensures var o := CopyN(cur, max);
            var now, k := copied + o.written, |o.written|;
            && k <= max
            && (Going(r, max, o.left, now, k) || Done(r, max, o.left, now, k))
            && (o.eof || k < max ==> now == Transferred(r, max))
            && (k == max ==> |Innermost(o.left)| < |Innermost(cur)|)
  {
    hide CopyN;
    var o := CopyN(cur, max);
    CopiesTheLeast(cur, max);
    LeftBehind(cur, max);
    EarlyEnd(cur, max);
    var least := Least(max, Limits(cur));
    if AllAbove(r, max) {
      assert AllAbove(cur, max) && least == max;
      assert o.written + Innermost(o.left) == Innermost(cur);
    } else if Done(r, max, cur, copied, nn) {
      assert least <= 0 && o.written == [];
    } else {
      assert o.written == Transferred(r, max) && copied + o.written == o.written;
    }
  }

  /** What is sent is what reading through all limits would give, if and only if some limit is not
      above the maximum or none is below what the source has. */
  lemma KeepsLimits(r: Reader, max: int)
    requires max >= 1
    ensures Transferred(r, max) == Copy(r)
       <==> !AllAbove(r, max) || forall n :: n in Limits(r) ==> |Innermost(r)| <= n
  {
    if r.Limited? {
      CopyMeans(r, max);
      MemberLimits(r);
      var all, own := Least(max, Limits(r)), Least(r.n, Limits(r.inner));
      assert own in Limits(r) && forall n :: n in Limits(r) ==> own <= n;
      if !AllAbove(r, max) {
        assert all == own;
      } else {
        assert own > max;
      }
    }
  }
}
