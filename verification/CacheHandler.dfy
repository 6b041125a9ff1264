/** Requests for an object with known metadata, from the client's header to the bytes that it
    gets, and the way of those bytes into and out of the storage. */
module CacheHandler {
  import opened ObjectIndexes
  import opened ByteRanges
  import opened RangeServer
  import opened Readers
  import Decimal
  import PartWriter

  /** What the client receives besides the body. */
  datatype Reply =
    | NotSatisfiable                                        // status 416
    | Forwarded                                             // left to the upstream
    | Partial(contentRange: string, length: nat, complete: bool)  // status 206

  /** The reply and the body follow from the header and from whether only headers are asked for: was
      and now are what the response held before and after. */
  ghost predicate Replied(object_: Bytes, header: string, head: bool, was: Bytes, now: Bytes, reply: Reply)
    requires |object_| < UINT64
  {
    var p := Answer(header, |object_|);
    match reply
    case NotSatisfiable => p == Invalid && now == was
    case Forwarded => (p.Absent? || (p.Header? && |p.value| != 1)) && now == was
    case Partial(contentRange, length, complete) =>
      p.Header? && |p.value| == 1 && Inside(p.value[0], |object_|)
      && length == p.value[0].length
      && contentRange == ContentRangeHeader(p.value[0], |object_|)
      && if head then now == was && complete
         else Copied(was, object_[p.value[0].start..p.value[0].start + p.value[0].length], now, complete)
  }

  method KnownRanged(h: ReqHandler, header: string, head: bool) returns (reply: Reply)
    requires h.InRange() && |h.object_| < UINT64
    modifies h`log, h.resp
    ensures Replied(h.object_, header, head, old(h.resp.written), h.resp.written, reply)
    ensures reply.Partial? ==> reply.complete || !h.reliable || h.resp.broken
  {
    hide Parses, Copied, ContentRangeHeader, Answer;
    var parsed := ParseRequestRange(header, |h.object_|);
    if parsed.Invalid? {
      return NotSatisfiable;
    }
    if parsed.Absent? || |parsed.value| != 1 {
      return Forwarded;
    }
    var reqRange := parsed.value[0];
    var complete := true;
    if !head {
      complete := h.LazilyRespond(reqRange.start, reqRange.start + reqRange.length - 1);
    }
    reply := Partial(ContentRangeHeader(reqRange, |h.object_|), reqRange.length, complete);
  }

  /** All of the object. */
  method KnownFull(h: ReqHandler, head: bool) returns (complete: bool)
    requires h.InRange() && h.object_ != []
    modifies h`log, h.resp
    ensures if head then h.resp.written == old(h.resp.written) && complete
            else Copied(old(h.resp.written), h.object_, h.resp.written, complete)
    ensures complete || !h.reliable || h.resp.broken
  {
    hide Copied;
    if head {
      return true;
    }
    var responseSize := |h.object_|;
    if responseSize != 0 {
      responseSize := responseSize - 1;
    }
    complete := h.LazilyRespond(0, responseSize);
    assert h.object_[0..|h.object_|] == h.object_;
  }

  /** A client that asks for one range: it is refused exactly when it asks for nothing that exists, or
      in numbers beyond 64 bits. Otherwise the Content-Range header, as this project's own parser
      reads it, names exactly the positions that were asked for, and the body is those bytes. */
  ghost predicate Serves(object_: Bytes, b: ByteSpec, was: Bytes, now: Bytes, reply: Reply) {
    && !reply.Forwarded?
    && (reply.NotSatisfiable? <==> !Acceptable(b, |object_|))
    && (reply.Partial? ==>
          var cr := ParseResponseContentRange(reply.contentRange);
          && cr.Header? && cr.value.objSize == |object_| && cr.value.length == reply.length
          && (forall k: nat :: Covers(b, |object_|, k) <==> cr.value.start <= k < cr.value.start + cr.value.length)
          && Copied(was, object_[cr.value.start..cr.value.start + cr.value.length], now, reply.complete))
  }

  /** So it is in any spelling that section 2.1 of RFC 7233 allows with the unit in lower case. */
  lemma OneRangeServed(object_: Bytes, es: seq<ListElement>, b: ByteSpec, was: Bytes, now: Bytes, reply: Reply)
    requires 0 < |object_| < UINT64 && es != [] && (forall e :: e in es ==> Ruled(e)) && SpecsIn(es) == [b]
    requires Replied(object_, "bytes=" + Decimal.Join(Texts(es), ','), false, was, now, reply)
    ensures Serves(object_, b, was, now, reply)
  {
    hide Replied, Serves, Ruled, Spaced, Texts, SpecsIn;
    forall e | e in es ensures Spaced(e) { RuledIsSpaced(e); }
    SpacedRangeServed(object_, es, b, was, now, reply);
  }

  /** And with any white space, also next to the hyphen. */
  lemma SpacedRangeServed(object_: Bytes, es: seq<ListElement>, b: ByteSpec, was: Bytes, now: Bytes, reply: Reply)
    requires 0 < |object_| < UINT64 && es != [] && (forall e :: e in es ==> Spaced(e)) && SpecsIn(es) == [b]
    requires Replied(object_, "bytes=" + Decimal.Join(Texts(es), ','), false, was, now, reply)
    ensures Serves(object_, b, was, now, reply)
  {
    hide Parses, Copied, Acceptable, Covers, ParseResponseContentRange, ContentRangeHeader, Texts, SpecsIn, Answer;
    var p := Answer("bytes=" + Decimal.Join(Texts(es), ','), |object_|);
    SpacedHeaderMeans(es, |object_|, p);
    assert b in SpecsIn(es);
    PresentHeader(es, |object_|, p);
    if reply.Partial? {
      ContentRangeRoundTrip(p.value[0], |object_|);
      assert Agrees(b, |object_|, p.value[0]);
    }
  }

  lemma PresentHeader(es: seq<ListElement>, size: u64, p: Parsed<seq<Range>>)
    requires es != [] && Parses("bytes=" + Decimal.Join(Texts(es), ','), size, p)
    ensures !p.Absent?
  {
    hide Texts, Specs, ReadSpec, Decimal.Split;
    assert |"bytes=" + Decimal.Join(Texts(es), ',')| >= 6;
  }

  /** The parts that a writer saves are the parts that the range server may find: each holds its
      slice of the object. */
  lemma SavedIsServed(object_: Bytes, partSize: nat, start: nat, end: nat, s: PartWriter.Save)
    requires partSize > 0 && start <= end <= |object_|
    requires s in PartWriter.FinalParts(start, object_[start..end], partSize, |object_|)
    ensures s.part * partSize < |object_| && s.data != []
    ensures s.data == Slice(object_, s.part * partSize, (s.part + 1) * partSize)
  {
    hide PartWriter.FinalParts;
    PartWriter.FinalPartsExact(object_, partSize, start, end, s.part, s.data);
    PartIsSlice(object_, partSize, s.part);
  }

  lemma PartIsSlice(object_: Bytes, partSize: nat, p: nat)
    requires partSize > 0 && p * partSize < |object_|
    ensures PartWriter.PartBytes(object_, partSize, p) == Slice(object_, p * partSize, (p + 1) * partSize) != []
  {
    assert (p + 1) * partSize == p * partSize + partSize;
  }
}
