/** Answering a byte range from whatever parts are stored, with the holes filled from the
    upstream. */
module RangeServer {
  import opened ObjectIndexes
  import opened Readers
  import opened Arithmetic
  import Sorting

  /** The bytes from a up to b, as far as there are any. */
  function Slice(object_: Bytes, a: nat, b: nat): (r: Bytes)
    ensures a <= b <= |object_| ==> |r| == b - a && r == object_[a..b]
  {
    if a <= Min(b, |object_|) then object_[a..Min(b, |object_|)] else []
  }

  /** The part numbers of the byte range [start, end]. */
  method BreakInIndexes(start: nat, end: nat, partSize: nat) returns (result: seq<nat>)
    requires start <= end && partSize > 0 && end / partSize < UINT32
    ensures |result| == end / partSize - start / partSize + 1
    ensures forall i :: 0 <= i < |result| ==> result[i] == start / partSize + i
  {
    var firstIndex, lastIndex := start / partSize, end / partSize + 1;
    DivMono(start, end, partSize);
    result := [];
    var i := firstIndex;
    while i < lastIndex
      invariant firstIndex <= i <= lastIndex && |result| == i - firstIndex
      invariant forall j :: 0 <= j < |result| ==> result[j] == firstIndex + j
    {
      SmallMod(i, UINT32);
      result := result + [i % UINT32];
      i := i + 1;
    }
  }

  /** What a request asks of the storage and of the upstream: a part that was found, which is promoted in
      the index; one that was not; the list of available parts; and bytes of the object. */
  datatype Access = Hit(part: nat) | Miss(part: nat) | Listed(parts: seq<nat>) | Fetched(first: nat, last: int)

  /** reqHandler: a request for one object of which the upstream has all the bytes. */
  class ReqHandler {
    const object_: Bytes
    const partSize: nat
    const resp: Response
    /** Neither the disk nor the upstream fails while this request is served. */
    const reliable: bool
    var log: seq<Access>

    constructor (object_: Bytes, partSize: nat, resp: Response, reliable: bool)
      ensures this.object_ == object_ && this.partSize == partSize && this.resp == resp
      ensures this.reliable == reliable && log == []
    {
      this.object_, this.partSize, this.resp, this.reliable, log := object_, partSize, resp, reliable, [];
    }

    /** The limits within which the 32-bit part numbers and the signed 64-bit lengths of the
        code are exact. */
    predicate InRange() {
      partSize > 0 && |object_| + partSize <= UINT64 / 2 && |object_| <= UINT32 * partSize
    }

    /** Writes the bytes from start to end, both included, and says whether it got to the
        end. What it wrote before a failure is a prefix of them. */
    method LazilyRespond(start: nat, end: nat) returns (complete: bool)
      requires InRange() && start <= end < |object_|
      modifies this`log, resp
      ensures Copied(old(resp.written), object_[start..end + 1], resp.written, complete)
      ensures complete || !reliable || resp.broken
      ensures old(log) <= log && OnlyMisses(log[|old(log)|..])
    {
      hide Copied, InRange, PartOf, PartAt, Requested, Reached, OnlyMisses;
      MissesNone(log);
      RequestStart(start, end);
      var indexes := BreakInIndexes(start, end, partSize);
      RequestedParts(start, end, indexes);
      CopiedNothing(resp.written, object_[start..end + 1]);
      var i := 0;
      while i < |indexes|
        invariant i <= |indexes|
        invariant start <= Reached(start, end, i) <= end + 1
        invariant resp.written == old(resp.written) + object_[start..Reached(start, end, i)]
        invariant old(log) <= log && OnlyMisses(log[|old(log)|..])
        decreases |indexes| - i
      {
        ghost var here, before, accesses := Reached(start, end, i), resp.written, log;
        var step, ok, _, _, _, _ := Serve(indexes, start, end, i);
        CopiedOn(old(resp.written), object_, start, here, end + 1, before, resp.written);
        MissesOn(old(log), accesses, log);
        if !ok {
          return false;
        }
        assert object_[start..here] + object_[here..Reached(start, end, i + step)]
               == object_[start..Reached(start, end, i + step)];
        i := i + step;
      }
      complete := true;
      CopiedAll(old(resp.written), object_[start..end + 1]);
    }

    /** The window of a turn is a hole joined to a stored part, without a skip and without a limit. */
    ghost predicate Bare(contents: ReadCloser, n: nat, start: nat, i: nat, covered: nat)
      requires partSize > 0
    {
      contents.MultiReader? && i + covered < n && (i > 0 || start % partSize == 0)
    }

    /** One turn of the loop of lazilyRespond, and how many indexes it covers: at least one, never
        more than there are. What becomes of what it opened, contents, is told whether the turn
        succeeds or not: it is closed exactly once, source by source, unless skipping in a file
        failed, or unless the copy got past a reader of a bare window. */
    method Serve(indexes: seq<nat>, start: nat, end: nat, i: nat)
      returns (partsCount: nat, ok: bool, ghost contents: Option<ReadCloser>, ghost trimmed: bool,
               ghost covered: nat, ghost passed: nat)
      requires InRange() && start <= end < |object_| && i < |indexes| && Requested(start, end, indexes)
      requires start <= Reached(start, end, i) <= end + 1
      modifies this`log, resp
      ensures Copied(old(resp.written), object_[Reached(start, end, i)..end + 1], resp.written, false)
      ensures ok || !reliable || resp.broken
      ensures ok ==> partsCount == covered && 1 <= partsCount <= |indexes| - i
      ensures ok ==> Reached(start, end, i) <= Reached(start, end, i + partsCount) <= end + 1
      ensures ok ==> resp.written
                     == old(resp.written) + object_[Reached(start, end, i)..Reached(start, end, i + partsCount)]
      ensures ok ==> contents.Some? && trimmed
      ensures old(log) <= log && OnlyMisses(log[|old(log)|..])
      ensures contents.Some? ==> Took(log[|old(log)|..], indexes, i, contents.value, covered)
      ensures contents.Some? ==> Valid(contents.value) && fresh(Repr(contents.value))
      ensures contents.Some? && !trimmed ==>
                && !reliable && Open(contents.value)
                && i == 0 && start % partSize > 0 && contents.value.SourceReader? && contents.value.s.seekable
      ensures contents.Some? && trimmed && Bare(contents.value, |indexes|, start, i, covered) ==>
                Halves(contents.value, passed) && (ok ==> passed == 2)
      ensures contents.Some? ==>
                (Closed(contents.value)
                 <==> trimmed && (Bare(contents.value, |indexes|, start, i, covered) ==> passed == 0))
    {
      hide Copied, PartOf, PartAt, Requested, Reached, Rest, Valid, Slice, Drop, Take, Faulty, Open, Closed,
        NoneClosed, Single, Wraps, Rank, Consecutive, Took, OnlyMisses;
      CopiedNothing(resp.written, object_[Reached(start, end, i)..end + 1]);
      RequestedIndexes(start, end, indexes);
      var source, count := GetContents(indexes, i);
      contents, trimmed, covered, passed := source, false, count, 0;
      if source.None? {
        return 0, false, None, false, 0, 0;
      }
      var window, err := Trim(source.value, |indexes|, start, end, i, count);
      if err {
        OpenFile(source.value);
        return 0, false, contents, false, count, 0;
      }
      trimmed := true;
      WrapsSame(window, source.value);
      ghost var from, to := Reached(start, end, i), Reached(start, end, i + count);
      CopiedWindow(resp.written, object_, from, to, end + 1);
      ok, passed := CopyThenClose(resp, window);
      CopiedPrefix(old(resp.written), object_, from, to, end + 1, resp.written, ok);
      WrapsSame(window, source.value);
      partsCount := count;
    }

    /** Skips the bytes before the range in the first part and stops after its last byte. */
    method Trim(r: ReadCloser, n: nat, start: nat, end: nat, i: nat, partsCount: nat)
      returns (contents: ReadCloser, err: bool)
      requires InRange() && start <= end < |object_| && n == PartOf(end) - PartOf(start) + 1
      requires 1 <= partsCount <= n - i && Valid(r)
      requires Rest(r) == Slice(object_, PartAt(PartOf(start) + i), PartAt(PartOf(start) + i + partsCount))
      modifies Repr(r)
      ensures !err ==> Valid(contents) && fresh(Repr(contents) - Repr(r)) && Faulty(contents) == Faulty(r)
      ensures err ==> Faulty(r) && i == 0 && start % partSize > 0 && r.SourceReader? && r.s.seekable
      ensures Valid(r) && Open(r) == old(Open(r)) && (r.MultiReader? ==> r.m.index == old(r.m.index))
      ensures !err ==> Wraps(contents, r)
      ensures !err ==> (contents.MultiReader? <==>
                        r.MultiReader? && !(i == 0 && start % partSize > 0) && i + partsCount < n)
      ensures Reached(start, end, i) <= Reached(start, end, i + partsCount) <= end + 1
      ensures !err ==> Rest(contents) == object_[Reached(start, end, i)..Reached(start, end, i + partsCount)]
    {
      hide PartOf, PartAt, Reached, Rest, Valid, Slice, Drop, Take, Open, Wraps, Faulty;
      var startOffset := start % partSize;
      Window(start, end, i, partsCount);
      DropNothing(Rest(r));
      contents, err := r, false;
      WrapsSelf(r);
      if i == 0 && startOffset > 0 {
        contents, err := SkipReadCloser(contents, startOffset);
        if err {
          return;
        }
      }
      if i + partsCount == n {
        var endLimit := (partsCount - 1) * partSize + end % partSize + 1;
        if i == 0 {
          endLimit := endLimit - startOffset;
        }
        ghost var skipped := contents;
        contents := LimitReadCloser(contents, ToInt64(endLimit));
        WrapsLimit(contents, skipped, r);
      }
    }

    function PartOf(pos: nat): nat
      requires partSize > 0
    {
      pos / partSize
    }

    function PartAt(p: nat): nat { p * partSize }

    ghost predicate Requested(start: nat, end: nat, indexes: seq<nat>)
      requires partSize > 0
    {
      && |indexes| == PartOf(end) - PartOf(start) + 1
      && forall i :: 0 <= i < |indexes| ==> indexes[i] == PartOf(start) + i
    }

    /** The position in the object that the first i indexes of a request lead up to. */
    function Reached(start: nat, end: nat, i: nat): nat
      requires partSize > 0
    {
      if i == 0 then start
      else if i > PartOf(end) - PartOf(start) then end + 1
      else PartAt(PartOf(start) + i)
    }

    lemma RequestStart(start: nat, end: nat)
      requires InRange() && start <= end < |object_|
      ensures partSize > 0 && end / partSize < UINT32 && Reached(start, end, 0) == start
    {
      hide PartOf, PartAt;
      LastPart(end);
    }

    lemma LastPart(end: nat)
      requires InRange() && end < |object_|
      ensures end / partSize < UINT32
    {
      var last := end / partSize;
      DivBounds(end, partSize);
      assert last * partSize < UINT32 * partSize;
      MulCancelStrict(last, UINT32, partSize);
    }

    lemma RequestedParts(start: nat, end: nat, indexes: seq<nat>)
      requires InRange() && start <= end < |object_|
      requires |indexes| == end / partSize - start / partSize + 1
      requires forall i :: 0 <= i < |indexes| ==> indexes[i] == start / partSize + i
      ensures Requested(start, end, indexes) && Reached(start, end, |indexes|) == end + 1
    {
      DivMono(start, end, partSize);
    }

    lemma RequestedIndexes(start: nat, end: nat, indexes: seq<nat>)
      requires InRange() && start <= end < |object_| && Requested(start, end, indexes)
      ensures Consecutive(indexes)
      ensures |indexes| == PartOf(end) - PartOf(start) + 1
      ensures forall i :: 0 <= i < |indexes| ==> indexes[i] == PartOf(start) + i
    {
      DivBounds(end, partSize);
      forall i | 0 <= i < |indexes| ensures PartAt(indexes[i]) < |object_| {
        MulMono(indexes[i], end / partSize, partSize);
      }
    }

    /** What is left of the covered parts after skipping and limiting. */
    lemma Window(start: nat, end: nat, i: nat, count: nat)
      requires InRange() && start <= end < |object_|
      requires 1 <= count && i + count <= PartOf(end) - PartOf(start) + 1
      ensures partSize > 0 && Reached(start, end, i) <= Reached(start, end, i + count) <= end + 1
      ensures var part := Slice(object_, PartAt(PartOf(start) + i), PartAt(PartOf(start) + i + count));
              var skipped := Drop(part, if i == 0 then start % partSize else 0);
              if i + count == PartOf(end) - PartOf(start) + 1 then
                var limit := (count - 1) * partSize + end % partSize + 1 - if i == 0 then start % partSize else 0;
                0 <= limit < UINT64 / 2
                && Take(skipped, limit) == object_[Reached(start, end, i)..Reached(start, end, i + count)]
              else
                skipped == object_[Reached(start, end, i)..Reached(start, end, i + count)]
    {
      hide Slice, Drop, Take;
      WindowStart(start, end, i);
      WindowEnd(start, end, i, count);
      var b, e := PartAt(PartOf(start) + i), PartAt(PartOf(start) + i + count);
      DropTake(object_, b, e, if i == 0 then start % partSize else 0, Reached(start, end, i + count));
    }

    lemma WindowStart(start: nat, end: nat, i: nat)
      requires InRange() && start <= end < |object_| && i <= PartOf(end) - PartOf(start)
      ensures start <= Reached(start, end, i) <= end
      ensures Reached(start, end, i) == PartAt(PartOf(start) + i) + if i == 0 then start % partSize else 0
    {
      DivBounds(start, partSize);
      DivBounds(end, partSize);
      if i > 0 {
        MulMono(PartOf(start) + 1, PartOf(start) + i, partSize);
        MulNext(PartOf(start), partSize);
        MulMono(PartOf(start) + i, PartOf(end), partSize);
      }
    }

    lemma WindowEnd(start: nat, end: nat, i: nat, count: nat)
      requires InRange() && start <= end < |object_|
      requires 1 <= count && i + count <= PartOf(end) - PartOf(start) + 1
      ensures Reached(start, end, i + count) <= PartAt(PartOf(start) + i + count)
      ensures PartAt(PartOf(start) + i) + (count - 1) * partSize + end % partSize < PartAt(PartOf(start) + i + count)
      ensures if i + count == PartOf(end) - PartOf(start) + 1
              then Reached(start, end, i + count) == end + 1
                   && end == PartAt(PartOf(start) + i) + (count - 1) * partSize + end % partSize
              else Reached(start, end, i + count) == PartAt(PartOf(start) + i + count) <= end
      ensures PartAt(PartOf(start) + i) + partSize <= PartAt(PartOf(start) + i + count)
    {
      var p := PartOf(start) + i;
      DivBounds(end, partSize);
      MulAdd(p, count - 1, partSize);
      MulNext(p + count - 1, partSize);
      MulMono(0, count - 1, partSize);
      if i + count <= PartOf(end) - PartOf(start) {
        MulMono(p + count, PartOf(end), partSize);
      }
    }

    /** A part that is stored holds its slice of the object. Whether it is stored may change
        at any time. */
    method GetPartFromStorage(part: nat) returns (r: Option<Source>, tooManyFiles: bool)
      requires InRange() && part * partSize < |object_|
      modifies this`log
      ensures log == old(log) + [if r.Some? then Hit(part) else Miss(part)]
      ensures tooManyFiles ==> r.None? && !reliable
      ensures reliable && r.Some? ==> !r.value.faulty
      ensures r.Some? ==> fresh(r.value) && r.value.closes == 0
      ensures r.Some? ==> r.value.rest == Slice(object_, part * partSize, (part + 1) * partSize)
    {
      r, tooManyFiles := None, false;
      if {
      case !reliable => tooManyFiles := true;
      case true =>
      case true =>
        var stalls: nat, faulty: bool, seekable: bool := *, *, *;
        stalls := Max(stalls, 0);
        var content := Slice(object_, part * partSize, (part + 1) * partSize);
        var s := new Source(content, stalls, faulty && !reliable, seekable);
        r := Some(s);
      }
      log := log + [if r.Some? then Hit(part) else Miss(part)];
    }

    /** Any parts at all, in any order. */
    method GetAvailableParts() returns (parts: seq<nat>, err: bool)
      modifies this`log
      ensures err ==> !reliable
      ensures log == old(log) + if err then [] else [Listed(parts)]
    {
      parts, err := *, *;
      err := err && !reliable;
      if !err {
        log := log + [Listed(parts)];
      }
    }

    /** A server that honours byte ranges sends the bytes from start to end, or to the last
        byte of the object when end lies beyond it (RFC 7233, section 2.1). */
    method GetUpstreamReader(start: nat, end: nat) returns (r: ReadCloser)
      requires InRange() && start <= end && start < |object_|
      modifies this`log
      ensures log == old(log) + [Fetched(start, end)]
      ensures Valid(r) && fresh(Repr(r)) && (reliable ==> !Faulty(r))
      ensures Rest(r) == Slice(object_, start, end + 1)
      ensures Open(r) && Single(r) && r.PartReader?
    {
      var stalls: nat, faulty: bool := *, *;
      stalls := Max(stalls, 0);
      var s := new Source(object_[start..Min(end, |object_| - 1) + 1], stalls, faulty && !reliable, false);
      var f := new PartReadCloser(SourceReader(s), partSize);
      r := PartReader(f);
      log := log + [Fetched(start, end)];
    }

    /** The part numbers of a request are consecutive and inside the object. */
    ghost predicate Consecutive(indexes: seq<nat>) {
      forall i :: 0 <= i < |indexes| ==> indexes[i] == indexes[0] + i && PartAt(indexes[i]) < |object_|
    }

    /** q is what the search for a part after p and up to last comes to. */
    ghost predicate IsNext(parts: seq<nat>, p: nat, last: nat, q: nat) {
      && Found(parts, p, last)
      && p < q <= last && q in parts && forall o :: o in parts && p < o ==> q <= o
    }

    /** How a reader for the parts from indexes[from] on was come by. A part that is stored is all that
        is taken. Otherwise, if the search finds a part and that is still there, the upstream is asked
        for exactly the bytes in front of it; and if not, for all of the rest. */
    ghost predicate Took(taken: seq<Access>, indexes: seq<nat>, from: nat, r: ReadCloser, count: nat)
      requires from < |indexes|
    {
      var p, last := indexes[from], indexes[|indexes| - 1];
      var all := Fetched(p * partSize, Min(|object_|, (((last + 1) % UINT32) * partSize - 1) % UINT64));
      || (taken == [Hit(p)] && count == 1 && r.SourceReader?)
      || (exists parts, q: nat :: IsNext(parts, p, last, q) && count == q - p + 1 && r.MultiReader?
            && taken == [Miss(p), Listed(parts), Hit(q), Fetched(p * partSize, Min(|object_|, q * partSize - 1))])
      || (exists parts, q: nat :: IsNext(parts, p, last, q) && count == |indexes| - from && r.PartReader?
            && taken == [Miss(p), Listed(parts), Miss(q), all])
      || (exists parts :: !Found(parts, p, last) && count == |indexes| - from && r.PartReader?
            && taken == [Miss(p), Listed(parts), all])
    }

    /** A reader for indexes[from] and how many of the indexes it covers. */
    method GetContents(indexes: seq<nat>, from: nat) returns (r: Option<ReadCloser>, count: nat)
      requires InRange() && from < |indexes| && Consecutive(indexes)
      modifies this`log
      ensures old(log) <= log && OnlyMisses(log[|old(log)|..])
      ensures r.Some? ==> Took(log[|old(log)|..], indexes, from, r.value, count)
      ensures r.Some? || !reliable
      ensures r.Some? ==> 1 <= count <= |indexes| - from
      ensures r.Some? ==> Valid(r.value) && fresh(Repr(r.value)) && (reliable ==> !Faulty(r.value))
      ensures r.Some? ==> Rest(r.value) == Slice(object_, PartAt(indexes[from]), PartAt(indexes[from] + count))
      ensures r.Some? ==> Open(r.value) && (r.value.MultiReader? ==> Joined(r.value))
    {
      hide Slice, Rest, Valid, Took, OnlyMisses, Single;
      ghost var before := log;
      var stored, err := GetPartFromStorage(indexes[from]);
      MissesFirst([if stored.Some? then Hit(indexes[from]) else Miss(indexes[from])]);
      assert log[|before|..] == [if stored.Some? then Hit(indexes[from]) else Miss(indexes[from])];
      if stored.Some? {
        TookHit(log[|before|..], indexes, from, SourceReader(stored.value));
        SourceRest(stored.value);
        return Some(SourceReader(stored.value)), 1;
      } else if err {
        return None, 0;
      }
      ghost var missed := log;
      r, count := GetMissing(indexes, from);
      assert log[|before|..] == [Miss(indexes[from])] + log[|missed|..];
      MissesFirst(log[|before|..]);
    }

    /** The rest of GetContents, for a part that is not stored. */
    method GetMissing(indexes: seq<nat>, from: nat) returns (r: Option<ReadCloser>, count: nat)
      requires InRange() && from < |indexes| && Consecutive(indexes)
      modifies this`log
      ensures old(log) <= log
      ensures r.Some? ==> Took([Miss(indexes[from])] + log[|old(log)|..], indexes, from, r.value, count)
      ensures r.Some? || !reliable
      ensures r.Some? ==> 1 <= count <= |indexes| - from
      ensures r.Some? ==> Valid(r.value) && fresh(Repr(r.value)) && (reliable ==> !Faulty(r.value))
      ensures r.Some? ==> Rest(r.value) == Slice(object_, PartAt(indexes[from]), PartAt(indexes[from] + count))
      ensures r.Some? ==> Open(r.value) && (r.value.MultiReader? ==> Joined(r.value))
    {
      hide Slice, Rest, Valid, Took, Found, Open, Single, Repr, Faulty;
      ghost var before := log;
      var parts, err := GetAvailableParts();
      if err {
        return None, 0;
      }
      ghost var p := indexes[from];
      var last := indexes[|indexes| - 1];
      var next := NextAvailable(parts, indexes[from], last);
      if next.Some? {
        var q := next.value;
        assert q == indexes[q - indexes[0]];
        r := FillHole(indexes[from], q);
        if r.Some? {
          TookHole([Miss(p)] + log[|before|..], indexes, from, r.value, parts, q);
          return r, q - indexes[from] + 1;
        }
      }
      count := |indexes| - from;
      var upstream := FetchRest(indexes[from], last);
      assert indexes[from] + count == last + 1;
      r := Some(upstream);
      TookRest([Miss(p)] + log[|before|..], indexes, from, upstream, parts, if next.Some? then next.value else 0);
    }

    lemma TookHit(taken: seq<Access>, indexes: seq<nat>, from: nat, r: ReadCloser)
      requires from < |indexes| && taken == [Hit(indexes[from])] && r.SourceReader?
      ensures Took(taken, indexes, from, r, 1)
    {
    }

    lemma TookHole(taken: seq<Access>, indexes: seq<nat>, from: nat, r: ReadCloser, parts: seq<nat>, q: nat)
      requires from < |indexes| && IsNext(parts, indexes[from], indexes[|indexes| - 1], q) && r.MultiReader?
      requires taken == [Miss(indexes[from]), Listed(parts), Hit(q),
                         Fetched(indexes[from] * partSize, Min(|object_|, q * partSize - 1))]
      ensures Took(taken, indexes, from, r, q - indexes[from] + 1) && OnlyMisses(taken)
    {
      hide IsNext;
      MissesFirst(taken);
    }

    lemma TookRest(taken: seq<Access>, indexes: seq<nat>, from: nat, r: ReadCloser, parts: seq<nat>, q: nat)
      requires from < |indexes| && r.PartReader?
      requires var p, last := indexes[from], indexes[|indexes| - 1];
               var all := Fetched(p * partSize, Min(|object_|, (((last + 1) % UINT32) * partSize - 1) % UINT64));
               || (IsNext(parts, p, last, q) && taken == [Miss(p), Listed(parts), Miss(q), all])
               || (!Found(parts, p, last) && taken == [Miss(p), Listed(parts), all])
      ensures Took(taken, indexes, from, r, |indexes| - from) && OnlyMisses(taken)
    {
      hide IsNext, Found;
      MissesFirst(taken);
    }

    /** The parts from p up to the stored part q. */
    method FillHole(p: nat, q: nat) returns (r: Option<ReadCloser>)
      requires InRange() && p < q && q * partSize < |object_|
      modifies this`log
      ensures log == old(log) + if r.Some?
                                then [Hit(q), Fetched(p * partSize, Min(|object_|, q * partSize - 1))]
                                else [Miss(q)]
      ensures r.Some? ==> Valid(r.value) && fresh(Repr(r.value)) && (reliable ==> !Faulty(r.value))
      ensures r.Some? ==> Rest(r.value) == Slice(object_, p * partSize, (q + 1) * partSize)
      ensures r.Some? ==> Open(r.value) && Joined(r.value)
    {
      hide Slice, Rest, Valid;
      var stored, err := GetPartFromStorage(q);
      if stored.Some? {
        var fromByte, end, past := p * partSize, q * partSize, (q + 1) * partSize;
        HoleBytes(p, q, partSize);
        var hole := GetUpstreamReader(fromByte, Min(|object_|, end - 1));
        var part := SourceReader(stored.value);
        SourceRest(stored.value);
        var joined := Join(hole, part);
        SliceConcat(object_, fromByte, end, past);
        return Some(joined);
      }
      r := None;
    }

    method Join(a: ReadCloser, b: ReadCloser) returns (r: ReadCloser)
      requires Valid(a) && Valid(b) && Repr(a) !! Repr(b)
      ensures Valid(r) && Repr(a) <= Repr(r) && Repr(b) <= Repr(r) && fresh(Repr(r) - Repr(a) - Repr(b))
      ensures Faulty(r) ==> Faulty(a) || Faulty(b)
      ensures r.MultiReader? && Rest(r) == old(Rest(a)) + old(Rest(b))
      ensures Open(a) && Open(b) && Single(a) && Single(b) ==> Open(r) && Joined(r)
    {
      hide Rest, Valid, RestAll, ReprAll, Open, Single;
      var m := new MultiReadCloser([a, b]);
      TwoReaders(m, a, b);
      r := MultiReader(m);
    }

    /** Everything from part p to the last part, from the upstream. */
    method FetchRest(p: nat, last: nat) returns (r: ReadCloser)
      requires InRange() && p <= last && last * partSize < |object_|
      modifies this`log
      ensures r.PartReader?
      ensures log == old(log) + [Fetched(p * partSize,
                                         Min(|object_|, (((last + 1) % UINT32) * partSize - 1) % UINT64))]
      ensures Valid(r) && fresh(Repr(r)) && (reliable ==> !Faulty(r))
      ensures Rest(r) == Slice(object_, p * partSize, (last + 1) * partSize)
      ensures Open(r) && Single(r)
    {
      hide Rest, Valid;
      MulMono(p, last, partSize);
      LastByte(last);
      var toByte := Min(|object_|, (((last + 1) % UINT32) * partSize - 1) % UINT64);
      r := GetUpstreamReader(p * partSize, toByte);
    }

    /** The part number after the last one may wrap to 0 and the product below 0; the minimum
        with the size takes care of both. */
    lemma LastByte(last: nat)
      requires InRange() && last * partSize < |object_|
      ensures last < UINT32
      ensures var wanted := (((last + 1) % UINT32) * partSize - 1) % UINT64;
              Min(Min(|object_|, wanted) + 1, |object_|) == Min((last + 1) * partSize, |object_|)
    {
      MulNext(last, partSize);
      MulCancelStrict(last, UINT32, partSize);
      var past := (last + 1) * partSize;
      if last + 1 == UINT32 {
        assert ((last + 1) % UINT32) * partSize == 0;
        assert (0 - 1) % UINT64 == UINT64 - 1;
      } else {
        assert (last + 1) % UINT32 == last + 1;
        assert (past - 1) % UINT64 == past - 1;
      }
    }

    /** The smallest available part after the missing one that the request asks for, if the search
        comes across it. The predicate that is searched with is not monotone: it is false again
        after the last part of the request. So a part that is there is found exactly when the first
        place that the search looks at among the parts after the missing one is still inside the
        request; which it always is when no part lies beyond the request. */
    method NextAvailable(parts: seq<nat>, missing: nat, last: nat) returns (next: Option<nat>)
      ensures next.Some? ==> missing < next.value <= last && next.value in parts
      ensures next.Some? ==> forall q :: q in parts && missing < q ==> next.value <= q
      ensures next.Some? <==> Found(parts, missing, last)
      ensures (forall q :: q in parts ==> q <= last) ==>
                (next.Some? <==> exists q :: q in parts && missing < q <= last)
    {
      hide Found, Sorting.SortedBy, Sorting.SearchBetween;
      var sorted := Sorting.Sort(parts, p => p);
      var i := Sorting.Search(|sorted|, (i: nat) => i < |sorted| && missing < sorted[i] <= last);
      next := if i < |sorted| then Some(sorted[i]) else None;
      SameParts(parts, sorted);
      if next.Some? {
        SearchFindsFirst(sorted, i, missing, last);
      }
      SearchFinds(parts, sorted, missing, last);
      if forall q :: q in parts ==> q <= last {
        FoundWithin(parts, missing, last);
      }
    }
  }

  lemma SameParts(a: seq<nat>, b: seq<nat>)
    requires multiset(a) == multiset(b)
    ensures forall q :: q in a <==> q in b
  {
    assert forall q :: q in a <==> q in multiset(a);
    assert forall q :: q in b <==> q in multiset(b);
  }

  /** The upstream is asked for something only after a part was not found: a request all of whose parts
      are stored does not go to the upstream at all. */
  ghost predicate OnlyMisses(log: seq<Access>) {
    (forall j :: 0 <= j < |log| ==> !log[j].Miss?) ==> forall j :: 0 <= j < |log| ==> log[j].Hit?
  }

  lemma MissesConcat(a: seq<Access>, b: seq<Access>)
    requires OnlyMisses(a) && OnlyMisses(b)
    ensures OnlyMisses(a + b)
  {
    var c := a + b;
    if forall j :: 0 <= j < |c| ==> !c[j].Miss? {
      assert forall j :: 0 <= j < |a| ==> c[j] == a[j];
      assert forall j :: 0 <= j < |b| ==> c[|a| + j] == b[j];
      forall j | 0 <= j < |c| ensures c[j].Hit? {
        if j >= |a| { assert c[j] == b[j - |a|]; }
      }
    }
  }

  lemma MissesOn(a: seq<Access>, b: seq<Access>, c: seq<Access>)
    requires a <= b <= c && OnlyMisses(b[|a|..]) && OnlyMisses(c[|b|..])
    ensures OnlyMisses(c[|a|..])
  {
    assert c[|a|..] == b[|a|..] + c[|b|..];
    MissesConcat(b[|a|..], c[|b|..]);
  }

  lemma MissesNone(log: seq<Access>)
    ensures OnlyMisses(log[|log|..])
  {
  }

  lemma MissesFirst(log: seq<Access>)
    requires log != [] && (log[0].Miss? || (|log| == 1 && log[0].Hit?))
    ensures OnlyMisses(log)
  {
  }

  /** How many of the parts have a number of at most m. */
  function AtMost(parts: seq<nat>, m: nat): (c: nat)
    ensures c <= |parts|
  {
    if parts == [] then 0
    else AtMost(parts[..|parts| - 1], m) + (if parts[|parts| - 1] <= m then 1 else 0)
  }

  /** The first place from l on that a binary search between i and j looks at. */
  function FirstProbe(i: nat, j: nat, l: nat): (p: nat)
    requires i <= j
    ensures i <= p <= j && (l <= j ==> l <= p)
    ensures i <= l < j ==> p < j
    decreases j - i
  {
    if i == j then j
    else
      var h := i + (j - i) / 2;
      if h >= l then h else FirstProbe(h + 1, j, l)
  }

  /** The search for a part after the missing one and up to the last one finds something. */
  predicate Found(parts: seq<nat>, missing: nat, last: nat) {
    var l, r := AtMost(parts, missing), AtMost(parts, last);
    l < r && FirstProbe(0, |parts|, l) < r
  }

  lemma {:induction false} AtMostConcat(a: seq<nat>, b: seq<nat>, m: nat)
    ensures AtMost(a + b, m) == AtMost(a, m) + AtMost(b, m)
  {
    if b == [] {
      assert a + b == a;
    } else {
      assert (a + b)[..|a + b| - 1] == a + b[..|b| - 1];
      AtMostConcat(a, b[..|b| - 1], m);
    }
  }

  /** The order of the parts does not matter. */
  lemma {:induction false} AtMostPermuted(a: seq<nat>, b: seq<nat>, m: nat)
    requires multiset(a) == multiset(b)
    ensures AtMost(a, m) == AtMost(b, m)
    decreases |a|
  {
    if a == [] {
      assert |multiset(b)| == 0;
    } else {
      var n := |a| - 1;
      assert a == a[..n] + [a[n]];
      assert a[n] in multiset(b);
      var k :| 0 <= k < |b| && b[k] == a[n];
      assert b == b[..k] + ([b[k]] + b[k + 1..]);
      assert multiset(b[..k] + b[k + 1..]) == multiset(b) - multiset{a[n]};
      AtMostPermuted(a[..n], b[..k] + b[k + 1..], m);
      AtMostConcat(b[..k], [b[k]] + b[k + 1..], m);
      AtMostConcat([b[k]], b[k + 1..], m);
      AtMostConcat(b[..k], b[k + 1..], m);
      assert AtMost([b[k]], m) == if b[k] <= m then 1 else 0;
    }
  }

  /** In sorted parts the count says where the numbers above m begin. */
  lemma {:induction false} AtMostSorted(sorted: seq<nat>, m: nat, k: nat)
    requires Sorting.SortedBy(sorted, p => p) && k < |sorted|
    ensures sorted[k] <= m <==> k < AtMost(sorted, m)
  {
    var key := (p: nat) => p as int;
    var n := |sorted| - 1;
    assert forall i, j :: 0 <= i < j < |sorted| ==> sorted[i] <= sorted[j];
    if k < n {
      AtMostSorted(sorted[..n], m, k);
    } else if sorted[n] <= m {
      AtMostAll(sorted, m);
    }
  }

  lemma {:induction false} AtMostAll(parts: seq<nat>, m: nat)
    requires forall k :: 0 <= k < |parts| ==> parts[k] <= m
    ensures AtMost(parts, m) == |parts|
  {
    if parts != [] {
      AtMostAll(parts[..|parts| - 1], m);
    }
  }

  /** A search between i and j for the numbers from l up to r settles on l if its first look from l
      on falls below r, and otherwise on j. */
  lemma {:induction false} SearchWindow(i: nat, j: nat, f: nat -> bool, l: nat, r: nat)
    requires i <= j && l <= r <= j && (i <= l || r <= i)
    requires forall k :: i <= k < j ==> (f(k) <==> l <= k < r)
    ensures Sorting.SearchBetween(i, j, f) == if i <= l && FirstProbe(i, j, l) < r then l else j
    decreases j - i
  {
    if i < j {
      var h := i + (j - i) / 2;
      if f(h) {
        SearchFirst(i, h, f, l);
      } else {
        SearchWindow(h + 1, j, f, l, r);
      }
    }
  }

  /** Among numbers that are false below l and true from there, the search finds l. */
  lemma {:induction false} SearchFirst(i: nat, j: nat, f: nat -> bool, l: nat)
    requires i <= l <= j && forall k :: i <= k < j ==> (f(k) <==> l <= k)
    ensures Sorting.SearchBetween(i, j, f) == l
    decreases j - i
  {
    if i < j {
      var h := i + (j - i) / 2;
      if f(h) { SearchFirst(i, h, f, l); } else { SearchFirst(h + 1, j, f, l); }
    }
  }

  lemma SearchFinds(parts: seq<nat>, sorted: seq<nat>, missing: nat, last: nat)
    requires Sorting.SortedBy(sorted, p => p) && multiset(sorted) == multiset(parts)
    ensures |sorted| == |parts|
    ensures var f := (i: nat) => i < |sorted| && missing < sorted[i] <= last;
            Sorting.SearchBetween(0, |sorted|, f) < |sorted| <==> Found(parts, missing, last)
  {
    hide AtMost, FirstProbe, Sorting.SortedBy, Sorting.SearchBetween;
    assert |sorted| == |multiset(sorted)| && |parts| == |multiset(parts)|;
    AtMostPermuted(sorted, parts, missing);
    AtMostPermuted(sorted, parts, last);
    var f := (i: nat) => i < |sorted| && missing < sorted[i] <= last;
    var l, r := AtMost(parts, missing), AtMost(parts, last);
    forall k | 0 <= k < |sorted| ensures f(k) <==> l <= k < r {
      AtMostSorted(sorted, missing, k);
      AtMostSorted(sorted, last, k);
    }
    if l <= r {
      SearchWindow(0, |sorted|, f, l, r);
    } else {
      SearchWindow(0, |sorted|, f, |sorted|, |sorted|);
    }
  }

  /** When no part lies beyond the request, everything there is to find is found. */
  lemma FoundWithin(parts: seq<nat>, missing: nat, last: nat)
    requires forall q :: q in parts ==> q <= last
    ensures Found(parts, missing, last) <==> exists q :: q in parts && missing < q <= last
  {
    hide FirstProbe, AtMost;
    assert forall k :: 0 <= k < |parts| ==> parts[k] in parts;
    AtMostAll(parts, last);
    if q :| q in parts && missing < q <= last {
      var k :| 0 <= k < |parts| && parts[k] == q;
      AtMostNotAll(parts, missing, k);
    } else {
      AtMostAll(parts, missing);
    }
  }

  lemma {:induction false} AtMostNotAll(parts: seq<nat>, m: nat, k: nat)
    requires k < |parts| && parts[k] > m
    ensures AtMost(parts, m) < |parts|
  {
    var n := |parts| - 1;
    if k < n {
      AtMostNotAll(parts[..n], m, k);
    }
  }

  /** The condition can fail with the part there: with parts 2, 9 and 10 stored and part 1 missing
      from a request that ends with part 3, the search looks at 9, then at 10, and gives up. */
  lemma SearchMayMiss()
    ensures var parts := [2, 9, 10];
            2 in parts && 1 < 2 <= 3 && AtMost(parts, 1) < AtMost(parts, 3) && !Found(parts, 1, 3)
  {
    var parts := [2, 9, 10];
    assert parts[..2] == [2, 9] && [2, 9][..1] == [2] && [2][..0] == [];
    assert AtMost([2], 1) == 0 && AtMost([2, 9], 1) == 0 && AtMost(parts, 1) == 0;
    assert AtMost([2], 3) == 1 && AtMost([2, 9], 3) == 1 && AtMost(parts, 3) == 1;
  }

  lemma SearchFindsFirst(sorted: seq<nat>, i: nat, missing: nat, last: nat)
    requires Sorting.SortedBy(sorted, p => p)
    requires i < |sorted| && missing < sorted[i] <= last
    requires i > 0 ==> !(missing < sorted[i - 1] <= last)
    ensures forall q :: q in sorted && missing < q ==> sorted[i] <= q
  {
    var key := (p: nat) => p as int;
    forall q | q in sorted && missing < q ensures sorted[i] <= q {
      var j :| 0 <= j < |sorted| && sorted[j] == q;
    }
  }

  lemma HoleBytes(p: nat, q: nat, partSize: nat)
    requires p < q && partSize > 0
    ensures p * partSize < q * partSize < (q + 1) * partSize
  {
    MulMono(p + 1, q, partSize);
    MulNext(p, partSize);
    MulNext(q, partSize);
  }

  /** Two single readers of which nothing was read yet. */
  ghost predicate Joined(r: ReadCloser)
    reads Repr(r)
  {
    r.MultiReader? && r.m.index == 0 && |r.m.readers| == 2 && Plain(r.m)
  }

  /** Of two readers the first ones, as many as the copy got past, were never closed, and the others
      were closed exactly once. */
  ghost predicate Halves(r: ReadCloser, passed: nat)
    reads Repr(r)
  {
    && r.MultiReader? && |r.m.readers| == 2 && passed <= 2
    && Valid(r)
    && forall j :: 0 <= j < 2 ==> if j < passed then NoneClosed(r.m.readers[j]) else Closed(r.m.readers[j])
  }

  lemma OpenFile(r: ReadCloser)
    requires Valid(r) && r.SourceReader? && Open(r)
    ensures !Closed(r)
  {
  }

  lemma SourceRest(s: Source)
    ensures Valid(SourceReader(s)) && Rest(SourceReader(s)) == s.rest
  {
  }

  lemma TwoReaders(m: MultiReadCloser, a: ReadCloser, b: ReadCloser)
    requires Valid(MultiReader(m)) && m.readers == [a, b] && m.index == 0
    ensures ReprAll(m.readers) == Repr(a) + Repr(b)
    ensures Valid(a) && Valid(b) && Rest(MultiReader(m)) == Rest(a) + Rest(b)
    ensures Open(a) && Open(b) ==> Open(MultiReader(m))
  {
    var h := m.height;
    assert m.readers[0] == a && m.readers[1] == b;
    MultiParts(m);
    MultiEach(m);
    assert m.readers[0..] == [a, b] && [a, b][1..] == [b] && [b][1..] == [];
    assert RestAll([a, b], h) == Rest(a) + RestAll([b], h);
    assert RestAll([b], h) == Rest(b) + RestAll([], h);
  }

  lemma DropTake(object_: Bytes, b: nat, e: nat, offset: nat, stop: nat)
    requires b + offset <= stop <= Min(e, |object_|)
    ensures Take(Drop(Slice(object_, b, e), offset), stop - b - offset) == object_[b + offset..stop]
    ensures stop == e ==> Drop(Slice(object_, b, e), offset) == object_[b + offset..stop]
  {
    assert Slice(object_, b, e) == object_[b..Min(e, |object_|)];
    assert Drop(Slice(object_, b, e), offset) == object_[b + offset..Min(e, |object_|)];
  }

  lemma DropNothing(s: Bytes)
    ensures Drop(s, 0) == s
  {
  }

  lemma CopiedWindow(was: Bytes, object_: Bytes, a: nat, b: nat, c: nat)
    requires a <= b <= c <= |object_|
    ensures Copied(was, object_[a..c], was, false)
  {
  }

  /** Copying a prefix of the bytes. */
  lemma CopiedPrefix(was: Bytes, object_: Bytes, a: nat, b: nat, c: nat, now: Bytes, ok: bool)
    requires a <= b <= c <= |object_| && Copied(was, object_[a..b], now, ok)
    ensures Copied(was, object_[a..c], now, false)
    ensures ok ==> now == was + object_[a..b]
  {
    assert object_[a..c] == object_[a..b] + object_[b..c];
    assert was + object_[a..c] == (was + object_[a..b]) + object_[b..c];
  }

  lemma CopiedNothing(was: Bytes, rest: Bytes)
    ensures Copied(was, rest, was, false)
  {
  }

  lemma CopiedAll(was: Bytes, rest: Bytes)
    ensures Copied(was, rest, was + rest, true)
  {
  }

  /** Copying on from the middle. */
  lemma CopiedOn(was: Bytes, object_: Bytes, a: nat, b: nat, c: nat, before: Bytes, now: Bytes)
    requires a <= b <= c <= |object_| && before == was + object_[a..b]
    requires Copied(before, object_[b..c], now, false)
    ensures Copied(was, object_[a..c], now, false)
  {
    assert object_[a..b] + object_[b..c] == object_[a..c];
    assert before + object_[b..c] == was + (object_[a..b] + object_[b..c]);
  }

  lemma SliceConcat(object_: Bytes, a: nat, b: nat, c: nat)
    requires a <= b <= c && b <= |object_|
    ensures Slice(object_, a, b) + Slice(object_, b, c) == Slice(object_, a, c)
  {
  }
}
