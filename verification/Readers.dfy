/** The readers that a response is put together from. Every reader hands out the bytes of
    Rest in order, in portions of any size, and says when it is done. */
module Readers {
  import opened ObjectIndexes
  import opened Arithmetic

  datatype Status = Ok | EOF | Failed

  /** A reader this code did not write: a part on disk or the body of an upstream response.
      It may return fewer bytes than asked for, none at all for a while, its last bytes
      together with the end of file, and, when it is faulty, an error at any point. */
  class Source {
    var rest: Bytes
    var stalls: nat
    var closes: nat
    const faulty: bool
    const seekable: bool

    constructor (content: Bytes, stalls: nat, faulty: bool, seekable: bool)
      ensures rest == content && this.stalls == stalls && closes == 0
      ensures this.faulty == faulty && this.seekable == seekable
    {
      rest, this.stalls, closes, this.faulty, this.seekable := content, stalls, 0, faulty, seekable;
    }

    /** Moves forward in a file. */
    method Seek(skip: nat) returns (err: bool)
      requires seekable
      modifies this`rest
      ensures !err ==> rest == Drop(old(rest), skip)
      ensures err ==> faulty
    {
      err := *;
      err := err && faulty;
      if !err {
        rest := Drop(rest, skip);
      }
    }

    method Read(p: nat) returns (data: Bytes, st: Status)
      requires p > 0
      modifies this`rest, this`stalls
      ensures |data| <= p && data + rest == old(rest)
      ensures st.Ok? ==> |rest| + stalls < old(|rest| + stalls)
      ensures |rest| + stalls <= old(|rest| + stalls)
      ensures st.EOF? ==> rest == []
      ensures st.Failed? ==> faulty
    {
      var n: nat, failing: bool, atEnd: bool := *, *, *;
      n := Min(Min(n, p), |rest|);
      if n == 0 && rest != [] && stalls == 0 {
        n := 1;
      }
      data, rest := rest[..n], rest[n..];
      if faulty && failing {
        st := Failed;
      } else if rest == [] && (n == 0 || atEnd) {
        st := EOF;
      } else {
        st := Ok;
        if n == 0 {
          stalls := stalls - 1;
        }
      }
    }

    method Close()
      modifies this`closes
      ensures closes == old(closes) + 1
    {
      closes := closes + 1;
    }
  }

  /** The implementations of io.ReadCloser. */
  datatype ReadCloser =
    | SourceReader(s: Source)
    | MultiReader(m: MultiReadCloser)
    | SkippingReader(k: SkippingReadCloser)
    | LimitedReader(l: LimitedReadCloser)
    | PartReader(f: PartReadCloser)

  class MultiReadCloser {
    const readers: seq<ReadCloser>
    var index: nat
    ghost const inner: set<object>
    ghost const height: nat

    constructor (readers: seq<ReadCloser>)
      requires Separate(readers) && forall c :: c in readers ==> Valid(c)
      ensures Valid(MultiReader(this)) && fresh(this) && inner == ReprAll(readers)
      ensures this.readers == readers && index == 0
    {
      this.readers, index := readers, 0;
      inner := ReprAll(readers);
      height := HeightAll(readers);
    }

    /** The readers one after the other. A reader that is over is closed on the spot. */
    method Read(p: nat) returns (data: Bytes, st: Status)
      requires Valid(MultiReader(this)) && p > 0
      modifies Repr(MultiReader(this))
      ensures Valid(MultiReader(this))
      ensures Served(old(Rest(MultiReader(this))), data, Rest(MultiReader(this)), p, st)
      ensures Lowered(old(Rank(MultiReader(this))), Rank(MultiReader(this)), st)
      ensures st.Failed? ==> Faulty(MultiReader(this))
      ensures old(Open(MultiReader(this))) ==> Open(MultiReader(this))
      decreases height, 2
    {
      hide Valid, ValidAll, Rest, RestAll, Rank, RankAll, Faulty, Open, OpenAll, Closed, ClosedAll, Separate;
      MultiEnd(this);
      if index == |readers| {
        return [], EOF;
      }
      data, st := ReadCurrent(p);
      if !st.Ok? {
        if st.Failed? {
          return;
        }
        CloseCurrent();
        MultiEnd(this);
        if index != |readers| {
          st := Ok;
        }
      }
    }

    method ReadCurrent(p: nat) returns (data: Bytes, st: Status)
      requires Valid(MultiReader(this)) && index < |readers| && p > 0
      modifies Repr(readers[index])
      ensures Valid(MultiReader(this)) && index == old(index)
      ensures |data| <= p && data + Rest(MultiReader(this)) == old(Rest(MultiReader(this)))
      ensures Lowered(old(Rank(MultiReader(this))), Rank(MultiReader(this)), st)
      ensures st.Failed? ==> Faulty(MultiReader(this))
      ensures Valid(readers[index]) && (st.EOF? ==> Rest(readers[index]) == [])
      ensures old(Open(MultiReader(this))) ==> Open(MultiReader(this))
      decreases height, 1
    {
      hide Valid, ValidAll, Rest, RestAll, Rank, RankAll, Faulty, Open, OpenAll, Closed, ClosedAll, Separate;
      MultiCurrent(this);
      data, st := ReadInner(p);
      MultiCurrent(this);
    }

    method ReadInner(p: nat) returns (data: Bytes, st: Status)
      requires Valid(MultiReader(this)) && index < |readers| && p > 0 && Valid(readers[index])
      modifies Repr(readers[index])
      ensures Valid(MultiReader(this)) && index == old(index) && Valid(readers[index])
      ensures Served(old(Rest(readers[index])), data, Rest(readers[index]), p, st)
      ensures Lowered(old(Rank(readers[index])), Rank(readers[index]), st)
      ensures st.Failed? ==> Faulty(readers[index])
      ensures old(Open(readers[index])) ==> Open(readers[index])
      ensures ValidAll(readers[index + 1..], height) && ValidAll(readers[..index], height)
      ensures RestAll(readers[index + 1..], height) == old(RestAll(readers[index + 1..], height))
      ensures RankAll(readers[index + 1..], height) == old(RankAll(readers[index + 1..], height))
      ensures OpenAll(readers[index + 1..], height) == old(OpenAll(readers[index + 1..], height))
      ensures ClosedAll(readers[..index], height) == old(ClosedAll(readers[..index], height))
      decreases height, 0
    {
      hide Rest, Rank, Faulty, Open, Closed, RestAll, RankAll, OpenAll, ClosedAll;
      MultiCurrent(this);
      data, st := ReadAny(readers[index], p);
    }

    method CloseCurrent()
      requires Valid(MultiReader(this)) && index < |readers|
      modifies Repr(readers[index]), this`index
      ensures Valid(MultiReader(this)) && index == old(index) + 1
      ensures old(Rest(readers[index])) + Rest(MultiReader(this)) == old(Rest(MultiReader(this)))
      ensures Rank(MultiReader(this)) < old(Rank(MultiReader(this)))
      ensures old(Open(MultiReader(this))) ==> Open(MultiReader(this))
      ensures Valid(readers[old(index)]) && (old(Open(readers[index])) ==> Closed(readers[old(index)]))
      ensures forall j :: 0 <= j < |readers| && j != old(index) ==>
                && Valid(readers[j]) && Open(readers[j]) == old(Open(readers[j]))
                && Closed(readers[j]) == old(Closed(readers[j]))
      decreases height, 1
    {
      hide Valid, ValidAll, Rest, RestAll, Rank, RankAll, Faulty, Open, OpenAll, Closed, ClosedAll, Separate;
      MultiCurrent(this);
      CloseInner();
      Advance();
      MultiParts(this);
    }

    method Advance()
      requires Valid(MultiReader(this)) && index < |readers|
      requires ValidAll(readers[index + 1..], height) && ValidAll(readers[..index], height) && Valid(readers[index])
      modifies this`index
      ensures Valid(MultiReader(this)) && index == old(index) + 1
      ensures ValidAll(readers[index..], height) && ValidAll(readers[..index - 1], height) && Valid(readers[index - 1])
      ensures RestAll(readers[index..], height) == old(RestAll(readers[index + 1..], height))
      ensures RankAll(readers[index..], height) == old(RankAll(readers[index + 1..], height))
      ensures OpenAll(readers[index..], height) == old(OpenAll(readers[index + 1..], height))
      ensures ClosedAll(readers[..index - 1], height) == old(ClosedAll(readers[..index], height))
      ensures Closed(readers[index - 1]) == old(Closed(readers[index]))
      ensures forall j :: 0 <= j < |readers| ==>
                && Valid(readers[j]) && Open(readers[j]) == old(Open(readers[j]))
                && Closed(readers[j]) == old(Closed(readers[j]))
    {
      hide Rest, Rank, Faulty, Open, Closed, RestAll, RankAll, OpenAll, ClosedAll;
      MultiCurrent(this);
      index := index + 1;
    }

    method CloseInner()
      requires Valid(MultiReader(this)) && index < |readers|
      modifies Repr(readers[index])
      ensures Valid(MultiReader(this)) && index == old(index) && Valid(readers[index])
      ensures ValidAll(readers[index + 1..], height) && ValidAll(readers[..index], height)
      ensures RestAll(readers[index + 1..], height) == old(RestAll(readers[index + 1..], height))
      ensures RankAll(readers[index + 1..], height) == old(RankAll(readers[index + 1..], height))
      ensures OpenAll(readers[index + 1..], height) == old(OpenAll(readers[index + 1..], height))
      ensures ClosedAll(readers[..index], height) == old(ClosedAll(readers[..index], height))
      ensures old(Open(readers[index])) ==> Closed(readers[index])
      ensures forall j :: 0 <= j < |readers| && j != old(index) ==>
                && Valid(readers[j]) && Open(readers[j]) == old(Open(readers[j]))
                && Closed(readers[j]) == old(Closed(readers[j]))
      decreases height, 0
    {
      hide Rest, Rank, Faulty, Open, Closed, RestAll, RankAll, OpenAll, ClosedAll;
      MultiCurrent(this);
      CloseAny(readers[index]);
    }

    /** Closes the readers that are not over yet. */
    method Close()
      requires Valid(MultiReader(this))
      modifies Repr(MultiReader(this))
      ensures Valid(MultiReader(this)) && index == |readers|
      ensures old(Open(MultiReader(this))) ==> Closed(MultiReader(this))
      ensures forall j :: 0 <= j < |readers| ==> Valid(readers[j])
      ensures forall j :: 0 <= j < old(index) ==>
                Open(readers[j]) == old(Open(readers[j])) && Closed(readers[j]) == old(Closed(readers[j]))
      ensures forall j :: old(index) <= j < |readers| ==> old(Open(readers[j])) ==> Closed(readers[j])
      decreases height, 2
    {
      hide Valid, ValidAll, Rest, RestAll, Rank, RankAll, Faulty, Open, OpenAll, Closed, ClosedAll, Separate;
      MultiEnd(this);
      while index < |readers|
        invariant Valid(MultiReader(this)) && index <= |readers|
        invariant old(Open(MultiReader(this))) ==> Open(MultiReader(this))
        invariant old(index) <= index && forall j :: 0 <= j < |readers| ==> Valid(readers[j])
        invariant forall j :: (0 <= j < old(index) || index <= j < |readers|) ==>
                    Open(readers[j]) == old(Open(readers[j])) && Closed(readers[j]) == old(Closed(readers[j]))
        invariant forall j :: old(index) <= j < index ==> old(Open(readers[j])) ==> Closed(readers[j])
        decreases |readers| - index
      {
        MultiEnd(this);
        CloseCurrent();
        MultiEnd(this);
      }
      MultiOver(this);
    }

    /** Copies reader after reader. Readers that are over are passed without closing them. */
    method WriteTo(w: Response) returns (ok: bool)
      requires Valid(MultiReader(this)) && w !in Repr(MultiReader(this))
      modifies w, Repr(MultiReader(this))
      ensures Valid(MultiReader(this))
      ensures Copied(old(w.written), old(Rest(MultiReader(this))), w.written, ok)
      ensures old(index) <= index <= |readers| && (ok ==> index == |readers|)
      ensures !ok ==> Faulty(MultiReader(this)) || w.broken
      ensures old(w.broken) ==> w.broken
      ensures forall j :: 0 <= j < |readers| ==> Valid(readers[j])
      ensures forall j :: 0 <= j < |readers| ==> old(Open(readers[j])) && !readers[j].MultiReader? ==> Open(readers[j])
      ensures forall j :: 0 <= j < old(index) ==> Closed(readers[j]) == old(Closed(readers[j]))
      decreases height, 6
    {
      hide Valid, ValidAll, Rest, RestAll, Rank, RankAll, Faulty, Open, OpenAll, Closed, ClosedAll, Separate;
      MultiEnd(this);
      while index < |readers|
        invariant Valid(MultiReader(this)) && index <= |readers|
        invariant old(w.written) <= w.written
        invariant w.written + Rest(MultiReader(this)) == old(w.written) + old(Rest(MultiReader(this)))
        invariant old(w.broken) ==> w.broken
        invariant old(index) <= index && forall j :: 0 <= j < |readers| ==> Valid(readers[j])
        invariant forall j :: 0 <= j < |readers| ==>
                    old(Open(readers[j])) && !readers[j].MultiReader? ==> Open(readers[j])
        invariant forall j :: 0 <= j < old(index) ==> Closed(readers[j]) == old(Closed(readers[j]))
        decreases |readers| - index
      {
        ghost var before, left := w.written, Rest(MultiReader(this));
        ok := CopyNext(w);
        CopiedMore(old(w.written), old(Rest(MultiReader(this))), before, left, w.written);
        if !ok {
          return;
        }
      }
      MultiEnd(this);
      ok := true;
    }

    method CopyNext(w: Response) returns (ok: bool)
      requires Valid(MultiReader(this)) && index < |readers| && w !in Repr(MultiReader(this))
      modifies w, Repr(MultiReader(this))
      ensures Valid(MultiReader(this)) && index == old(index) + if ok then 1 else 0
      ensures Copied(old(w.written), old(Rest(MultiReader(this))), w.written, false)
      ensures ok ==> old(w.written) <= w.written &&
                     w.written + Rest(MultiReader(this)) == old(w.written) + old(Rest(MultiReader(this)))
      ensures !ok ==> Faulty(MultiReader(this)) || w.broken
      ensures old(w.broken) ==> w.broken
      ensures forall j :: 0 <= j < |readers| ==> Valid(readers[j])
      ensures forall j :: 0 <= j < |readers| ==> old(Open(readers[j])) && !readers[j].MultiReader? ==> Open(readers[j])
      ensures forall j :: 0 <= j < old(index) ==> Closed(readers[j]) == old(Closed(readers[j]))
      decreases height, 5
    {
      hide Valid, ValidAll, Rest, RestAll, Rank, RankAll, Faulty, Open, OpenAll, Closed, ClosedAll, Separate, Copied;
      MultiEnd(this);
      ok := CopyCurrent(w);
      if ok {
        MultiCurrent(this);
        Advance();
        MultiParts(this);
      }
    }

    method CopyCurrent(w: Response) returns (ok: bool)
      requires Valid(MultiReader(this)) && index < |readers| && w !in Repr(MultiReader(this))
      modifies w, Repr(readers[index])
      ensures Valid(MultiReader(this)) && index == old(index)
      ensures Copied(old(w.written), old(Rest(MultiReader(this))), w.written, false)
      ensures ValidAll(readers[index + 1..], height)
      ensures ok ==> old(w.written) <= w.written &&
                     w.written + RestAll(readers[index + 1..], height) == old(w.written) + old(Rest(MultiReader(this)))
      ensures !ok ==> Faulty(MultiReader(this)) || w.broken
      ensures old(w.broken) ==> w.broken
      ensures forall j :: 0 <= j < |readers| ==> Valid(readers[j])
      ensures forall j :: 0 <= j < |readers| ==> old(Open(readers[j])) && !readers[j].MultiReader? ==> Open(readers[j])
      ensures forall j :: 0 <= j < old(index) ==> Closed(readers[j]) == old(Closed(readers[j]))
      decreases height, 4
    {
      hide Rest, Rank, Faulty, Open, Closed, RestAll, RankAll, OpenAll, ClosedAll;
      MultiCurrent(this);
      ok := Copy(w, readers[index]);
      assert RestAll(readers[index + 1..], height) == old(RestAll(readers[index + 1..], height));
      MultiCurrent(this);
      CopiedLonger(old(w.written), old(Rest(readers[index])), RestAll(readers[index + 1..], height), w.written, ok);
    }
  }

  class SkippingReadCloser {
    const reader: ReadCloser
    var skip: nat
    ghost const inner: set<object>
    ghost const height: nat

    constructor (reader: ReadCloser, skip: nat)
      requires Valid(reader)
      ensures Valid(SkippingReader(this)) && fresh(this) && inner == Repr(reader)
      ensures this.reader == reader && this.skip == skip
    {
      this.reader, this.skip := reader, skip;
      inner, height := Repr(reader), Height(reader) + 1;
    }

    /** Skips what is left to skip, then reads. */
    method Read(p: nat) returns (data: Bytes, st: Status)
      requires Valid(SkippingReader(this)) && p > 0
      modifies Repr(SkippingReader(this))
      ensures Valid(SkippingReader(this))
      ensures Served(old(Rest(SkippingReader(this))), data, Rest(SkippingReader(this)), p, st)
      ensures Lowered(old(Rank(SkippingReader(this))), Rank(SkippingReader(this)), st)
      ensures st.Failed? ==> Faulty(SkippingReader(this))
      ensures old(Open(SkippingReader(this))) ==> Open(SkippingReader(this))
      decreases height, 2
    {
      hide Rest, Rank, Faulty, Open, Closed;
      if skip > 0 {
        st := SkipAhead();
        if !st.Ok? {
          data := [];
          return;
        }
      }
      SkipParts(this);
      data, st := ReadAny(reader, p);
      SkipParts(this);
    }

    method SkipAhead() returns (st: Status)
      requires Valid(SkippingReader(this))
      modifies Repr(SkippingReader(this))
      ensures Valid(SkippingReader(this)) && (st.Ok? ==> skip == 0)
      ensures Rest(SkippingReader(this)) == old(Rest(SkippingReader(this)))
      ensures Rank(SkippingReader(this)) <= old(Rank(SkippingReader(this)))
      ensures st.EOF? ==> Rest(SkippingReader(this)) == []
      ensures st.Failed? ==> Faulty(SkippingReader(this))
      ensures old(Open(SkippingReader(this))) ==> Open(SkippingReader(this))
      decreases height, 1
    {
      hide Valid, Rest, Rank, Faulty, Open, Closed;
      SkipParts(this);
      var n;
      n, st := DiscardInner();
      Forward(n);
      SkipParts(this);
    }

    method DiscardInner() returns (n: nat, st: Status)
      requires Valid(SkippingReader(this))
      modifies Repr(SkippingReader(this))
      ensures Valid(SkippingReader(this)) && skip == old(skip) && n <= skip
      ensures n <= |old(Rest(reader))| && Rest(reader) == old(Rest(reader))[n..]
      ensures Rank(reader) <= old(Rank(reader))
      ensures st.Ok? <==> n == skip
      ensures st.EOF? ==> Rest(reader) == []
      ensures st.Failed? ==> Faulty(reader)
      ensures old(Open(reader)) ==> Open(reader)
      decreases height, 0
    {
      hide Rest, Rank, Faulty, Open, Closed;
      n, st := Discard(reader, skip);
    }

    method Forward(n: nat)
      requires Valid(SkippingReader(this)) && n <= skip
      modifies this`skip
      ensures Valid(SkippingReader(this)) && skip == old(skip) - n
      ensures Rest(reader) == old(Rest(reader)) && Rank(reader) == old(Rank(reader))
      ensures Open(reader) == old(Open(reader))
    {
      hide Rest, Rank, Faulty, Open, Closed;
      skip := skip - n;
    }
  }

  class LimitedReadCloser {
    const reader: ReadCloser
    var left: int
    ghost const inner: set<object>
    ghost const height: nat

    constructor (reader: ReadCloser, max: int)
      requires Valid(reader)
      ensures Valid(LimitedReader(this)) && fresh(this) && inner == Repr(reader)
      ensures this.reader == reader && left == max
    {
      this.reader, left := reader, max;
      inner, height := Repr(reader), Height(reader) + 1;
    }

    /** io.LimitedReader: the end of file comes after the given number of bytes, at once if
        that number is not positive. */
    method Read(p: nat) returns (data: Bytes, st: Status)
      requires Valid(LimitedReader(this)) && p > 0
      modifies Repr(LimitedReader(this))
      ensures Valid(LimitedReader(this))
      ensures Served(old(Rest(LimitedReader(this))), data, Rest(LimitedReader(this)), p, st)
      ensures Lowered(old(Rank(LimitedReader(this))), Rank(LimitedReader(this)), st)
      ensures st.Failed? ==> Faulty(LimitedReader(this))
      ensures old(Open(LimitedReader(this))) ==> Open(LimitedReader(this))
      decreases height, 2
    {
      hide Rest, Rank, Faulty, Open, Closed;
      LimitParts(this);
      if left <= 0 {
        return [], EOF;
      }
      data, st := ReadAny(reader, Min(p, left));
      left := left - |data|;
      LimitParts(this);
    }
  }

  class PartReadCloser {
    const reader: ReadCloser
    const partSize: nat
    var readSoFar: nat
    ghost const inner: set<object>
    ghost const height: nat

    constructor (reader: ReadCloser, partSize: nat)
      requires Valid(reader) && partSize > 0
      ensures Valid(PartReader(this)) && fresh(this) && inner == Repr(reader)
      ensures this.reader == reader && this.partSize == partSize && readSoFar == 0
    {
      this.reader, this.partSize, readSoFar := reader, partSize, 0;
      inner, height := Repr(reader), Height(reader) + 1;
    }

    method Read(p: nat) returns (data: Bytes, st: Status)
      requires Valid(PartReader(this)) && p > 0
      modifies Repr(PartReader(this))
      ensures Valid(PartReader(this)) && readSoFar == old(readSoFar) + |data|
      ensures Served(old(Rest(PartReader(this))), data, Rest(PartReader(this)), p, st)
      ensures Lowered(old(Rank(PartReader(this))), Rank(PartReader(this)), st)
      ensures st.Failed? ==> Faulty(PartReader(this))
      ensures old(Open(PartReader(this))) ==> Open(PartReader(this))
      decreases height, 2
    {
      hide Rest, Rank, Faulty, Open, Closed;
      PartParts(this);
      data, st := ReadAny(reader, p);
      readSoFar := readSoFar + |data|;
      PartParts(this);
    }

    /** Reads on to the end of the current part before closing, as far as there is one and unless the
        reader fails: the bytes taken from the body are then whole parts, or all it has. */
    method Close()
      requires Valid(PartReader(this))
      modifies Repr(PartReader(this))
      ensures Valid(PartReader(this)) && readSoFar == old(readSoFar)
      ensures old(Open(PartReader(this))) ==> Closed(PartReader(this))
      ensures ClosesInPlace(reader) ==>
                Drained(old(Rest(PartReader(this))), Rest(PartReader(this)), ToBoundary(readSoFar, partSize),
                        Faulty(reader))
      decreases height, 2
    {
      hide Valid, Rest, Rank, Faulty, Open, Closed;
      PartParts(this);
      DrainInner();
      PartParts(this);
      CloseReader();
      PartParts(this);
    }

    method DrainInner()
      requires Valid(PartReader(this)) && Valid(reader)
      modifies Repr(PartReader(this))
      ensures Valid(PartReader(this)) && Valid(reader) && readSoFar == old(readSoFar)
      ensures Drained(old(Rest(reader)), Rest(reader), ToBoundary(readSoFar, partSize), Faulty(reader))
      ensures old(Open(reader)) ==> Open(reader)
      decreases height, 1
    {
      hide Rest, Rank, Faulty, Open, Closed;
      var readFromCurrent := readSoFar % partSize;
      Boundary(readSoFar, partSize);
      if readFromCurrent != 0 {
        var n, st := Discard(reader, partSize - readFromCurrent);
      }
    }

    method CloseReader()
      requires Valid(PartReader(this)) && Valid(reader)
      modifies Repr(PartReader(this))
      ensures Valid(PartReader(this)) && Valid(reader) && readSoFar == old(readSoFar)
      ensures old(Open(reader)) ==> Closed(reader)
      ensures ClosesInPlace(reader) ==> Rest(reader) == old(Rest(reader))
      decreases height, 1
    {
      hide Rest, Rank, Faulty, Open, Closed;
      CloseAny(reader);
    }
  }

  /** The objects a reader is made of. */
  ghost function Repr(r: ReadCloser): set<object> {
    match r
    case SourceReader(s) => {s}
    case MultiReader(m) => {m} + m.inner
    case SkippingReader(k) => {k} + k.inner
    case LimitedReader(l) => {l} + l.inner
    case PartReader(f) => {f} + f.inner
  }

  ghost function Height(r: ReadCloser): nat {
    match r
    case SourceReader(s) => 0
    case MultiReader(m) => m.height
    case SkippingReader(k) => k.height
    case LimitedReader(l) => l.height
    case PartReader(f) => f.height
  }

  ghost function ReprAll(rs: seq<ReadCloser>): set<object> {
    set i, o | 0 <= i < |rs| && o in Repr(rs[i]) :: o
  }

  ghost function HeightAll(rs: seq<ReadCloser>): (h: nat)
    ensures forall c :: c in rs ==> Height(c) < h
  {
    if rs == [] then 1 else Max(Height(rs[0]) + 1, HeightAll(rs[1..]))
  }

  /** No object is part of two of the readers. */
  ghost predicate Separate(rs: seq<ReadCloser>) {
    forall i, j :: 0 <= i < j < |rs| ==> Repr(rs[i]) !! Repr(rs[j])
  }

  ghost predicate Valid(r: ReadCloser)
    reads Repr(r)
    decreases Height(r)
  {
    match r
    case SourceReader(s) => true
    case MultiReader(m) =>
      && m.index <= |m.readers| && m !in m.inner && Separate(m.readers)
      && forall i :: 0 <= i < |m.readers| ==>
           Height(m.readers[i]) < m.height && Repr(m.readers[i]) <= m.inner && Valid(m.readers[i])
    case SkippingReader(k) =>
      k !in k.inner && Height(k.reader) < k.height && Repr(k.reader) <= k.inner && Valid(k.reader)
    case LimitedReader(l) =>
      l !in l.inner && Height(l.reader) < l.height && Repr(l.reader) <= l.inner && Valid(l.reader)
    case PartReader(f) =>
      f !in f.inner && Height(f.reader) < f.height && Repr(f.reader) <= f.inner && Valid(f.reader) && f.partSize > 0
  }

  function Drop<T>(s: seq<T>, n: nat): seq<T> { s[Min(n, |s|)..] }

  /** The bytes a reader still has to hand out. */
  ghost function Rest(r: ReadCloser): Bytes
    requires Valid(r)
    reads Repr(r)
    decreases Height(r), 1, 0
  {
    match r
    case SourceReader(s) => s.rest
    case MultiReader(m) => RestAll(m.readers[m.index..], m.height)
    case SkippingReader(k) => Drop(Rest(k.reader), k.skip)
    case LimitedReader(l) => Take(Rest(l.reader), l.left)
    case PartReader(f) => Rest(f.reader)
  }

  ghost predicate ValidAll(rs: seq<ReadCloser>, h: nat)
    reads ReprAll(rs)
  {
    forall i :: 0 <= i < |rs| ==> Repr(rs[i]) <= ReprAll(rs) && Height(rs[i]) < h && Valid(rs[i])
  }

  ghost function RestAll(rs: seq<ReadCloser>, h: nat): Bytes
    requires ValidAll(rs, h)
    reads ReprAll(rs)
    decreases h, 0, |rs|
  {
    if rs == [] then [] else Rest(rs[0]) + RestAll(rs[1..], h)
  }

  /** Bounds the number of further reads that report no end. */
  ghost function Rank(r: ReadCloser): nat
    requires Valid(r)
    reads Repr(r)
    decreases Height(r), 1, 0
  {
    match r
    case SourceReader(s) => |s.rest| + s.stalls
    case MultiReader(m) => RankAll(m.readers[m.index..], m.height)
    case SkippingReader(k) => Rank(k.reader)
    case LimitedReader(l) => Rank(l.reader)
    case PartReader(f) => Rank(f.reader)
  }

  ghost function RankAll(rs: seq<ReadCloser>, h: nat): nat
    requires ValidAll(rs, h)
    reads ReprAll(rs)
    decreases h, 0, |rs|
  {
    if rs == [] then 0 else Rank(rs[0]) + 1 + RankAll(rs[1..], h)
  }

  /** Some source under the reader may fail. */
  ghost predicate Faulty(r: ReadCloser)
    decreases Height(r)
  {
    match r
    case SourceReader(s) => s.faulty
    case MultiReader(m) =>
      exists i :: 0 <= i < |m.readers| && Height(m.readers[i]) < m.height && Faulty(m.readers[i])
    case SkippingReader(k) => Height(k.reader) < k.height && Faulty(k.reader)
    case LimitedReader(l) => Height(l.reader) < l.height && Faulty(l.reader)
    case PartReader(f) => Height(f.reader) < f.height && Faulty(f.reader)
  }

  ghost predicate OpenAll(rs: seq<ReadCloser>, h: nat)
    requires ValidAll(rs, h)
    reads ReprAll(rs)
    decreases h, 0, |rs|
  {
    rs == [] || (Open(rs[0]) && OpenAll(rs[1..], h))
  }

  ghost predicate ClosedAll(rs: seq<ReadCloser>, h: nat)
    requires ValidAll(rs, h)
    reads ReprAll(rs)
    decreases h, 0, |rs|
  {
    rs == [] || (Closed(rs[|rs| - 1]) && ClosedAll(rs[..|rs| - 1], h))
  }

  /** The current reader of a MultiReadCloser and the ones after it. */
  lemma MultiCurrent(m: MultiReadCloser)
    requires Valid(MultiReader(m)) && m.index < |m.readers|
    ensures var c, later, h := m.readers[m.index], m.readers[m.index + 1..], m.height;
            && ValidAll(later, h) && ValidAll(m.readers[..m.index], h) && Height(c) < h && Valid(c)
            && m !in m.inner && Repr(c) <= m.inner
            && Repr(c) !! ReprAll(later) && Repr(c) !! ReprAll(m.readers[..m.index])
            && Rest(MultiReader(m)) == Rest(c) + RestAll(later, h)
            && Rank(MultiReader(m)) == Rank(c) + 1 + RankAll(later, h)
            && (Faulty(c) ==> Faulty(MultiReader(m)))
            && (Open(MultiReader(m)) <==> ClosedAll(m.readers[..m.index], h) && Open(c) && OpenAll(later, h))
  {
    var c, later, h := m.readers[m.index], m.readers[m.index + 1..], m.height;
    assert m.readers[m.index..][0] == c && m.readers[m.index..][1..] == later;
    SeparateFirst(m.readers, m.index);
  }

  lemma MultiEnd(m: MultiReadCloser)
    requires Valid(MultiReader(m))
    ensures m.index <= |m.readers|
    ensures m.index < |m.readers| ==> Valid(m.readers[m.index]) && Repr(m.readers[m.index]) <= m.inner
    ensures m.index == |m.readers| ==> Rest(MultiReader(m)) == []
    ensures forall j :: 0 <= j < |m.readers| ==> Valid(m.readers[j])
  {
  }

  lemma MultiOver(m: MultiReadCloser)
    requires Valid(MultiReader(m)) && m.index == |m.readers|
    ensures Open(MultiReader(m)) ==> Closed(MultiReader(m))
    ensures Rest(MultiReader(m)) == []
  {
    assert m.readers[..m.index] == m.readers;
  }

  lemma SkipParts(k: SkippingReadCloser)
    requires Valid(SkippingReader(k))
    ensures Rest(SkippingReader(k)) == Drop(Rest(k.reader), k.skip)
    ensures Rank(SkippingReader(k)) == Rank(k.reader)
    ensures Faulty(SkippingReader(k)) == Faulty(k.reader)
    ensures Open(SkippingReader(k)) == Open(k.reader) && Closed(SkippingReader(k)) == Closed(k.reader)
  {
  }

  lemma LimitParts(l: LimitedReadCloser)
    requires Valid(LimitedReader(l))
    ensures Rest(LimitedReader(l)) == Take(Rest(l.reader), l.left)
    ensures Rank(LimitedReader(l)) == Rank(l.reader)
    ensures Faulty(LimitedReader(l)) == Faulty(l.reader)
    ensures Open(LimitedReader(l)) == Open(l.reader) && Closed(LimitedReader(l)) == Closed(l.reader)
  {
  }

  lemma PartParts(f: PartReadCloser)
    requires Valid(PartReader(f))
    ensures f.partSize > 0 && Valid(f.reader)
    ensures Rest(PartReader(f)) == Rest(f.reader)
    ensures Rank(PartReader(f)) == Rank(f.reader)
    ensures Faulty(PartReader(f)) == Faulty(f.reader)
    ensures Open(PartReader(f)) == Open(f.reader) && Closed(PartReader(f)) == Closed(f.reader)
  {
  }

  lemma MultiParts(m: MultiReadCloser)
    requires Valid(MultiReader(m))
    ensures m.index <= |m.readers|
    ensures ValidAll(m.readers[m.index..], m.height)
    ensures ValidAll(m.readers[..m.index], m.height)
    ensures Open(MultiReader(m))
       <==> ClosedAll(m.readers[..m.index], m.height) && OpenAll(m.readers[m.index..], m.height)
    ensures m.index > 0 ==> ValidAll(m.readers[..m.index - 1], m.height) && Valid(m.readers[m.index - 1])
    ensures m.index > 0 ==> (ClosedAll(m.readers[..m.index], m.height) <==>
                             Closed(m.readers[m.index - 1]) && ClosedAll(m.readers[..m.index - 1], m.height))
    ensures Rest(MultiReader(m)) == RestAll(m.readers[m.index..], m.height)
    ensures Rank(MultiReader(m)) == RankAll(m.readers[m.index..], m.height)
  {
    if m.index > 0 {
      assert m.readers[..m.index][m.index - 1] == m.readers[m.index - 1];
      assert m.readers[..m.index][..m.index - 1] == m.readers[..m.index - 1];
    }
  }

  ghost predicate Lowered(was: nat, now: nat, st: Status) {
    now <= was && (st.Ok? ==> now < was)
  }

  /** Every source under the reader that is not over has never been closed, every other one
      was closed once. */
  ghost predicate Open(r: ReadCloser)
    requires Valid(r)
    reads Repr(r)
    decreases Height(r), 1, 0
  {
    match r
    case SourceReader(s) => s.closes == 0
    case MultiReader(m) => ClosedAll(m.readers[..m.index], m.height) && OpenAll(m.readers[m.index..], m.height)
    case SkippingReader(k) => Open(k.reader)
    case LimitedReader(l) => Open(l.reader)
    case PartReader(f) => Open(f.reader)
  }

  /** Every source under the reader was closed exactly once. */
  ghost predicate Closed(r: ReadCloser)
    requires Valid(r)
    reads Repr(r)
    decreases Height(r), 1, 0
  {
    match r
    case SourceReader(s) => s.closes == 1
    case MultiReader(m) => ClosedAll(m.readers, m.height)
    case SkippingReader(k) => Closed(k.reader)
    case LimitedReader(l) => Closed(l.reader)
    case PartReader(f) => Closed(f.reader)
  }

  /** No source under the reader has been closed. */
  ghost predicate NoneClosed(r: ReadCloser)
    requires Valid(r)
    reads Repr(r)
    decreases Height(r)
  {
    match r
    case SourceReader(s) => s.closes == 0
    case MultiReader(m) => forall i :: 0 <= i < |m.readers| ==> NoneClosed(m.readers[i])
    case SkippingReader(k) => NoneClosed(k.reader)
    case LimitedReader(l) => NoneClosed(l.reader)
    case PartReader(f) => NoneClosed(f.reader)
  }

  /** Nothing under the reader, at any depth, is put together from several readers. */
  ghost predicate Single(r: ReadCloser)
    decreases Height(r)
  {
    match r
    case SourceReader(s) => true
    case MultiReader(m) => false
    case SkippingReader(k) => Height(k.reader) < k.height && Single(k.reader)
    case LimitedReader(l) => Height(l.reader) < l.height && Single(l.reader)
    case PartReader(f) => Height(f.reader) < f.height && Single(f.reader)
  }

  ghost predicate Plain(m: MultiReadCloser) {
    forall i :: 0 <= i < |m.readers| ==> Single(m.readers[i])
  }

  /** A single source is open when it was not closed, and then it is not closed. */
  lemma {:induction false} SingleOpen(r: ReadCloser)
    requires Valid(r) && Single(r)
    ensures Open(r) <==> NoneClosed(r)
    ensures Open(r) ==> !Closed(r)
    decreases Height(r)
  {
    match r
    case SourceReader(s) =>
    case SkippingReader(k) => SingleOpen(k.reader);
    case LimitedReader(l) => SingleOpen(l.reader);
    case PartReader(f) => SingleOpen(f.reader);
  }

  lemma {:induction false} OpenEach(rs: seq<ReadCloser>, h: nat)
    requires ValidAll(rs, h)
    ensures OpenAll(rs, h) <==> forall j :: 0 <= j < |rs| ==> Open(rs[j])
  {
    if rs != [] {
      OpenEach(rs[1..], h);
      assert forall j :: 1 <= j < |rs| ==> rs[j] == rs[1..][j - 1];
    }
  }

  lemma {:induction false} ClosedEach(rs: seq<ReadCloser>, h: nat)
    requires ValidAll(rs, h)
    ensures ClosedAll(rs, h) <==> forall j :: 0 <= j < |rs| ==> Closed(rs[j])
  {
    if rs != [] {
      ClosedEach(rs[..|rs| - 1], h);
      assert forall j :: 0 <= j < |rs| - 1 ==> rs[j] == rs[..|rs| - 1][j];
    }
  }

  /** What open and closed mean reader by reader. */
  lemma MultiEach(m: MultiReadCloser)
    requires Valid(MultiReader(m))
    ensures forall j :: 0 <= j < |m.readers| ==> Valid(m.readers[j])
    ensures Open(MultiReader(m))
       <==> forall j :: 0 <= j < |m.readers| ==> if j < m.index then Closed(m.readers[j]) else Open(m.readers[j])
    ensures Closed(MultiReader(m)) <==> forall j :: 0 <= j < |m.readers| ==> Closed(m.readers[j])
  {
    hide Valid, Open, Closed, OpenAll, ClosedAll, ValidAll;
    MultiAll(m);
    ClosedEach(m.readers, m.height);
    SplitEach(m);
  }

  lemma MultiAll(m: MultiReadCloser)
    requires Valid(MultiReader(m))
    ensures m.index <= |m.readers|
    ensures forall j :: 0 <= j < |m.readers| ==> Valid(m.readers[j])
    ensures ValidAll(m.readers, m.height)
    ensures ValidAll(m.readers[..m.index], m.height) && ValidAll(m.readers[m.index..], m.height)
    ensures Open(MultiReader(m))
       <==> ClosedAll(m.readers[..m.index], m.height) && OpenAll(m.readers[m.index..], m.height)
    ensures Closed(MultiReader(m)) <==> ClosedAll(m.readers, m.height)
  {
    hide OpenAll, ClosedAll;
  }

  lemma SplitEach(m: MultiReadCloser)
    requires m.index <= |m.readers| && forall j :: 0 <= j < |m.readers| ==> Valid(m.readers[j])
    requires ValidAll(m.readers[..m.index], m.height) && ValidAll(m.readers[m.index..], m.height)
    ensures ClosedAll(m.readers[..m.index], m.height) && OpenAll(m.readers[m.index..], m.height)
       <==> forall j :: 0 <= j < |m.readers| ==> if j < m.index then Closed(m.readers[j]) else Open(m.readers[j])
  {
    hide Open, Closed, OpenAll, ClosedAll, Valid;
    var done, left := m.readers[..m.index], m.readers[m.index..];
    ClosedEach(done, m.height);
    OpenEach(left, m.height);
    assert forall j :: 0 <= j < m.index ==> done[j] == m.readers[j];
    assert forall j :: m.index <= j < |m.readers| ==> left[j - m.index] == m.readers[j];
  }

  /** What one call of Read returns and leaves. */
  ghost predicate Served(was: Bytes, data: Bytes, now: Bytes, p: nat, st: Status) {
    |data| <= p && data + now == was && (st.EOF? ==> now == [])
  }

  method ReadAny(r: ReadCloser, p: nat) returns (data: Bytes, st: Status)
    requires Valid(r) && p > 0
    modifies Repr(r)
    ensures Valid(r)
    ensures Served(old(Rest(r)), data, Rest(r), p, st)
    ensures Lowered(old(Rank(r)), Rank(r), st)
    ensures st.Failed? ==> Faulty(r)
    ensures old(Open(r)) ==> Open(r)
    decreases Height(r), 3
  {
    match r
    case SourceReader(s) => data, st := s.Read(p);
    case MultiReader(m) => data, st := m.Read(p);
    case SkippingReader(k) => data, st := k.Read(p);
    case LimitedReader(l) => data, st := l.Read(p);
    case PartReader(f) => data, st := f.Read(p);
  }

  /** io.CopyN(ioutil.Discard, r, n): reads at most n bytes, in portions of any size, and
      fails with the end of file when there are fewer. */
  method Discard(r: ReadCloser, n: nat) returns (written: nat, st: Status)
    requires Valid(r)
    modifies Repr(r)
    ensures Valid(r) && written <= n
    ensures written <= |old(Rest(r))| && Rest(r) == old(Rest(r))[written..]
    ensures Rank(r) <= old(Rank(r))
    ensures st.Ok? <==> written == n
    ensures st.EOF? ==> Rest(r) == []
    ensures st.Failed? ==> Faulty(r)
    ensures old(Open(r)) ==> Open(r)
    decreases Height(r), 4
  {
    hide Valid, Rest, Rank, Faulty, Open, Closed;
    written, st := 0, Ok;
    while written < n && st.Ok?
      invariant Valid(r) && written <= n && written <= |old(Rest(r))| && Rest(r) == old(Rest(r))[written..]
      invariant Rank(r) <= old(Rank(r)) && (st.EOF? ==> Rest(r) == []) && (st.Failed? ==> Faulty(r))
      invariant old(Open(r)) ==> Open(r)
      decreases st.Ok?, Rank(r)
    {
      var p: nat := *;
      var data;
      data, st := ReadAny(r, Max(1, Min(p, n - written)));
      written := written + |data|;
    }
    if written == n {
      st := Ok;
    }
  }

  /** How many bytes there are from a position to the next multiple of the part size. */
  function ToBoundary(pos: nat, partSize: nat): (k: nat)
    requires partSize > 0
    ensures k < partSize
  {
    (partSize - pos % partSize) % partSize
  }

  lemma Boundary(pos: nat, partSize: nat)
    requires partSize > 0
    ensures ToBoundary(pos, partSize) == if pos % partSize == 0 then 0 else partSize - pos % partSize
    ensures (pos + ToBoundary(pos, partSize)) % partSize == 0
  {
    DivBounds(pos, partSize);
    var q := pos / partSize;
    if pos % partSize == 0 {
      DivIs(partSize, partSize, 1);
    } else {
      SmallMod(partSize - pos % partSize, partSize);
      MulNext(q, partSize);
      DivIs(pos + ToBoundary(pos, partSize), partSize, q + 1);
    }
  }

  /** The first k bytes are gone, or all if there are fewer; perhaps not so many of a faulty reader. */
  ghost predicate Drained(was: Bytes, now: Bytes, k: nat, faulty: bool) {
    && |now| <= |was| <= |now| + k
    && now == was[|was| - |now|..]
    && (!faulty ==> now == Drop(was, k))
  }

  /** No Close under the reader takes any bytes. */
  ghost predicate ClosesInPlace(r: ReadCloser)
    decreases Height(r)
  {
    match r
    case SourceReader(s) => true
    case MultiReader(m) => false
    case SkippingReader(k) => Height(k.reader) < k.height && ClosesInPlace(k.reader)
    case LimitedReader(l) => Height(l.reader) < l.height && ClosesInPlace(l.reader)
    case PartReader(f) => false
  }

  method CloseAny(r: ReadCloser)
    requires Valid(r)
    modifies Repr(r)
    ensures Valid(r) && (old(Open(r)) ==> Closed(r))
    ensures ClosesInPlace(r) ==> Rest(r) == old(Rest(r))
    decreases Height(r), 3
  {
    match r
    case SourceReader(s) => s.Close();
    case MultiReader(m) => m.Close();
    case SkippingReader(k) =>
      SkipParts(k);
      CloseAny(k.reader);
      SkipParts(k);
    case LimitedReader(l) =>
      LimitParts(l);
      CloseAny(l.reader);
      LimitParts(l);
    case PartReader(f) => f.Close();
  }

  lemma SeparateFirst(rs: seq<ReadCloser>, i: nat)
    requires Separate(rs) && i < |rs|
    ensures Repr(rs[i]) !! ReprAll(rs[i + 1..])
    ensures Repr(rs[i]) !! ReprAll(rs[..i])
  {
  }

  /** The client's side of a response. A write may stop at any byte. */
  class Response {
    var written: Bytes
    var broken: bool

    constructor ()
      ensures written == [] && !broken
    {
      written, broken := [], false;
    }

    method Write(data: Bytes) returns (n: nat)
      modifies this
      ensures n <= |data| && written == old(written) + data[..n]
      ensures n < |data| ==> broken
      ensures old(broken) ==> broken
    {
      n := |data|;
      if * {
        n := *;
        n := Min(n, |data|);
      }
      broken := broken || n < |data|;
      written := written + data[..n];
    }
  }

  /** What copying leaves in the response: all of the bytes on success, otherwise a prefix of
      them. */
  ghost predicate Copied(was: Bytes, rest: Bytes, now: Bytes, ok: bool) {
    was <= now <= was + rest && (ok ==> now == was + rest)
  }

  /** One read and the write of what it returned. */
  method CopyStep(w: Response, r: ReadCloser) returns (st: Status, whole: bool)
    requires Valid(r) && w !in Repr(r)
    modifies w, Repr(r)
    ensures Valid(r)
    ensures whole ==> old(w.written) <= w.written && w.written + Rest(r) == old(w.written) + old(Rest(r))
    ensures Copied(old(w.written), old(Rest(r)), w.written, false)
    ensures !whole ==> w.broken
    ensures old(w.broken) ==> w.broken
    ensures Lowered(old(Rank(r)), Rank(r), st)
    ensures st.EOF? ==> Rest(r) == []
    ensures st.Failed? ==> Faulty(r)
    ensures old(Open(r)) ==> Open(r)
    decreases Height(r), 4
  {
    hide Valid, Rest, Rank, Faulty, Open, Closed;
    var p: nat := *;
    var data;
    data, st := ReadAny(r, Max(p, 1));
    var n := w.Write(data);
    whole := n == |data|;
    WriteWithin(old(w.written), data, Rest(r), n);
  }

  lemma WriteWithin(before: Bytes, data: Bytes, left: Bytes, n: nat)
    requires n <= |data|
    ensures Copied(before, data + left, before + data[..n], false)
    ensures n == |data| ==> (before + data[..n]) + left == before + (data + left)
  {
    assert before + (data + left) == (before + data[..n]) + (data[n..] + left);
  }

  lemma CopiedMore(was: Bytes, rest: Bytes, before: Bytes, left: Bytes, now: Bytes)
    requires was <= before && before + left == was + rest && Copied(before, left, now, false)
    ensures Copied(was, rest, now, false)
  {
  }

  lemma CopiedLonger(was: Bytes, rest: Bytes, more: Bytes, now: Bytes, ok: bool)
    requires Copied(was, rest, now, ok)
    ensures Copied(was, rest + more, now, false)
    ensures ok ==> now + more == was + (rest + more)
  {
    assert was + (rest + more) == (was + rest) + more;
  }

  /** The loop of io.Copy for a source without WriteTo. */
  method CopyLoop(w: Response, r: ReadCloser) returns (ok: bool)
    requires Valid(r) && w !in Repr(r)
    modifies w, Repr(r)
    ensures Valid(r)
    ensures Copied(old(w.written), old(Rest(r)), w.written, ok)
    ensures ok ==> Rest(r) == []
    ensures !ok ==> Faulty(r) || w.broken
    ensures old(w.broken) ==> w.broken
    ensures old(Open(r)) ==> Open(r)
    decreases Height(r), 5
  {
    hide Valid, Rest, Rank, Faulty, Open, Closed;
    var st := Ok;
    while st.Ok?
      invariant Valid(r) && old(w.written) <= w.written && w.written + Rest(r) == old(w.written) + old(Rest(r))
      invariant (st.EOF? ==> Rest(r) == []) && (st.Failed? ==> Faulty(r))
      invariant old(w.broken) ==> w.broken
      invariant old(Open(r)) ==> Open(r)
      decreases st.Ok?, Rank(r)
    {
      ghost var before, left := w.written, Rest(r);
      var whole;
      st, whole := CopyStep(w, r);
      CopiedMore(old(w.written), old(Rest(r)), before, left, w.written);
      if !whole {
        return false;
      }
    }
    ok := st.EOF?;
  }

  /** The reader r with nothing but skips and limits around it. */
  ghost predicate Wraps(w: ReadCloser, r: ReadCloser)
    decreases Height(w)
  {
    || w == r
    || (w.SkippingReader? && Height(w.k.reader) < w.k.height && Wraps(w.k.reader, r))
    || (w.LimitedReader? && Height(w.l.reader) < w.l.height && Wraps(w.l.reader, r))
  }

  lemma WrapsLimit(w: ReadCloser, v: ReadCloser, r: ReadCloser)
    requires Wraps(v, r) && w.LimitedReader? && w.l.reader == v && Height(v) < w.l.height
    ensures Wraps(w, r)
  {
  }

  lemma WrapsSelf(r: ReadCloser)
    ensures Wraps(r, r)
  {
  }

  lemma {:induction false} WrapsSame(w: ReadCloser, r: ReadCloser)
    requires Valid(w) && Wraps(w, r)
    ensures Valid(r) && Repr(r) <= Repr(w)
    ensures Open(w) == Open(r) && Closed(w) == Closed(r) && NoneClosed(w) == NoneClosed(r)
    ensures w.MultiReader? ==> w == r
    decreases Height(w)
  {
    if w != r {
      match w
      case SkippingReader(k) => WrapsSame(k.reader, r);
      case LimitedReader(l) => WrapsSame(l.reader, r);
    }
  }

  /** Ignores the first bytes: a file is moved forward, anything else is wrapped. */
  method SkipReadCloser(r: ReadCloser, skip: nat) returns (result: ReadCloser, err: bool)
    requires Valid(r)
    modifies Repr(r)
    ensures !err ==> Valid(result) && Rest(result) == Drop(old(Rest(r)), skip) && fresh(Repr(result) - Repr(r))
    ensures !err ==> Faulty(result) == Faulty(r)
    ensures err ==> Faulty(r) && r.SourceReader? && r.s.seekable
    ensures Valid(r) && Open(r) == old(Open(r)) && (r.MultiReader? ==> r.m.index == old(r.m.index))
    ensures !err ==> Wraps(result, r) && !result.MultiReader?
  {
    result, err := r, false;
    if r.SourceReader? && r.s.seekable {
      err := r.s.Seek(skip);
    } else {
      var k := new SkippingReadCloser(r, skip);
      result := SkippingReader(k);
    }
  }

  /** Stops after the given number of bytes. */
  method LimitReadCloser(r: ReadCloser, max: int) returns (result: ReadCloser)
    requires Valid(r)
    ensures Valid(result) && Rest(result) == Take(old(Rest(r)), max) && fresh(Repr(result) - Repr(r))
    ensures result.LimitedReader? && result.l.reader == r && Height(r) < result.l.height
    ensures Faulty(result) == Faulty(r)
  {
    var l := new LimitedReadCloser(r, max);
    result := LimitedReader(l);
  }

  /** io.Copy: a source that knows how to write itself does so. The WriteTo of a
      limitedReadCloser copies from its LimitedReader, which is the loop again where the response
      takes the bytes through Write: see TimeoutConn for one that reads them by itself. */
  method Copy(w: Response, r: ReadCloser) returns (ok: bool)
    requires Valid(r) && w !in Repr(r)
    modifies w, Repr(r)
    ensures Valid(r)
    ensures Copied(old(w.written), old(Rest(r)), w.written, ok)
    ensures !ok ==> Faulty(r) || w.broken
    ensures old(w.broken) ==> w.broken
    ensures old(Open(r)) && !r.MultiReader? ==> Open(r)
    decreases Height(r), 7
  {
    match r
    case MultiReader(m) => ok := m.WriteTo(w);
    case _ => ok := CopyLoop(w, r);
  }

  /** Copying from a MultiReadCloser and closing it: the readers that the copy got past are left
      as they are, closed by nobody; all the others end up closed exactly once. */
  method CopyAndClose(w: Response, m: MultiReadCloser) returns (ok: bool, ghost passed: nat)
    requires Valid(MultiReader(m)) && w !in Repr(MultiReader(m))
    modifies w, Repr(MultiReader(m))
    ensures Valid(MultiReader(m)) && forall j :: 0 <= j < |m.readers| ==> Valid(m.readers[j])
    ensures Copied(old(w.written), old(Rest(MultiReader(m))), w.written, ok)
    ensures !ok ==> Faulty(MultiReader(m)) || w.broken
    ensures old(m.index) <= passed <= |m.readers| && (ok ==> passed == |m.readers|)
    ensures old(Open(MultiReader(m))) && Plain(m) ==> forall j :: 0 <= j < |m.readers| ==>
              if old(m.index) <= j < passed then NoneClosed(m.readers[j]) else Closed(m.readers[j])
  {
    hide Valid, Rest, Faulty, Open, Closed, NoneClosed, Single;
    MultiEach(m);
    ghost var open := Open(MultiReader(m)) && Plain(m);
    ghost var from := m.index;
    if open {
      forall j | 0 <= j < |m.readers| ensures !m.readers[j].MultiReader? { SingleIsNoMulti(m.readers[j]); }
    }
    ok := m.WriteTo(w);
    passed := m.index;
    m.Close();
    if open {
      forall j | from <= j < passed ensures NoneClosed(m.readers[j]) { SingleOpen(m.readers[j]); }
    }
  }

  lemma SingleIsNoMulti(r: ReadCloser)
    requires Single(r)
    ensures !r.MultiReader?
  {
  }

  /** io.Copy and Close, as every turn of lazilyRespond does them: a reader that is not put together
      from several is closed exactly once, source by source. One that is, from single readers, is
      closed exactly when the copy did not get past any of them. Both also hold when the copy fails. */
  method CopyThenClose(w: Response, r: ReadCloser) returns (ok: bool, ghost passed: nat)
    requires Valid(r) && w !in Repr(r)
    modifies w, Repr(r)
    ensures Valid(r)
    ensures Copied(old(w.written), old(Rest(r)), w.written, ok)
    ensures !ok ==> Faulty(r) || w.broken
    ensures old(Open(r)) && !r.MultiReader? ==> Closed(r)
    ensures r.MultiReader? ==>
              old(r.m.index) <= passed <= |r.m.readers| && (ok ==> passed == |r.m.readers|)
              && forall j :: 0 <= j < |r.m.readers| ==> Valid(r.m.readers[j])
    ensures old(Open(r)) && r.MultiReader? && Plain(r.m) ==>
              && (Closed(r) <==> passed == old(r.m.index))
              && (forall j :: 0 <= j < |r.m.readers| ==>
                    if old(r.m.index) <= j < passed then NoneClosed(r.m.readers[j]) else Closed(r.m.readers[j]))
  {
    hide Valid, Rest, Faulty, Open, Closed, Single, NoneClosed;
    match r
    case MultiReader(m) =>
      ghost var from := m.index;
      ghost var open := Open(r) && Plain(m);
      ok, passed := CopyAndClose(w, m);
      if open {
        ClosedUnlessPassed(m, from, passed);
      }
    case _ =>
      passed := 0;
      ok := CopyLoop(w, r);
      CloseAny(r);
  }

  lemma ClosedUnlessPassed(m: MultiReadCloser, from: nat, passed: nat)
    requires Valid(MultiReader(m)) && Plain(m) && from <= passed <= |m.readers|
    requires forall j :: 0 <= j < |m.readers| ==> Valid(m.readers[j])
    requires forall j :: 0 <= j < |m.readers| ==>
               if from <= j < passed then NoneClosed(m.readers[j]) else Closed(m.readers[j])
    ensures Closed(MultiReader(m)) <==> passed == from
  {
    MultiEach(m);
    if from < passed {
      SingleOpen(m.readers[from]);
    }
  }

  /** Reading to the end through Read and closing: each source is closed exactly once, also where
      readers are put together from several. */
  method DrainAndClose(w: Response, r: ReadCloser) returns (ok: bool)
    requires Valid(r) && w !in Repr(r)
    modifies w, Repr(r)
    ensures Valid(r)
    ensures Copied(old(w.written), old(Rest(r)), w.written, ok)
    ensures !ok ==> Faulty(r) || w.broken
    ensures old(Open(r)) ==> Closed(r)
  {
    hide Valid, Rest, Open, Closed, Faulty;
    ok := CopyLoop(w, r);
    CloseAny(r);
  }
}
