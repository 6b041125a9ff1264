/** Cutting a stream of bytes into the aligned parts of an object. */
module PartWriter {
  import opened ObjectIndexes
  import opened Arithmetic

  datatype Save = Save(part: nat, data: Bytes)

  /** A question of ShouldKeep, and its answer. */
  datatype Ask = Ask(part: nat, keep: bool)

  /** The cache zone that parts are saved to. Its algorithm may refuse parts, its disk may
      fail. */
  class CacheZone {
    const partSize: nat
    const keepsAll: bool
    const reliable: bool
    /** The successful calls of SavePart. */
    var saves: seq<Save>
    /** All calls of ShouldKeep. */
    var asks: seq<Ask>
    /** The calls of AddObject without an error, or with ErrAlreadyInCache. */
    var announced: seq<nat>

    constructor (partSize: nat, keepsAll: bool, reliable: bool)
      ensures this.partSize == partSize && this.keepsAll == keepsAll && this.reliable == reliable
      ensures saves == [] && asks == [] && announced == []
    {
      this.partSize, this.keepsAll, this.reliable := partSize, keepsAll, reliable;
      saves, asks, announced := [], [], [];
    }

    method ShouldKeep(part: nat) returns (keep: bool)
      modifies this`asks
      ensures keepsAll ==> keep
      ensures asks == old(asks) + [Ask(part, keep)]
    {
      keep := *;
      keep := keep || keepsAll;
      asks := asks + [Ask(part, keep)];
    }

    method SavePart(part: nat, data: Bytes) returns (err: bool)
      modifies this`saves
      ensures reliable ==> !err
      ensures saves == if err then old(saves) else old(saves) + [Save(part, data)]
    {
      err := *;
      err := err && !reliable;
      if !err {
        saves := saves + [Save(part, data)];
      }
    }

    /** An error other than ErrAlreadyInCache. */
    method AddObject(part: nat) returns (err: bool)
      modifies this`announced
      ensures reliable ==> !err
      ensures announced == if err then old(announced) else old(announced) + [part]
    {
      err := *;
      err := err && !reliable;
      if !err {
        announced := announced + [part];
      }
    }
  }

  /** The first part that begins at or after a position. */
  function FirstPart(pos: nat, partSize: nat): nat
    requires partSize > 0
  {
    (pos + partSize - 1) / partSize
  }

  /** Parts p up to q of a stream that begins at position start. */
  function PartsOf(start: nat, stream: Bytes, partSize: nat, p: nat, q: nat): (r: seq<Save>)
    requires p < q ==> start <= p * partSize && q * partSize <= start + |stream|
    ensures p <= q ==> |r| == q - p
  {
    if p >= q then []
    else
      MulMono(p, q - 1, partSize);
      MulNext(q - 1, partSize);
      PartsOf(start, stream, partSize, p, q - 1)
        + [Save(q - 1, stream[(q - 1) * partSize - start..q * partSize - start])]
  }

  class PartWriter {
    const zone: CacheZone
    const partSize: nat
    const startPos: nat
    const length: nat
    const objSize: nat
    var currentPos: nat
    var buf: Option<Bytes>
    /** All bytes written so far. */
    ghost var stream: Bytes
    /** The parts handed to flushBuffer so far, saved or refused, and the number of the next
        one. */
    ghost var flushed: seq<Save>
    ghost var nextPart: nat
    ghost const before: seq<Save>
    ghost const asksBefore: seq<Ask>
    ghost const announcedBefore: seq<nat>

    constructor (zone: CacheZone, startPos: nat, length: nat, objSize: nat)
      requires zone.partSize > 0
      ensures Valid() && Settled() && fresh(this)
      ensures this.zone == zone && this.startPos == startPos && this.length == length && this.objSize == objSize
      ensures partSize == zone.partSize && stream == []
      ensures before == zone.saves && asksBefore == zone.asks && announcedBefore == zone.announced && InStep()
    {
      this.zone, this.partSize, this.startPos, this.length, this.objSize :=
        zone, zone.partSize, startPos, length, objSize;
      currentPos, buf, stream, flushed, before := startPos, None, [], [], zone.saves;
      asksBefore, announcedBefore := zone.asks, zone.announced;
      nextPart := FirstPart(startPos, zone.partSize);
      new;
      FirstPartBounds(startPos, partSize);
    }

    /** Takes bytes off data until it is all gone: bytes in front of the first part are
        skipped, the others fill buffers of one part each. A full buffer is only flushed when
        more bytes come. */
    method Write(data: Bytes) returns (n: nat, err: bool)
      requires Valid() && currentPos + |data| <= UINT32 * partSize
      modifies this, zone
      ensures Valid() && n <= |data| && stream == old(stream) + data[..n]
      ensures !err ==> n == |data| && (old(Settled()) ==> Settled())
      ensures !err && old(InStep()) ==> InStep()
      ensures zone.reliable ==> !err
    {
      hide Aligned, Recorded, FirstPart, InStep;
      n, err := 0, false;
      var remainingData := |data|;
      while remainingData > 0
        invariant n <= |data| && remainingData == |data| - n && Valid() && stream == old(stream) + data[..n]
        invariant remainingData == 0 ==> Settled() || (n == 0 && (old(Settled()) ==> Settled()))
        invariant old(InStep()) ==> InStep()
        decreases remainingData, FlushRank()
      {
        var fromPartStart := currentPos % partSize;
        var toPartEnd := partSize - fromPartStart;
        if buf.None? {
          if fromPartStart != 0 {
            var skip := Min(toPartEnd, remainingData);
            Skip(data[n..n + skip]);
            n := n + skip;
          } else {
            Allocate();
          }
        } else if |buf.value| == partSize {
          BelowLimit(|data| - n);
          err := FlushBuffer();
          if err {
            return;
          }
        } else {
          BufferFits();
          var toWrite := Min(toPartEnd, remainingData);
          Append(data[n..n + toWrite]);
          n := n + toWrite;
        }
        remainingData := |data| - n;
      }
    }

    lemma BufferFits()
      requires Valid() && buf.Some?
      ensures |buf.value| <= partSize
    {
    }

    lemma BelowLimit(more: nat)
      requires Valid() && buf.Some? && currentPos + more <= UINT32 * partSize && (more > 0 || buf.value != [])
      ensures nextPart < UINT32
    {
      MulCancelStrict(nextPart, UINT32, partSize);
    }

    /** Turns that consume nothing: a full buffer goes, then an empty one comes, and that one
        takes in at least a byte. */
    ghost function FlushRank(): nat
      reads this
    {
      match buf
      case Some(x) => if |x| == partSize then 2 else 0
      case None => 1
    }

    method Skip(data: Bytes)
      requires Valid() && buf.None? && currentPos % partSize != 0 && |data| <= partSize - currentPos % partSize
      modifies this
      ensures Valid() && Settled() && stream == old(stream) + data
      ensures old(InStep()) ==> InStep()
    {
      SkipTo();
      currentPos := currentPos + |data|;
      stream := stream + data;
    }

    /** A position that is no part boundary, without a buffer, is in front of the first part. */
    lemma SkipTo()
      requires Valid() && buf.None? && currentPos % partSize != 0
      ensures var first := FirstPart(startPos, partSize);
              nextPart == first && currentPos + partSize - currentPos % partSize == first * partSize
    {
      var first := FirstPart(startPos, partSize);
      FirstPartBounds(startPos, partSize);
      if currentPos == nextPart * partSize {
        DivIs(currentPos, partSize, nextPart);
        assert false;
      }
      MulNext(first - 1, partSize);
      DivIs(currentPos, partSize, first - 1);
    }

    method Allocate()
      requires Valid() && buf.None? && currentPos % partSize == 0
      modifies this
      ensures Valid() && stream == old(stream) && buf == Some([])
      ensures old(InStep()) ==> InStep()
    {
      AtBoundary();
      buf := Some([]);
      assert stream[nextPart * partSize - startPos..] == [];
    }

    lemma AtBoundary()
      requires Valid() && buf.None? && currentPos % partSize == 0
      ensures currentPos == nextPart * partSize
    {
      var first := FirstPart(startPos, partSize);
      FirstPartBounds(startPos, partSize);
      if currentPos < first * partSize {
        MulNext(first - 1, partSize);
        DivIs(currentPos, partSize, first - 1);
        assert false;
      }
    }

    method Append(data: Bytes)
      requires Valid() && buf.Some? && |buf.value| < partSize && data != []
      requires |data| <= partSize - currentPos % partSize
      modifies this
      ensures Valid() && Settled() && stream == old(stream) + data
      ensures old(InStep()) ==> InStep()
    {
      DivIs(currentPos, partSize, nextPart);
      PartsGrow(startPos, stream, data, partSize, FirstPart(startPos, partSize), nextPart);
      buf := Some(buf.value + data);
      currentPos := currentPos + |data|;
      stream := stream + data;
      assert buf.value == stream[nextPart * partSize - startPos..];
    }

    /** Saves a full buffer, or the last one of the object, unless the algorithm refuses it;
        does nothing with any other buffer. */
    method FlushBuffer() returns (err: bool)
      requires Valid() && buf.Some? && nextPart < UINT32
      modifies this`buf, this`flushed, this`nextPart, zone
      ensures Recorded()
      ensures !err && old(InStep()) ==> InStep()
      ensures old(Partial()) ==> Valid() && !err && buf == old(buf) && flushed == old(flushed)
      ensures old(|buf.value| == partSize) ==> Valid()
      ensures !old(Partial()) && !err ==> buf.None? && flushed == old(flushed) + [Save(old(nextPart), old(buf.value))]
      ensures zone.reliable ==> !err
    {
      hide FirstPart, PartsOf, Recorded, InStep;
      if currentPos != objSize && |buf.value| != partSize {
        return false;
      }
      PartNumber();
      FlushFull();
      var part := ((currentPos - |buf.value|) / partSize) % UINT32;
      var keep;
      keep, err := StoreBuffer(part);
      if err {
        return;
      }
      nextPart := if |buf.value| == partSize then nextPart + 1 else nextPart;
      buf := None;
      err := false;
      if keep {
        err := Announce(part);
      }
      if !err && old(InStep()) {
        InStepNow(part, keep, old(zone.announced));
      }
    }

    /** Asks whether to keep a part and saves it if the answer is yes. */
    method StoreBuffer(part: nat) returns (keep: bool, err: bool)
      requires buf.Some? && Recorded()
      modifies this`flushed, zone`asks, zone`saves
      ensures Recorded() && (zone.reliable ==> !err)
      ensures flushed == if err then old(flushed) else old(flushed) + [Save(part, buf.value)]
      ensures !err && old(InStep()) ==>
                InStepWith(flushed, zone.asks, zone.saves, zone.announced + if keep then [part] else [])
    {
      hide Recorded, InStepWith;
      keep := AskToKeep(part);
      if keep {
        err := SaveBuffer(part);
      } else {
        Refuse(part);
        err := false;
      }
      if !err && old(InStep()) {
        InStepOn(old(flushed), Save(part, buf.value), old(zone.asks), old(zone.saves), zone.announced, keep);
      }
    }

    lemma InStepNow(part: nat, keep: bool, announced: seq<nat>)
      requires InStepWith(flushed, zone.asks, zone.saves, announced + if keep then [part] else [])
      requires zone.announced == announced + if keep then [part] else []
      ensures InStep()
    {
    }

    method AskToKeep(part: nat) returns (keep: bool)
      requires Recorded()
      modifies zone`asks
      ensures Recorded() && (zone.keepsAll ==> keep) && zone.asks == old(zone.asks) + [Ask(part, keep)]
    {
      keep := zone.ShouldKeep(part);
    }

    method Announce(part: nat) returns (err: bool)
      requires Recorded()
      modifies zone`announced
      ensures Recorded() && (zone.reliable ==> !err)
      ensures zone.announced == if err then old(zone.announced) else old(zone.announced) + [part]
    {
      err := zone.AddObject(part);
    }

    /** One more part: asked about, saved if the answer is yes, and to be announced then. */
    lemma InStepOn(fs: seq<Save>, f: Save, asks: seq<Ask>, saves: seq<Save>, announced: seq<nat>, keep: bool)
      requires InStepWith(fs, asks, saves, announced)
      requires flushed == fs + [f] && zone.asks == asks + [Ask(f.part, keep)]
      requires zone.saves == saves + if keep then [f] else []
      ensures InStepWith(flushed, zone.asks, zone.saves, announced + if keep then [f.part] else [])
    {
      hide Kept, Numbers, Asked;
      var were := asks[|asksBefore|..];
      assert zone.asks[|asksBefore|..] == were + [Ask(f.part, keep)];
      AskedSnoc(fs, f, were, keep);
      KeptSnoc(fs, f, were, Ask(f.part, keep));
    }

    method SaveBuffer(part: nat) returns (err: bool)
      requires buf.Some? && Recorded()
      modifies this`flushed, zone`saves
      ensures Recorded()
      ensures zone.saves == if err then old(zone.saves) else old(zone.saves) + [Save(part, buf.value)]
      ensures flushed == if err then old(flushed) else old(flushed) + [Save(part, buf.value)]
      ensures zone.reliable ==> !err
    {
      err := zone.SavePart(part, buf.value);
      if !err {
        flushed := flushed + [Save(part, buf.value)];
      }
    }

    ghost method Refuse(part: nat)
      requires buf.Some? && Recorded() && !zone.keepsAll
      modifies this`flushed
      ensures Recorded() && flushed == old(flushed) + [Save(part, buf.value)]
    {
      flushed := flushed + [Save(part, buf.value)];
    }

    lemma PartNumber()
      requires Valid() && buf.Some? && nextPart < UINT32
      ensures currentPos >= |buf.value| && ((currentPos - |buf.value|) / partSize) % UINT32 == nextPart
    {
      DivIs(currentPos - |buf.value|, partSize, nextPart);
      SmallMod(nextPart, UINT32);
    }

    /** Flushes what is buffered once all the announced bytes are there. */
    method Close() returns (r: CloseResult)
      requires Valid() && Settled() && currentPos <= UINT32 * partSize
      modifies this, zone
      ensures Recorded() && stream == old(stream)
      ensures r.ShortWrite? <==> |stream| != length
      ensures r.ShortWrite? ==> zone.saves == old(zone.saves)
      ensures zone.reliable ==> !r.SaveError?
      ensures r.Closed? ==> flushed == FinalParts(startPos, stream, partSize, objSize)
      ensures r.Closed? && old(InStep()) ==> InStep()
    {
      hide FirstPart, PartsOf, Recorded, InStep;
      FinalState();
      if currentPos - startPos != length {
        return ShortWrite;
      }
      if buf.None? {
        return Closed;
      }
      BelowLimit(0);
      var err := FlushBuffer();
      r := if err then SaveError else Closed;
    }

    /** What Close is left with, given how a Write ends. */
    lemma FinalState()
      requires Valid() && Settled()
      ensures FinalParts(startPos, stream, partSize, objSize)
              == if buf.None? || Partial() then flushed else flushed + [Save(nextPart, buf.value)]
    {
      FirstPartBounds(startPos, partSize);
      DivBounds(currentPos, partSize);
      MulNext(nextPart, partSize);
      match buf
      case None => NoFinalParts();
      case Some(x) =>
        if |x| == partSize {
          DivIs(currentPos, partSize, nextPart + 1);
          FlushFull();
        } else {
          DivIs(currentPos, partSize, nextPart);
        }
    }

    lemma NoFinalParts()
      requires Valid() && Settled() && buf.None?
      ensures FinalParts(startPos, stream, partSize, objSize) == flushed
    {
      var first, q := FirstPart(startPos, partSize), currentPos / partSize;
      DivBounds(currentPos, partSize);
      FirstPartBounds(startPos, partSize);
      MulCancel(q, first, partSize);
      MulCancel(nextPart, first, partSize);
    }

    /** A buffer that is not full and does not end the object. */
    predicate Partial()
      requires buf.Some?
      reads this
    {
      currentPos != objSize && |buf.value| != partSize
    }

    /** A full buffer holds the next part. */
    lemma FlushFull()
      requires Valid() && buf.Some?
      ensures var first := FirstPart(startPos, partSize);
              |buf.value| == partSize ==>
                && startPos <= first * partSize && (nextPart + 1) * partSize == currentPos
                && PartsOf(startPos, stream, partSize, first, nextPart + 1) == flushed + [Save(nextPart, buf.value)]
    {
      MulNext(nextPart, partSize);
      if |buf.value| == partSize {
        assert stream[nextPart * partSize - startPos..currentPos - startPos] == buf.value;
      }
    }

    ghost predicate Valid()
      reads this, zone
    {
      && partSize > 0
      && currentPos == startPos + |stream|
      && Aligned()
      && flushed == PartsOf(startPos, stream, partSize, FirstPart(startPos, partSize), nextPart)
      && Recorded()
    }

    /** A buffer begins where the next part does. Without one, the position is there too, or
        still in front of the first part. */
    ghost predicate Aligned()
      requires partSize > 0 && currentPos == startPos + |stream|
      reads this
    {
      var first := FirstPart(startPos, partSize);
      && first <= nextPart && startPos <= first * partSize <= nextPart * partSize
      && (first < nextPart ==> nextPart * partSize <= currentPos)
      && match buf
         case Some(x) =>
           nextPart * partSize + |x| == currentPos && |x| <= partSize && x == stream[nextPart * partSize - startPos..]
         case None => currentPos == nextPart * partSize || (first == nextPart && currentPos < first * partSize)
    }

    /** What was saved was flushed; when the algorithm keeps every part, all that was flushed
        was saved, in order. */
    ghost predicate Recorded()
      reads this`flushed, zone
    {
      && before <= zone.saves
      && (forall i :: |before| <= i < |zone.saves| ==> zone.saves[i] in flushed)
      && (zone.keepsAll ==> zone.saves == before + flushed)
    }

    /** Of every part that was flushed it was asked, in order, whether to keep it; those with the answer
        yes were saved, in order, and then announced to the algorithm. */
    ghost predicate InStep()
      reads this, zone
    {
      InStepWith(flushed, zone.asks, zone.saves, zone.announced)
    }

    ghost predicate InStepWith(fs: seq<Save>, asks: seq<Ask>, saves: seq<Save>, announced: seq<nat>) {
      && asksBefore <= asks && Asked(fs, asks[|asksBefore|..])
      && saves == before + Kept(fs, asks[|asksBefore|..])
      && announced == announcedBefore + Numbers(Kept(fs, asks[|asksBefore|..]))
    }

    /** How a successful Write leaves the buffer: never empty, and only missing as long as
        nothing of the first part was written. */
    ghost predicate Settled()
      requires partSize > 0
      reads this
    {
      match buf
      case Some(x) => x != []
      case None => currentPos <= FirstPart(startPos, partSize) * partSize
    }
  }

  ghost predicate Asked(fs: seq<Save>, asks: seq<Ask>) {
    |asks| == |fs| && forall i :: 0 <= i < |fs| ==> asks[i].part == fs[i].part
  }

  /** The parts with the answer yes. */
  function Kept(fs: seq<Save>, asks: seq<Ask>): (r: seq<Save>)
    requires |asks| == |fs|
  {
    if fs == [] then []
    else
      var n := |fs| - 1;
      Kept(fs[..n], asks[..n]) + (if asks[n].keep then [fs[n]] else [])
  }

  function Numbers(fs: seq<Save>): (r: seq<nat>)
    ensures |r| == |fs| && forall i :: 0 <= i < |fs| ==> r[i] == fs[i].part
  {
    seq(|fs|, i requires 0 <= i < |fs| => fs[i].part)
  }

  lemma AskedSnoc(fs: seq<Save>, f: Save, asks: seq<Ask>, keep: bool)
    requires Asked(fs, asks)
    ensures Asked(fs + [f], asks + [Ask(f.part, keep)])
  {
  }

  lemma KeptSnoc(fs: seq<Save>, f: Save, asks: seq<Ask>, a: Ask)
    requires |asks| == |fs|
    ensures Kept(fs + [f], asks + [a]) == Kept(fs, asks) + (if a.keep then [f] else [])
    ensures Numbers(Kept(fs + [f], asks + [a])) == Numbers(Kept(fs, asks)) + (if a.keep then [f.part] else [])
  {
    assert (fs + [f])[..|fs|] == fs && (asks + [a])[..|fs|] == asks;
  }

  /** A part is kept exactly when one of its questions was answered with yes. */
  lemma {:induction false} KeptMember(fs: seq<Save>, asks: seq<Ask>, f: Save)
    requires |asks| == |fs|
    ensures f in Kept(fs, asks) <==> exists i :: 0 <= i < |fs| && fs[i] == f && asks[i].keep
  {
    if fs != [] {
      var n := |fs| - 1;
      KeptMember(fs[..n], asks[..n], f);
      assert forall i :: 0 <= i < n ==> fs[..n][i] == fs[i] && asks[..n][i] == asks[i];
    }
  }

  lemma FirstPartBounds(pos: nat, partSize: nat)
    requires partSize > 0
    ensures pos <= FirstPart(pos, partSize) * partSize < pos + partSize
  {
    DivBounds(pos + partSize - 1, partSize);
  }

  /** More bytes do not change the parts that are complete. */
  lemma {:induction false} PartsGrow(start: nat, stream: Bytes, more: Bytes, partSize: nat, p: nat, q: nat)
    requires p < q ==> start <= p * partSize && q * partSize <= start + |stream|
    ensures p < q ==> q * partSize <= start + |stream + more|
    ensures PartsOf(start, stream + more, partSize, p, q) == PartsOf(start, stream, partSize, p, q)
  {
    if p < q {
      MulMono(p, q - 1, partSize);
      MulNext(q - 1, partSize);
      PartsGrow(start, stream, more, partSize, p, q - 1);
      var i, j := (q - 1) * partSize - start, q * partSize - start;
      assert (stream + more)[i..j] == stream[i..j];
    }
  }

  datatype CloseResult = Closed | ShortWrite | SaveError

  /** The parts of a stream that begins at start in an object of the given size: the complete
      ones, and the last one of the object if the stream goes to the end and begins before
      it. */
  function FinalParts(start: nat, stream: Bytes, partSize: nat, objSize: nat): seq<Save>
    requires partSize > 0
  {
    var end := start + |stream|;
    var first, q := FirstPart(start, partSize), end / partSize;
    FirstPartBounds(start, partSize);
    DivBounds(end, partSize);
    PartsOf(start, stream, partSize, first, q)
      + if end == objSize && first <= q && q * partSize < end
        then MulMono(first, q, partSize); [Save(q, stream[q * partSize - start..])]
        else []
  }

  lemma {:induction false} PartsOfAt(start: nat, stream: Bytes, partSize: nat, p: nat, q: nat, i: nat)
    requires p < q ==> start <= p * partSize && q * partSize <= start + |stream|
    requires i < q - p
    ensures start <= (p + i) * partSize && (p + i + 1) * partSize <= start + |stream|
    ensures PartsOf(start, stream, partSize, p, q)[i]
            == Save(p + i, stream[(p + i) * partSize - start..(p + i + 1) * partSize - start])
  {
    hide PartsOf;
    MulMono(p, p + i, partSize);
    MulMono(p + i + 1, q, partSize);
    MulNext(p + i, partSize);
    PartsOfSnoc(start, stream, partSize, p, q);
    if i < q - p - 1 {
      PartsOfAt(start, stream, partSize, p, q - 1, i);
    }
  }

  lemma PartsOfSnoc(start: nat, stream: Bytes, partSize: nat, p: nat, q: nat)
    requires p < q && start <= p * partSize && q * partSize <= start + |stream|
    ensures start <= (q - 1) * partSize <= q * partSize
    ensures PartsOf(start, stream, partSize, p, q)
         == PartsOf(start, stream, partSize, p, q - 1)
          + [Save(q - 1, stream[(q - 1) * partSize - start..q * partSize - start])]
  {
    MulMono(p, q - 1, partSize);
    MulNext(q - 1, partSize);
  }

  /** The slice of the object that part p holds. */
  function PartBytes(object_: Bytes, partSize: nat, p: nat): Bytes
    requires p * partSize < |object_|
  {
    MulNext(p, partSize);
    object_[p * partSize..Min((p + 1) * partSize, |object_|)]
  }

  /** All of the bytes of part p are among those from start up to end. */
  predicate Covered(object_: Bytes, partSize: nat, start: nat, end: nat, p: nat) {
    start <= p * partSize < |object_| && Min((p + 1) * partSize, |object_|) <= end
  }

  /** The i-th of the final parts is the i-th part that is covered, with its bytes. */
  lemma FinalPartAt(object_: Bytes, partSize: nat, start: nat, end: nat, i: nat)
    requires partSize > 0 && start <= end <= |object_|
    requires i < |FinalParts(start, object_[start..end], partSize, |object_|)|
    ensures var p := FirstPart(start, partSize) + i;
            && Covered(object_, partSize, start, end, p)
            && FinalParts(start, object_[start..end], partSize, |object_|)[i]
               == Save(p, PartBytes(object_, partSize, p))
  {
    var first, q := FirstPart(start, partSize), end / partSize;
    FinalShape(start, object_[start..end], partSize, |object_|, first, q);
    if i < q - first {
      CompletePartAt(object_, partSize, start, end, i);
    } else {
      LastPart(object_, partSize, start, end);
    }
  }

  lemma FinalShape(start: nat, stream: Bytes, partSize: nat, objSize: nat, first: nat, q: nat)
    requires partSize > 0 && first == FirstPart(start, partSize) && q == (start + |stream|) / partSize
    ensures start <= first * partSize < start + partSize
    ensures q * partSize <= start + |stream| < q * partSize + partSize
    ensures var parts := FinalParts(start, stream, partSize, objSize);
            var last := start + |stream| == objSize && first <= q && q * partSize < start + |stream|;
            && |parts| == Max(q - first, 0) + (if last then 1 else 0)
            && parts[..Max(q - first, 0)] == PartsOf(start, stream, partSize, first, q)
            && (last ==> start <= q * partSize && parts[q - first] == Save(q, stream[q * partSize - start..]))
  {
    FirstPartBounds(start, partSize);
    DivBounds(start + |stream|, partSize);
    if first <= q { MulMono(first, q, partSize); }
  }

  lemma CompletePartAt(object_: Bytes, partSize: nat, start: nat, end: nat, i: nat)
    requires partSize > 0 && start <= end <= |object_| && i < end / partSize - FirstPart(start, partSize)
    ensures var p := FirstPart(start, partSize) + i;
            && Covered(object_, partSize, start, end, p)
            && i < |FinalParts(start, object_[start..end], partSize, |object_|)|
            && FinalParts(start, object_[start..end], partSize, |object_|)[i]
               == Save(p, PartBytes(object_, partSize, p))
  {
    hide FinalParts, FirstPart, PartsOf, Covered, PartBytes;
    var stream, first, q := object_[start..end], FirstPart(start, partSize), end / partSize;
    FinalShape(start, stream, partSize, |object_|, first, q);
    PartsOfAt(start, stream, partSize, first, q, i);
    CompleteBytes(object_, partSize, start, end, first + i);
    assert FinalParts(start, stream, partSize, |object_|)[i] == PartsOf(start, stream, partSize, first, q)[i];
  }

  lemma CompleteBytes(object_: Bytes, partSize: nat, start: nat, end: nat, p: nat)
    requires partSize > 0 && start <= p * partSize && (p + 1) * partSize <= end <= |object_|
    ensures Covered(object_, partSize, start, end, p)
    ensures p * partSize < (p + 1) * partSize
    ensures object_[start..end][p * partSize - start..(p + 1) * partSize - start] == PartBytes(object_, partSize, p)
  {
    MulNext(p, partSize);
    SubSlice(object_, start, end, p * partSize, (p + 1) * partSize);
  }

  lemma SubSlice(s: Bytes, start: nat, end: nat, a: nat, b: nat)
    requires start <= a <= b <= end <= |s|
    ensures s[start..end][a - start..b - start] == s[a..b]
  {
    var t := s[start..end];
    forall k | 0 <= k < b - a ensures t[a - start..b - start][k] == s[a..b][k] {
      assert t[a - start + k] == s[a + k];
    }
  }

  lemma LastPart(object_: Bytes, partSize: nat, start: nat, end: nat)
    requires partSize > 0 && start <= end == |object_|
    requires var q := end / partSize; FirstPart(start, partSize) <= q && q * partSize < end
    ensures var q := end / partSize;
            && Covered(object_, partSize, start, end, q)
            && start <= q * partSize
            && Save(q, object_[start..end][q * partSize - start..]) == Save(q, PartBytes(object_, partSize, q))
  {
    FirstPartBounds(start, partSize);
    DivBounds(end, partSize);
    var q := end / partSize;
    MulNext(q, partSize);
    MulMono(FirstPart(start, partSize), q, partSize);
    SubSlice(object_, start, end, q * partSize, end);
  }

  /** Writing from start up to end of an object saves exactly the parts whose whole extent
      lies in between, each once, each with its bytes. */
  lemma FinalPartsExact(object_: Bytes, partSize: nat, start: nat, end: nat, p: nat, data: Bytes)
    requires partSize > 0 && start <= end <= |object_|
    ensures Save(p, data) in FinalParts(start, object_[start..end], partSize, |object_|) <==>
            Covered(object_, partSize, start, end, p) && data == PartBytes(object_, partSize, p)
    ensures |FinalParts(start, object_[start..end], partSize, |object_|)| <= p - FirstPart(start, partSize) ==>
            !Covered(object_, partSize, start, end, p)
  {
    var parts := FinalParts(start, object_[start..end], partSize, |object_|);
    var first := FirstPart(start, partSize);
    if Save(p, data) in parts {
      var i :| 0 <= i < |parts| && parts[i] == Save(p, data);
      FinalPartAt(object_, partSize, start, end, i);
    }
    if Covered(object_, partSize, start, end, p) {
      CoveredIndex(object_, partSize, start, end, p);
      FinalPartAt(object_, partSize, start, end, p - first);
    }
  }

  lemma CoveredIndex(object_: Bytes, partSize: nat, start: nat, end: nat, p: nat)
    requires partSize > 0 && start <= end <= |object_| && Covered(object_, partSize, start, end, p)
    ensures 0 <= p - FirstPart(start, partSize) < |FinalParts(start, object_[start..end], partSize, |object_|)|
  {
    hide FinalParts, FirstPart, PartsOf, Covered;
    var first, q := FirstPart(start, partSize), end / partSize;
    FinalShape(start, object_[start..end], partSize, |object_|, first, q);
    CoveredBetween(object_, partSize, start, end, p, first, q);
  }

  lemma CoveredBetween(object_: Bytes, partSize: nat, start: nat, end: nat, p: nat, first: nat, q: nat)
    requires partSize > 0 && start <= end <= |object_| && Covered(object_, partSize, start, end, p)
    requires first * partSize < start + partSize && q * partSize <= end < q * partSize + partSize
    ensures first <= p && (p < q || (p == q && end == |object_| && q * partSize < end))
  {
    MulNext(p, partSize);
    MulCancel(first, p, partSize);
    CoveredLast(p, q, partSize, end, |object_|);
  }

  lemma CoveredLast(p: nat, q: nat, d: nat, end: nat, size: nat)
    requires d > 0 && p * d < size && q * d <= end < q * d + d && Min((p + 1) * d, size) <= end <= size
    ensures p < q || (p == q && end == size && q * d < end)
  {
    MulNext(p, d);
    if (p + 1) * d <= end {
      MulCancel(p + 1, q, d);
    } else {
      MulCancel(q, p, d);
      MulCancel(p, q, d);
    }
  }

  function Flatten(chunks: seq<Bytes>): Bytes {
    if chunks == [] then [] else Flatten(chunks[..|chunks| - 1]) + chunks[|chunks| - 1]
  }

  /** The copy of an upstream response into the cache: whatever the sizes of the writes, the
      parts that end up saved are the final parts of the bytes they carried. */
  method WriteAll(zone: CacheZone, start: nat, length: nat, objSize: nat, chunks: seq<Bytes>) returns (ok: bool)
    requires zone.partSize > 0 && start + |Flatten(chunks)| <= UINT32 * zone.partSize
    modifies zone
    ensures zone.reliable && |Flatten(chunks)| == length ==> ok
    ensures ok ==> |Flatten(chunks)| == length
    ensures ok && zone.keepsAll ==>
              zone.saves == old(zone.saves) + FinalParts(start, Flatten(chunks), zone.partSize, objSize)
    ensures ok ==>
              var fs := FinalParts(start, Flatten(chunks), zone.partSize, objSize);
              && old(zone.asks) <= zone.asks && Asked(fs, zone.asks[|old(zone.asks)|..])
              && zone.saves == old(zone.saves) + Kept(fs, zone.asks[|old(zone.asks)|..])
              && zone.announced == old(zone.announced) + Numbers(Kept(fs, zone.asks[|old(zone.asks)|..]))
    ensures ok ==> old(zone.saves) <= zone.saves && forall i :: |old(zone.saves)| <= i < |zone.saves| ==>
              zone.saves[i] in FinalParts(start, Flatten(chunks), zone.partSize, objSize)
  {
    hide FinalParts, PartsOf, FirstPart;
    var pw := new PartWriter(zone, start, length, objSize);
    ok := WriteChunks(pw, chunks);
    if ok {
      var r := pw.Close();
      ok := r.Closed?;
    }
  }

  method WriteChunks(pw: PartWriter, chunks: seq<Bytes>) returns (ok: bool)
    requires pw.Valid() && pw.Settled() && pw.stream == []
    requires pw.startPos + |Flatten(chunks)| <= UINT32 * pw.partSize
    modifies pw, pw.zone
    ensures pw.Valid() && (pw.zone.reliable ==> ok)
    ensures ok ==> pw.Settled() && pw.stream == Flatten(chunks)
    ensures ok && old(pw.InStep()) ==> pw.InStep()
  {
    hide FinalParts, PartsOf, FirstPart, PartWriter.InStep, PartWriter.Aligned, PartWriter.Recorded;
    for i := 0 to |chunks|
      invariant pw.Valid() && pw.Settled() && pw.stream == Flatten(chunks[..i])
      invariant old(pw.InStep()) ==> pw.InStep()
    {
      assert chunks[..i + 1][..i] == chunks[..i];
      FlattenPrefix(chunks, i + 1);
      var n, err := pw.Write(chunks[i]);
      if err {
        return false;
      }
    }
    assert chunks[..|chunks|] == chunks;
    ok := true;
  }

  lemma {:induction false} FlattenPrefix(chunks: seq<Bytes>, i: nat)
    requires i <= |chunks|
    ensures |Flatten(chunks[..i])| <= |Flatten(chunks)|
    decreases |chunks|
  {
    if i < |chunks| {
      assert chunks[..|chunks| - 1][..i] == chunks[..i];
      FlattenPrefix(chunks[..|chunks| - 1], i);
    } else {
      assert chunks[..i] == chunks;
    }
  }
}
