/** The writer that keeps to a number of bytes a second. */
module Throttle {
  import opened ObjectIndexes
  import opened Arithmetic
  import Readers

  const SECOND: int := 1_000_000_000
  const MIN_SLEEP: int := 10_000_000

  /** A clock that never goes back. Sleeping takes at least as long as was asked for. */
  class Clock {
    var time: int
    /** The arguments of all calls of Sleep. */
    var sleeps: seq<int>

    constructor (time: int)
      ensures this.time == time && sleeps == []
    {
      this.time, sleeps := time, [];
    }

    method Now() returns (now: int)
      modifies this
      ensures now == time >= old(time) && sleeps == old(sleeps)
    {
      now := *;
      now := Max(now, time);
      time := now;
    }

    method Sleep(d: int)
      modifies this
      ensures time >= old(time) + d && time >= old(time) && sleeps == old(sleeps) + [d]
    {
      var late: nat := *;
      time := time + Max(d, 0) + Max(late, 0);
      sleeps := sleeps + [d];
    }
  }

  /** The underlying writer. It may fail at any byte, or stop early without an error. */
  class Sink {
    var data: Bytes
    const reliable: bool

    constructor (reliable: bool)
      ensures data == [] && this.reliable == reliable
    {
      data, this.reliable := [], reliable;
    }

    method Write(b: Bytes) returns (n: nat, err: bool)
      modifies this
      ensures n <= |b| && data == old(data) + b[..n]
      ensures reliable ==> n == |b| && !err
    {
      n, err := |b|, false;
      if !reliable {
        n, err := *, *;
        n := Min(Max(n, 0), |b|);
      }
      data := data + b[..n];
    }
  }

  /** Whole seconds in a duration. */
  function Seconds(d: int): (s: nat)
    requires d >= 0
  {
    d / SECOND
  }

  /** A sleep that the writer asked for: when, with how much written so far, and for how long. */
  datatype Wait = Wait(at: int, written: int, duration: int)

  function Durations(ws: seq<Wait>): (r: seq<int>)
    ensures |r| == |ws| && forall i :: 0 <= i < |ws| ==> r[i] == ws[i].duration
  {
    seq(|ws|, i requires 0 <= i < |ws| => ws[i].duration)
  }

  class ThrottledWriter {
    const sink: Sink
    const clock: Clock
    const speed: int
    const minWrite: int
    var written: int
    var startTime: Option<int>
    /** All sleeps so far. */
    ghost var waits: seq<Wait>

    constructor (sink: Sink, clock: Clock, speed: int, minWrite: int)
      requires speed >= 1 && minWrite >= 1
      ensures Valid() && written == 0 && startTime.None? && waits == []
      ensures this.sink == sink && this.clock == clock && this.speed == speed && this.minWrite == Min(speed, minWrite)
    {
      this.sink, this.clock, this.speed, this.minWrite := sink, clock, speed, Min(speed, minWrite);
      written, startTime, waits := 0, None, [];
    }

    /** The rate bound: once started, fewer bytes were written than the speed allows for the
        seconds that have begun. */
    ghost predicate Valid()
      reads this, clock
    {
      && 1 <= minWrite <= speed
      && match startTime
         case None => written == 0 && waits == []
         case Some(t) =>
           && t <= clock.time && written < (Seconds(clock.time - t) + 1) * speed
           && forall w :: w in waits ==> w.at >= t && Needed(w, t)
    }

    /** When the sleep was asked for, less than the minimum could be written. It is the shortest one,
        or a second, and that only when a whole second of writing is missing. */
    ghost predicate Needed(w: Wait, start: int)
      requires w.at >= start
    {
      var allowed := Seconds(w.at - start) * speed - w.written;
      && allowed < minWrite
      && (w.duration == MIN_SLEEP || (w.duration == SECOND && minWrite - allowed >= speed))
    }

    /** Delivers the buffer in order, a grant at a time, unless the underlying writer fails. It does not
        sleep when all of the buffer is allowed at once. */
    method Write(b: Bytes) returns (n: nat, err: bool)
      requires Valid()
      modifies this, clock, sink
      ensures Valid() && startTime.Some? && n <= |b|
      ensures sink.data == old(sink.data) + b[..n] && written == old(written) + n
      ensures !err ==> n == |b|
      ensures sink.reliable ==> !err
      ensures ShortSleeps(old(clock.sleeps), clock.sleeps)
      ensures Slept(old(clock.sleeps), clock.sleeps, old(waits), waits, old(clock.time))
      ensures old(startTime.Some? && Allowed(clock.time) - written >= Max(|b|, minWrite)) ==>
                clock.sleeps == old(clock.sleeps)
    {
      hide Seconds, Slept, Needed;
      SleptNone(clock.sleeps, waits, clock.time);
      if startTime.None? {
        Start();
      }
      ghost var free := old(startTime.Some? && Allowed(clock.time) - written >= Max(|b|, minWrite));
      n, err := 0, false;
      while n < |b| && !err
        invariant Valid() && startTime.Some? && n <= |b|
        invariant sink.data == old(sink.data) + b[..n] && written == old(written) + n
        invariant sink.reliable ==> !err
        invariant ShortSleeps(old(clock.sleeps), clock.sleeps) && clock.time >= old(clock.time)
        invariant Slept(old(clock.sleeps), clock.sleeps, old(waits), waits, old(clock.time))
        invariant startTime.Some? && (free ==> old(startTime) == startTime)
        invariant free ==> clock.sleeps == old(clock.sleeps) && (!err && n > 0 ==> n == |b|)
        decreases |b| - n, !err
      {
        ghost var sleeps, ws, time := clock.sleeps, waits, clock.time;
        if free {
          SecondsMono(old(clock.time) - startTime.value, clock.time - startTime.value, speed);
        }
        var nn;
        nn, err := WriteGrant(b, n);
        if free {
          SecondsMono(time - startTime.value, clock.time - startTime.value, speed);
        }
        SleptOn(old(clock.sleeps), sleeps, clock.sleeps, old(waits), ws, waits, old(clock.time), time);
        assert b[..n] + b[n..n + nn] == b[..n + nn];
        n := n + nn;
      }
    }

    method Start()
      requires Valid() && startTime.None?
      modifies this`startTime, clock
      ensures Valid() && startTime.Some? && clock.sleeps == old(clock.sleeps) && clock.time >= old(clock.time)
    {
      var now := clock.Now();
      startTime := Some(now);
      assert Seconds(clock.time - now) == 0;
    }

    /** One turn of the loop of Write: as much of the rest of b as may be written now. */
    method WriteGrant(b: Bytes, n: nat) returns (nn: nat, err: bool)
      requires Valid() && startTime.Some? && n < |b|
      modifies this`written, this`waits, clock, sink
      ensures Valid() && n + nn <= |b| && clock.time >= old(clock.time)
      ensures sink.data == old(sink.data) + b[n..n + nn] && written == old(written) + nn
      ensures !err ==> nn > 0
      ensures sink.reliable ==> !err
      ensures ShortSleeps(old(clock.sleeps), clock.sleeps)
      ensures Slept(old(clock.sleeps), clock.sleeps, old(waits), waits, old(clock.time))
      ensures !err ==> nn == Min(|b| - n, Max(minWrite, Allowed(clock.time) - old(written)))
      ensures old(Allowed(clock.time) - written) >= minWrite ==> clock.sleeps == old(clock.sleeps)
    {
      hide Seconds, ShortSleeps, Slept, Needed;
      var grant := HowMuchCanIWrite();
      var toWrite := Min(n + grant, |b|);
      nn, err := sink.Write(b[n..toWrite]);
      written := written + nn;
      if !err && nn != toWrite - n {
        err := true;
      }
      assert b[n..toWrite][..nn] == b[n..n + nn];
    }

    /** Copies what a reader has. A limit that the reader comes wrapped in is taken off and only bounds
        each single turn: it is never counted down, so unless it is 0 or less at once, everything
        that the wrapped reader has is copied. */
    method ReadFrom(src: Readers.Source, limit: Option<int>) returns (n: nat, err: bool)
      requires Valid()
      modifies this, clock, sink, src
      ensures Valid() && startTime.Some? && n <= |old(src.rest)|
      ensures sink.data == old(sink.data) + old(src.rest)[..n] && written == old(written) + n
      ensures !err ==> n == if limit.Some? && limit.value <= 0 then 0 else |old(src.rest)|
      ensures sink.reliable && !src.faulty ==> !err
      ensures ShortSleeps(old(clock.sleeps), clock.sleeps)
      ensures Slept(old(clock.sleeps), clock.sleeps, old(waits), waits, old(clock.time))
    {
      hide Seconds, Slept, Needed;
      SleptNone(clock.sleeps, waits, clock.time);
      if startTime.None? {
        Start();
      }
      n, err := 0, false;
      var more := true;
      while more && !err
        invariant Valid() && startTime.Some? && n <= |old(src.rest)|
        invariant sink.data == old(sink.data) + old(src.rest)[..n] && written == old(written) + n
        invariant !err ==> src.rest == old(src.rest)[n..]
        invariant !err && !more ==> n == if limit.Some? && limit.value <= 0 then 0 else |old(src.rest)|
        invariant limit.Some? && limit.value <= 0 ==> n == 0
        invariant sink.reliable && !src.faulty ==> !err
        invariant ShortSleeps(old(clock.sleeps), clock.sleeps) && clock.time >= old(clock.time)
        invariant Slept(old(clock.sleeps), clock.sleeps, old(waits), waits, old(clock.time))
        decreases !err, |src.rest|, more
      {
        ghost var sleeps, ws, time := clock.sleeps, waits, clock.time;
        var nn;
        nn, err := ReadGrant(src, limit);
        SleptOn(old(clock.sleeps), sleeps, clock.sleeps, old(waits), ws, waits, old(clock.time), time);
        assert old(src.rest)[..n] + old(src.rest)[n..][..nn] == old(src.rest)[..n + nn];
        n, more := n + nn, nn != 0;
      }
    }

    /** One turn of the loop of ReadFrom: as much as may be written now, and at most the limit. */
    method ReadGrant(src: Readers.Source, limit: Option<int>) returns (nn: nat, err: bool)
      requires Valid() && startTime.Some?
      modifies this`written, this`waits, clock, sink, src
      ensures Valid() && nn <= |old(src.rest)| && clock.time >= old(clock.time)
      ensures sink.data == old(sink.data) + old(src.rest)[..nn] && written == old(written) + nn
      ensures !err ==> src.rest == old(src.rest)[nn..]
      ensures limit.Some? && limit.value <= 0 ==> nn == 0
      ensures !err && nn == 0 && (limit.Some? ==> limit.value > 0) ==> src.rest == []
      ensures sink.reliable && !src.faulty ==> !err
      ensures ShortSleeps(old(clock.sleeps), clock.sleeps)
      ensures Slept(old(clock.sleeps), clock.sleeps, old(waits), waits, old(clock.time))
    {
      hide Seconds, ShortSleeps, Slept, Needed;
      var grant := HowMuchCanIWrite();
      nn, err := CopyLimited(src, if limit.Some? then Min(grant, limit.value) else grant);
      written := written + nn;
    }

    /** io.Copy from a reader with a limit around it. */
    method CopyLimited(src: Readers.Source, limit: int) returns (nn: nat, err: bool)
      modifies sink, src
      ensures nn <= Max(limit, 0) && nn <= |old(src.rest)|
      ensures sink.data == old(sink.data) + old(src.rest)[..nn]
      ensures !err ==> src.rest == old(src.rest)[nn..]
      ensures !err && nn < limit ==> src.rest == []
      ensures sink.reliable && !src.faulty ==> !err
    {
      nn, err := 0, false;
      var over := false;
      while nn < limit && !err && !over
        invariant nn <= Max(limit, 0) && nn <= |old(src.rest)|
        invariant sink.data == old(sink.data) + old(src.rest)[..nn]
        invariant !err ==> src.rest == old(src.rest)[nn..]
        invariant over ==> src.rest == []
        invariant sink.reliable && !src.faulty ==> !err
        decreases !err && !over, |src.rest| + src.stalls
      {
        var p: nat := *;
        var data, st := src.Read(Max(1, Min(p, limit - nn)));
        var k, failed := 0, false;
        if data != [] {
          k, failed := sink.Write(data);
        }
        assert old(src.rest)[nn..] == data + src.rest;
        assert old(src.rest)[..nn] + data[..k] == old(src.rest)[..nn + k];
        nn := nn + k;
        err := failed || k < |data| || st.Failed?;
        over := st.EOF?;
      }
    }

    method CanWriteRightNow() returns (r: int)
      requires Valid() && startTime.Some?
      modifies clock
      ensures Valid() && clock.time >= old(clock.time) && clock.sleeps == old(clock.sleeps)
      ensures r == Seconds(clock.time - startTime.value) * speed - written
    {
      var now := clock.Now();
      var timePassed := Seconds(now - startTime.value);
      SecondsMono(old(clock.time) - startTime.value, now - startTime.value, speed);
      r := timePassed * speed - written;
    }

    /** How many bytes the speed has allowed until a time. */
    ghost function Allowed(time: int): int
      requires startTime.Some? && time >= startTime.value
      reads this
    {
      Seconds(time - startTime.value) * speed
    }

    /** How many bytes may be written now: all that is allowed, if that is the minimum or more, and
        otherwise, after one sleep, the minimum or what is allowed by then. Writing them all stays
        within the rate. */
    method HowMuchCanIWrite() returns (grant: int)
      requires Valid() && startTime.Some?
      modifies this`waits, clock
      ensures Valid() && grant >= minWrite && clock.time >= old(clock.time)
      ensures written + grant < (Seconds(clock.time - startTime.value) + 1) * speed
      ensures grant == Max(minWrite, Seconds(clock.time - startTime.value) * speed - written)
      ensures ShortSleeps(old(clock.sleeps), clock.sleeps)
      ensures Slept(old(clock.sleeps), clock.sleeps, old(waits), waits, old(clock.time))
      ensures |clock.sleeps| <= |old(clock.sleeps)| + 1
      ensures Seconds(old(clock.time) - startTime.value) * speed - written >= minWrite ==>
                clock.sleeps == old(clock.sleeps)
    {
      hide Seconds, Needed;
      ghost var before := clock.time - startTime.value;
      var toWriteRightNow := CanWriteRightNow();
      SecondsMono(before, clock.time - startTime.value, speed);
      MulNext(Seconds(clock.time - startTime.value), speed);
      if toWriteRightNow >= minWrite {
        return toWriteRightNow;
      }
      grant := WaitAtLeastMinWrite();
    }

    method WaitAtLeastMinWrite() returns (grant: int)
      requires Valid() && startTime.Some?
      modifies this`waits, clock
      ensures Valid() && grant >= minWrite && clock.time >= old(clock.time)
      ensures written + grant < (Seconds(clock.time - startTime.value) + 1) * speed
      ensures grant == Max(minWrite, Seconds(clock.time - startTime.value) * speed - written)
      ensures ShortSleeps(old(clock.sleeps), clock.sleeps)
      ensures Slept(old(clock.sleeps), clock.sleeps, old(waits), waits, old(clock.time))
      ensures |clock.sleeps| <= |old(clock.sleeps)| + 1
      ensures Seconds(old(clock.time) - startTime.value) * speed - written >= minWrite ==>
                clock.sleeps == old(clock.sleeps)
    {
      hide Seconds, Needed;
      ghost var before := clock.time - startTime.value;
      var toWriteRightNow := CanWriteRightNow();
      SecondsMono(before, clock.time - startTime.value, speed);
      MulNext(Seconds(clock.time - startTime.value), speed);
      if toWriteRightNow >= minWrite {
        return toWriteRightNow;
      }
      var calculatedSleep := (minWrite - toWriteRightNow) / speed * SECOND;
      ghost var asleep := clock.time - startTime.value;
      SleepSeconds(Seconds(asleep), speed, written, minWrite);
      NeededNow(toWriteRightNow);
      waits := waits + [Wait(clock.time, written, Max(calculatedSleep, MIN_SLEEP))];
      clock.Sleep(Max(calculatedSleep, MIN_SLEEP));
      ghost var awake := clock.time - startTime.value;
      SecondsMono(asleep, awake, speed);
      SecondsLater(asleep, awake, (minWrite - toWriteRightNow) / speed);
      var afterwards := CanWriteRightNow();
      ghost var now := clock.time - startTime.value;
      SecondsMono(awake, now, speed);
      SleptEnough(Seconds(asleep), Seconds(now), speed, written, minWrite);
      grant := Max(afterwards, minWrite);
    }

    lemma NeededNow(allowed: int)
      requires Valid() && startTime.Some? && allowed < minWrite
      requires allowed == Seconds(clock.time - startTime.value) * speed - written
      requires 0 <= (minWrite - allowed) / speed <= 1
      ensures Needed(Wait(clock.time, written, Max((minWrite - allowed) / speed * SECOND, MIN_SLEEP)), startTime.value)
    {
      hide Seconds;
      DivBounds(minWrite - allowed, speed);
      assert Max(0 * SECOND, MIN_SLEEP) == MIN_SLEEP && Max(1 * SECOND, MIN_SLEEP) == SECOND;
    }
  }

  /** The sleep is at most a second long: a writer that is within the rate is less than two
      seconds behind. */
  lemma SleepSeconds(f: nat, speed: int, written: int, minWrite: int)
    requires 1 <= minWrite <= speed && written < (f + 1) * speed && f * speed - written < minWrite
    ensures 0 <= (minWrite - (f * speed - written)) / speed <= 1
  {
    MulNext(f, speed);
    var behind := minWrite - (f * speed - written);
    assert 0 < behind < 2 * speed;
    DivBounds(behind, speed);
    MulCancel(behind / speed, 1, speed);
  }

  /** After it, a write of the minimum is within the rate. */
  lemma SleptEnough(f: nat, g: nat, speed: int, written: int, minWrite: int)
    requires 1 <= minWrite <= speed && written < (f + 1) * speed && f * speed - written < minWrite
    requires g >= f + (minWrite - (f * speed - written)) / speed
    ensures written + minWrite < (g + 1) * speed
    ensures g * speed < (g + 1) * speed
  {
    SleepSeconds(f, speed, written, minWrite);
    var behind := minWrite - (f * speed - written);
    var k := behind / speed;
    DivBounds(behind, speed);
    MulAdd(f, k, speed);
    MulMono(f + k, g, speed);
    MulNext(g, speed);
  }

  lemma SecondsLater(a: int, b: int, k: nat)
    requires 0 <= a && b >= a + k * SECOND
    ensures Seconds(b) >= Seconds(a) + k
  {
    DivBounds(a, SECOND);
    DivBounds(b, SECOND);
  }

  /** Every sleep asked for in between is at most a second. */
  ghost predicate ShortSleeps(was: seq<int>, now: seq<int>) {
    was <= now && forall i :: |was| <= i < |now| ==> now[i] <= SECOND
  }

  /** The sleeps that the clock was asked for in between are the waits that were recorded, and each was
      asked for at its time. */
  ghost predicate Slept(was: seq<int>, now: seq<int>, wasWaits: seq<Wait>, nowWaits: seq<Wait>, since: int) {
    && wasWaits <= nowWaits
    && now == was + Durations(nowWaits[|wasWaits|..])
    && forall i :: |wasWaits| <= i < |nowWaits| ==> nowWaits[i].at >= since
  }

  lemma SleptNone(was: seq<int>, ws: seq<Wait>, since: int)
    ensures Slept(was, was, ws, ws, since)
  {
  }

  lemma SleptOn(a: seq<int>, b: seq<int>, c: seq<int>, u: seq<Wait>, v: seq<Wait>, w: seq<Wait>, s: int, t: int)
    requires Slept(a, b, u, v, s) && Slept(b, c, v, w, t) && s <= t
    ensures Slept(a, c, u, w, s)
  {
    hide Durations;
    SplitWaits(u, v, w);
    DurationsOfBoth(v[|u|..], w[|v|..]);
  }

  lemma SplitWaits(u: seq<Wait>, v: seq<Wait>, w: seq<Wait>)
    requires u <= v <= w
    ensures w[|u|..] == v[|u|..] + w[|v|..]
  {
  }

  lemma DurationsOfBoth(a: seq<Wait>, b: seq<Wait>)
    ensures Durations(a + b) == Durations(a) + Durations(b)
  {
  }

  lemma SecondsMono(a: int, b: int, speed: int)
    requires 0 <= a <= b && speed >= 0
    ensures Seconds(a) <= Seconds(b) && Seconds(a) * speed <= Seconds(b) * speed
  {
    DivMono(a, b, SECOND);
    MulMono(Seconds(a), Seconds(b), speed);
  }
}
