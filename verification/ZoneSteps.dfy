/** A cache zone as a step system: the index of the cache algorithm, the parts on disk, the
    part writers that are saving a part and the background removals that a shrink started.
    Each section that holds the mutex of the cache is one step; flushes and removals are
    several steps with anything in between. */
module ZoneSteps {
  import opened ObjectIndexes
  import opened Ranked
  import opened RankedMeaning

  /** A throttledRemove goroutine. It is either about to take the batch at i, or waits for
      its timer after a batch of the size that waiting holds. */
  datatype Removal = Removal(indexes: seq<ObjectIndex>, i: nat, waiting: Option<nat>, done: seq<ObjectIndex>) {
    /** Where the next batch starts, if the batch size does not change before that. */
    function Next(): (n: nat)
      ensures n <= |indexes|
    {
      Min(if waiting.Some? then i + waiting.value else i, |indexes|)
    }

    function Pending(): seq<ObjectIndex> { indexes[Next()..] }
  }

  /** A flushBuffer that has asked ShouldKeep; saved tells whether SavePart is over. */
  datatype Flush = Flush(idx: ObjectIndex, saved: bool)

  datatype Zone = Zone(rank: Ranking, objects: nat, count: nat, stored: set<ObjectIndex>,
                       removals: seq<Removal>, flushes: seq<Flush>)
  {
    function Size(): (size: nat)
      ensures 4 * size <= objects < 4 * size + 4
    {
      objects / 4
    }
  }

  datatype Event =
    | ShouldKeep(idx: ObjectIndex)
    | SavePart(k: nat)
    | SaveFails(k: nat)
    | FinishFlush(k: nat)
    | PromoteObject(idx: ObjectIndex)
    | Purge(id: ObjectID, parts: seq<ObjectIndex>)
    | Expire(id: ObjectID, parts: seq<ObjectIndex>)
    | DiscardStale(id: ObjectID)
    | ChangeConfig(newCount: nat, newsize: nat)
    | Batch(k: nat)
    | Advance(k: nat)

  /** GetAvailableParts: the stored parts of one object, in any order. */
  ghost predicate Available(z: Zone, id: ObjectID, parts: seq<ObjectIndex>) {
    forall x :: x in parts <==> x in z.stored && x.id == id
  }

  ghost predicate Enabled(z: Zone, e: Event) {
    && z.rank.Shaped()
    && match e
       case ShouldKeep(_) => true
       case SavePart(k) => k < |z.flushes| && !z.flushes[k].saved
       case SaveFails(k) => k < |z.flushes| && !z.flushes[k].saved
       case FinishFlush(k) => k < |z.flushes| && z.flushes[k].saved
       case PromoteObject(idx) =>
         z.Size() > 0 || idx !in z.rank.list || TierAt(z.rank.sizes, IndexOf(z.rank.list, idx)) == 0
       case Purge(id, parts) => Available(z, id, parts)
       case Expire(id, parts) => Available(z, id, parts)
       case DiscardStale(_) => true
       case ChangeConfig(newCount, newsize) => newCount > 0
       case Batch(k) => k < |z.removals| && z.removals[k].waiting.None? && z.removals[k].i < |z.removals[k].indexes|
       case Advance(k) => k < |z.removals| && z.removals[k].waiting.Some?
  }

  /** AddObject: no change for a cached object, otherwise the evicted part is discarded. */
  function AddObject(z: Zone, x: ObjectIndex): Zone
    requires z.rank.Shaped()
  {
    if x in z.rank.list then z
    else z.(rank := Added(z.rank, z.Size(), x), stored := z.stored - Elements(Evicted(z.rank, z.Size())))
  }

  function StoredWithout(z: Zone, id: ObjectID): set<ObjectIndex> {
    set x | x in z.stored && x.id != id
  }

  ghost function Step(z: Zone, e: Event): Zone
    requires Enabled(z, e)
  {
    match e
    case ShouldKeep(x) =>
      var y := AddObject(z, x);
      y.(flushes := y.flushes + [Flush(x, false)])
    case SavePart(k) =>
      z.(stored := z.stored + {z.flushes[k].idx}, flushes := z.flushes[k := Flush(z.flushes[k].idx, true)])
    case SaveFails(k) => z.(flushes := RemoveAt(z.flushes, k))
    case FinishFlush(k) =>
      AddObject(z.(flushes := RemoveAt(z.flushes, k)), z.flushes[k].idx)
    case PromoteObject(x) =>
      if x in z.rank.list then z.(rank := Promoted(z.rank, z.Size(), x)) else AddObject(z, x)
    case Purge(id, parts) =>
      z.(stored := StoredWithout(z, id), rank := RemovedAll(z.rank, parts))
    case Expire(id, parts) =>
      z.(rank := RemovedAll(z.rank, parts), stored := StoredWithout(z, id))
    case DiscardStale(id) => z.(stored := StoredWithout(z, id))
    case ChangeConfig(newCount, newsize) =>
      z.(rank := Resized(z.rank, z.Size(), newsize / 4), objects := newsize, count := newCount,
         removals := if z.Size() > newsize / 4
                     then z.removals + [Removal(Dropped(z.rank, newsize / 4), 0, None, [])]
                     else z.removals)
    case Batch(k) =>
      var r := z.removals[k];
      var batch := r.indexes[r.i..Min(r.i + z.count, |r.indexes|)];
      z.(stored := z.stored - (Elements(batch) - Elements(z.rank.list)),
         removals := z.removals[k := Removal(r.indexes, r.i, Some(z.count), r.done + batch)])
    case Advance(k) =>
      var r := z.removals[k];
      z.(removals := z.removals[k := Removal(r.indexes, r.i + z.count, None, r.done)])
  }

  /** A stored part is tracked when the index, a background removal or an unfinished flush
      still knows about it. */
  ghost predicate Tracked(z: Zone, x: ObjectIndex) {
    || x in z.rank.list
    || (exists k :: 0 <= k < |z.removals| && x in z.removals[k].Pending())
    || (exists k :: 0 <= k < |z.flushes| && z.flushes[k] == Flush(x, true))
  }

  ghost predicate Inv(z: Zone) {
    && z.rank.Valid()
    && Fits(z.rank.sizes, z.Size())
    && forall x :: x in z.stored ==> Tracked(z, x)
  }

  /** The loop of throttledRemove adds the batch size of the moment, after the wait. An
      advance is safe when that size has not grown since the batch, or nothing was left. */
  ghost predicate Safe(z: Zone, e: Event)
    requires Enabled(z, e)
  {
    e.Advance? ==>
      var r := z.removals[e.k];
      z.count <= r.waiting.value || r.i + r.waiting.value >= |r.indexes|
  }

  lemma {:induction false} RemovedAllMembers(c: Ranking, ois: seq<ObjectIndex>)
    requires c.Valid()
    ensures RemovedAll(c, ois).Valid()
    ensures forall x :: x in RemovedAll(c, ois).list <==> x in c.list && x !in ois
    decreases |ois|
  {
    if ois != [] {
      var most := ois[..|ois| - 1];
      RemovedAllMembers(c, most);
      var d, y := RemovedAll(c, most), ois[|ois| - 1];
      RemoveKeepsOrder(d, y);
      forall x ensures x in Others(d.list, y) <==> x in d.list && x != y {
        OthersMember(d.list, y, x);
      }
      assert ois == most + [y];
    }
  }

  lemma {:induction false} OthersMember(s: seq<ObjectIndex>, y: ObjectIndex, x: ObjectIndex)
    ensures x in Others(s, y) <==> x in s && x != y
  {
    if s != [] { OthersMember(s[1..], y, x); }
  }

  lemma AddMembers(c: Ranking, size: nat, x: ObjectIndex)
    requires c.Valid() && x !in c.list
    ensures Added(c, size, x).Valid()
    ensures forall v :: v in c.list || v == x ==> v in Added(c, size, x).list || v in Evicted(c, size)
  {
    AddKeepsOrder(c, size, x);
    forall v | v in c.list ensures v in Added(c, size, x).list || v in Evicted(c, size) {
      OthersMember(Added(c, size, x).list, x, v);
      assert v in Others(Added(c, size, x).list, x) + Evicted(c, size);
    }
  }

  lemma PromoteMembers(c: Ranking, size: nat, x: ObjectIndex)
    requires c.Valid() && x in c.list
    ensures Promoted(c, size, x).Valid()
    ensures forall v :: v in c.list <==> v in Promoted(c, size, x).list
  {
    PromoteKeepsOrder(c, size, x);
    forall v ensures v in c.list <==> v in Promoted(c, size, x).list {
      OthersMember(Promoted(c, size, x).list, x, v);
      OthersMember(c.list, x, v);
    }
  }

  lemma ResizeMembers(c: Ranking, size: nat)
    requires c.Valid()
    ensures Shrunk(c, size).Valid()
    ensures forall v :: v in c.list <==> v in Shrunk(c, size).list || v in Dropped(c, size)
  {
    ShrinkKeepsBest(c, size);
    var m := |Shrunk(c, size).list|;
    forall v | v in c.list ensures v in Shrunk(c, size).list || v in Dropped(c, size) {
      var p := IndexOf(c.list, v);
      if p >= m { assert Dropped(c, size)[|c.list| - 1 - p] == v; } else { assert c.list[..m][p] == v; }
    }
  }

  lemma StepKeepsRanking(z: Zone, e: Event)
    requires z.rank.Valid() && Fits(z.rank.sizes, z.Size()) && Enabled(z, e)
    ensures Step(z, e).rank.Valid() && Fits(Step(z, e).rank.sizes, Step(z, e).Size())
  {
    hide Added, Promoted, Removed, RemovedAll, Shrunk, Tracked, NoDup, IndexOf, TierAt, Evicted, Dropped;
    match e
    case ShouldKeep(x) => AddKeepsRanking(z, x);
    case FinishFlush(k) => AddKeepsRanking(z, z.flushes[k].idx);
    case PromoteObject(x) =>
      if x in z.rank.list {
        PromoteMembers(z.rank, z.Size(), x);
        PromotedFits(z.rank, z.Size(), x);
      } else {
        AddKeepsRanking(z, x);
      }
    case Purge(_, parts) => RemovedAllMembers(z.rank, parts); RemovedAllFits(z.rank, parts, z.Size());
    case Expire(_, parts) => RemovedAllMembers(z.rank, parts); RemovedAllFits(z.rank, parts, z.Size());
    case ChangeConfig(_, newsize) =>
      ResizeMembers(z.rank, newsize / 4);
      ShrunkFits(z.rank, newsize / 4);
      if z.Size() <= newsize / 4 { FitsMore(z.rank.sizes, z.Size(), newsize / 4); }
    case _ =>
  }

  lemma AddKeepsRanking(z: Zone, x: ObjectIndex)
    requires z.rank.Valid() && Fits(z.rank.sizes, z.Size())
    ensures AddObject(z, x).rank.Valid() && Fits(AddObject(z, x).rank.sizes, z.Size())
  {
    if x !in z.rank.list {
      AddMembers(z.rank, z.Size(), x);
      AddedFits(z.rank, z.Size(), x);
    }
  }

  /** AddObject keeps every part tracked and tracks the new one. */
  lemma AddKeepsTracked(z: Zone, x: ObjectIndex, v: ObjectIndex)
    requires z.rank.Valid() && (Tracked(z, v) || v == x)
    requires v in AddObject(z, x).stored
    ensures Tracked(AddObject(z, x), v)
  {
    if x !in z.rank.list {
      AddMembers(z.rank, z.Size(), x);
    }
  }

  /** Dropping one flush leaves the others, one place up. */
  lemma FlushStays(z: Zone, k: nat, v: ObjectIndex)
    requires k < |z.flushes| && Tracked(z, v) && z.flushes[k] != Flush(v, true)
    ensures Tracked(z.(flushes := RemoveAt(z.flushes, k)), v)
  {
    if j :| 0 <= j < |z.flushes| && z.flushes[j] == Flush(v, true) {
      assert RemoveAt(z.flushes, k)[if j < k then j else j - 1] == Flush(v, true);
    }
  }

  /** Every step that is safe leaves every stored part tracked. */
  lemma StepKeepsTracked(z: Zone, e: Event, v: ObjectIndex)
    requires Inv(z) && Enabled(z, e) && Safe(z, e) && v in Step(z, e).stored
    ensures Tracked(Step(z, e), v)
  {
    hide Added, Promoted, Removed, RemovedAll, Shrunk, NoDup, IndexOf, TierAt, Evicted, Dropped;
    var y := Step(z, e);
    match e
    case ShouldKeep(x) =>
      AddKeepsTracked(z, x, v);
      FlushAppended(AddObject(z, x), Flush(x, false), v);
    case SavePart(k) =>
      if v == z.flushes[k].idx {
        assert y.flushes[k] == Flush(v, true);
      } else if j :| 0 <= j < |z.flushes| && z.flushes[j] == Flush(v, true) {
        assert y.flushes[j] == Flush(v, true);
      }
    case SaveFails(k) => FlushStays(z, k, v);
    case FinishFlush(k) =>
      var x := z.flushes[k].idx;
      if v != x { FlushStays(z, k, v); }
      AddKeepsTracked(z.(flushes := RemoveAt(z.flushes, k)), x, v);
    case PromoteObject(x) =>
      if x in z.rank.list { PromoteMembers(z.rank, z.Size(), x); } else { AddKeepsTracked(z, x, v); }
    case Purge(_, parts) => RemovedAllMembers(z.rank, parts);
    case Expire(_, parts) => RemovedAllMembers(z.rank, parts);
    case DiscardStale(_) =>
    case ChangeConfig(_, newsize) => ConfigKeepsTracked(z, e, v);
    case Batch(k) => BatchKeepsTracked(z, e, v);
    case Advance(k) => AdvanceKeepsTracked(z, e, v);
  }

  lemma FlushAppended(z: Zone, f: Flush, v: ObjectIndex)
    requires Tracked(z, v)
    ensures Tracked(z.(flushes := z.flushes + [f]), v)
  {
    if j :| 0 <= j < |z.flushes| && z.flushes[j] == Flush(v, true) {
      assert (z.flushes + [f])[j] == Flush(v, true);
    }
  }

  lemma ConfigKeepsTracked(z: Zone, e: Event, v: ObjectIndex)
    requires e.ChangeConfig? && Inv(z) && Enabled(z, e) && v in z.stored
    ensures Tracked(Step(z, e), v)
  {
    var y := Step(z, e);
    ResizeMembers(z.rank, e.newsize / 4);
    if k :| 0 <= k < |z.removals| && v in z.removals[k].Pending() {
      assert y.removals[k] == z.removals[k];
    } else if z.Size() > e.newsize / 4 && v in Dropped(z.rank, e.newsize / 4) {
      assert v in y.removals[|z.removals|].Pending();
    }
  }

  lemma BatchKeepsTracked(z: Zone, e: Event, v: ObjectIndex)
    requires e.Batch? && Inv(z) && Enabled(z, e) && v in Step(z, e).stored
    ensures Tracked(Step(z, e), v)
  {
    hide NoDup, Fits, IndexOf, Begin;
    var y := Step(z, e);
    var r := z.removals[e.k];
    assert Tracked(z, v);
    if j :| 0 <= j < |z.removals| && v in z.removals[j].Pending() {
      if j == e.k {
        BatchOrLater(r, z.count, v);
        assert v in z.rank.list || v in y.removals[e.k].Pending();
      } else {
        assert y.removals[j] == z.removals[j];
      }
    }
  }

  lemma BatchOrLater(r: Removal, count: nat, v: ObjectIndex)
    requires r.waiting.None? && r.i < |r.indexes| && v in r.Pending()
    ensures v in r.indexes[r.i..Min(r.i + count, |r.indexes|)] || v in r.indexes[Min(r.i + count, |r.indexes|)..]
  {
    var end := Min(r.i + count, |r.indexes|);
    assert r.indexes[r.i..] == r.indexes[r.i..end] + r.indexes[end..];
  }

  lemma AdvanceKeepsTracked(z: Zone, e: Event, v: ObjectIndex)
    requires e.Advance? && Inv(z) && Enabled(z, e) && Safe(z, e) && v in z.stored
    ensures Tracked(Step(z, e), v)
  {
    var y := Step(z, e);
    var r := z.removals[e.k];
    if j :| 0 <= j < |z.removals| && v in z.removals[j].Pending() {
      if j == e.k {
        SuffixWithin(r.indexes, y.removals[e.k].Next(), r.Next());
      } else {
        assert y.removals[j] == z.removals[j];
      }
    }
  }

  lemma SuffixWithin(s: seq<ObjectIndex>, i: nat, j: nat)
    requires i <= j <= |s|
    ensures forall v :: v in s[j..] ==> v in s[i..]
  {
    forall v | v in s[j..] ensures v in s[i..] {
      var p := IndexOf(s[j..], v);
      assert s[i..][j + p - i] == v;
    }
  }

  ghost function Run(z: Zone, es: seq<Event>): Zone
    requires CanRun(z, es)
    decreases |es|
  {
    if es == [] then z else Run(Step(z, es[0]), es[1..])
  }

  ghost predicate CanRun(z: Zone, es: seq<Event>)
    decreases |es|
  {
    es != [] ==> Enabled(z, es[0]) && CanRun(Step(z, es[0]), es[1..])
  }

  ghost predicate SafeRun(z: Zone, es: seq<Event>)
    decreases |es|
  {
    es != [] ==> Enabled(z, es[0]) && Safe(z, es[0]) && SafeRun(Step(z, es[0]), es[1..])
  }

  function Fresh(objects: nat, count: nat): Zone {
    Zone(Ranking([], [0, 0, 0, 0]), objects, count, {}, [], [])
  }

  /** Over every run with safe advances, every stored part is tracked, the index holds no
      object twice and no tier is over its limit. */
  lemma {:induction false} RunKeepsInv(z: Zone, es: seq<Event>)
    requires Inv(z) && CanRun(z, es) && SafeRun(z, es)
    ensures Inv(Run(z, es))
    decreases |es|
  {
    if es != [] {
      var y := Step(z, es[0]);
      StepKeepsRanking(z, es[0]);
      forall v | v in y.stored ensures Tracked(y, v) {
        StepKeepsTracked(z, es[0], v);
      }
      RunKeepsInv(y, es[1..]);
    }
  }

  /** A zone that starts empty never has a part on disk that nothing knows about, and never
      more parts than it is allowed plus those being removed or being saved. */
  lemma NoPartIsLost(objects: nat, count: nat, es: seq<Event>)
    requires CanRun(Fresh(objects, count), es) && SafeRun(Fresh(objects, count), es)
    ensures var z := Run(Fresh(objects, count), es);
            && (forall x :: x in z.stored ==> Tracked(z, x))
            && |z.rank.list| <= Max(z.objects, 1)
            && |z.stored| <= Max(z.objects, 1) + PendingCount(z.removals) + |z.flushes|
  {
    var z := Fresh(objects, count);
    assert Begin(z.rank.sizes, 1) == Begin(z.rank.sizes, 2) == 0;
    RunKeepsInv(z, es);
    StoredBound(Run(z, es));
  }

  function PendingCount(rs: seq<Removal>): nat {
    if rs == [] then 0 else |rs[0].Pending()| + PendingCount(rs[1..])
  }

  function PendingSet(rs: seq<Removal>): (s: set<ObjectIndex>)
    ensures forall k :: 0 <= k < |rs| ==> Elements(rs[k].Pending()) <= s
    ensures |s| <= PendingCount(rs)
  {
    if rs == [] then {}
    else
      ElementsCount(rs[0].Pending());
      var a, b := Elements(rs[0].Pending()), PendingSet(rs[1..]);
      UnionCount(a, b);
      a + b
  }

  lemma ElementsCount<T>(s: seq<T>)
    ensures |Elements(s)| <= |s|
  {
    if s != [] {
      ElementsCount(s[1..]);
      assert Elements(s) == {s[0]} + Elements(s[1..]);
    }
  }

  lemma UnionCount<T>(a: set<T>, b: set<T>)
    ensures |a + b| <= |a| + |b|
  {
    assert a + b == a + (b - a);
  }

  function FlushSet(fs: seq<Flush>): (s: set<ObjectIndex>)
    ensures forall k :: 0 <= k < |fs| ==> fs[k].idx in s
    ensures |s| <= |fs|
  {
    if fs == [] then {} else {fs[0].idx} + FlushSet(fs[1..])
  }

  lemma SubsetCount<T>(a: set<T>, b: set<T>)
    requires a <= b
    ensures |a| <= |b|
  {
    assert b == a + (b - a);
  }

  lemma StoredBound(z: Zone)
    requires Inv(z)
    ensures |z.rank.list| <= Max(z.objects, 1)
    ensures |z.stored| <= Max(z.objects, 1) + PendingCount(z.removals) + |z.flushes|
  {
    BoundedCount(z.rank.sizes, z.Size());
    var a, b, c := Elements(z.rank.list), PendingSet(z.removals), FlushSet(z.flushes);
    forall x | x in z.stored ensures x in a + b + c {
      assert Tracked(z, x);
      if k :| 0 <= k < |z.removals| && x in z.removals[k].Pending() {
        assert x in Elements(z.removals[k].Pending());
      }
    }
    SubsetCount(z.stored, a + b + c);
    UnionCount(a + b, c);
    UnionCount(a, b);
    ElementsCount(z.rank.list);
  }

  /** An advance keeps all that was pending exactly when it is safe. */
  lemma SafeIffNothingSkipped(z: Zone, k: nat)
    requires Enabled(z, Advance(k)) && NoDup(z.removals[k].indexes)
    ensures Safe(z, Advance(k)) <==>
            forall v :: v in z.removals[k].Pending() ==> v in Step(z, Advance(k)).removals[k].Pending()
  {
    var r, q := z.removals[k], Step(z, Advance(k)).removals[k];
    if Safe(z, Advance(k)) {
      SuffixWithin(r.indexes, q.Next(), r.Next());
    } else {
      var v := r.indexes[r.Next()];
      assert r.Pending()[0] == v;
      NotInSuffix(r.indexes, r.Next(), q.Next());
      assert v in r.Pending() && v !in q.Pending();
    }
  }

  lemma NotInSuffix(s: seq<ObjectIndex>, i: nat, j: nat)
    requires NoDup(s) && i < j <= |s|
    ensures s[i] !in s[j..]
  {
  }

  /** A part that is on disk and in the index after a step was not taken off the disk by it, unless
      the step discards a stale object behind the back of the index. So neither an eviction nor a
      purge, an expiration or a batch of a removal discards what the index goes on to hold. */
  lemma IndexedStaysStored(z: Zone, e: Event, x: ObjectIndex)
    requires Enabled(z, e) && z.rank.Valid()
    requires x in z.stored && x in Step(z, e).rank.list
    ensures x !in Step(z, e).stored <==> e.DiscardStale? && x.id == e.id
  {
    hide Added, Promoted, Removed, RemovedAll, Shrunk, Evicted, Dropped, Kept, Begin, TierAt;
    match e
    case ShouldKeep(y) => EvictedIsOut(z, y, x);
    case FinishFlush(k) => EvictedIsOut(z, z.flushes[k].idx, x);
    case PromoteObject(y) => EvictedIsOut(z, y, x);
    case Purge(id, parts) => RemovedAllMembers(z.rank, parts);
    case Expire(id, parts) => RemovedAllMembers(z.rank, parts);
    case _ =>
  }

  lemma EvictedIsOut(z: Zone, y: ObjectIndex, x: ObjectIndex)
    requires z.rank.Valid()
    ensures x in AddObject(z, y).rank.list ==> x !in Evicted(z.rank, z.Size()) || y in z.rank.list
  {
    hide Added, Evicted, Others, Begin;
    if y !in z.rank.list {
      AddKeepsOrder(z.rank, z.Size(), y);
      var kept := Others(Added(z.rank, z.Size(), y).list, y);
      if x in Evicted(z.rank, z.Size()) && x in Added(z.rank, z.Size(), y).list {
        LastIsNotBefore(kept, Evicted(z.rank, z.Size()), z.rank.list, x);
        assert x != y;
        OthersMember(Added(z.rank, z.Size(), y).list, y, x);
      }
    }
  }

  lemma LastIsNotBefore(a: seq<ObjectIndex>, b: seq<ObjectIndex>, s: seq<ObjectIndex>, x: ObjectIndex)
    requires a + b == s && NoDup(s) && x in b
    ensures x !in a && x in s
  {
    var j :| 0 <= j < |b| && b[j] == x;
    assert s[|a| + j] == x;
    assert forall i :: 0 <= i < |a| ==> s[i] == a[i];
  }

  /* ---------- What single steps bring about ---------- */

  /** A part that was asked about is in the index, one that was saved is on disk, and one whose flush is
      over is in the index again. */
  lemma FlushPutsAway(z: Zone, e: Event)
    requires Enabled(z, e) && z.rank.Valid()
    ensures e.ShouldKeep? ==>
              e.idx in Step(z, e).rank.list && Step(z, e).flushes == z.flushes + [Flush(e.idx, false)]
    ensures e.SavePart? ==> Step(z, e).stored == z.stored + {z.flushes[e.k].idx}
    ensures e.FinishFlush? ==> z.flushes[e.k].idx in Step(z, e).rank.list
  {
    hide Added, Promoted, Removed, RemovedAll, Shrunk, Evicted, Dropped, Begin;
    match e
    case ShouldKeep(x) => InIndexAfter(z, x);
    case FinishFlush(k) => InIndexAfter(z.(flushes := RemoveAt(z.flushes, k)), z.flushes[k].idx);
    case _ =>
  }

  lemma InIndexAfter(z: Zone, x: ObjectIndex)
    requires z.rank.Valid()
    ensures x in AddObject(z, x).rank.list
  {
    hide Added, Evicted, Begin;
    if x !in z.rank.list {
      AddKeepsOrder(z.rank, z.Size(), x);
    }
  }

  /** After a purge or an expiration nothing of the object is on disk, and nothing that was is in the
      index. Other objects are not touched. */
  lemma PurgeClears(z: Zone, e: Event, x: ObjectIndex)
    requires Enabled(z, e) && z.rank.Valid() && (e.Purge? || e.Expire?)
    ensures x.id == e.id ==> x !in Step(z, e).stored && (x in z.stored ==> x !in Step(z, e).rank.list)
    ensures x.id != e.id ==>
              (x in Step(z, e).stored <==> x in z.stored) && (x in Step(z, e).rank.list <==> x in z.rank.list)
  {
    hide Added, Promoted, Removed, RemovedAll, Shrunk, Evicted, Dropped, Begin;
    RemovedAllMembers(z.rank, e.parts);
  }

  /** No flush of a part of the object saves it during the run. */
  ghost predicate NoSaveOf(z: Zone, es: seq<Event>, id: ObjectID)
    requires CanRun(z, es)
    decreases |es|
  {
    es != [] ==>
      (es[0].SavePart? ==> z.flushes[es[0].k].idx.id != id) && NoSaveOf(Step(z, es[0]), es[1..], id)
  }

  /** And nothing of it comes back to the disk until a flush saves it again. */
  lemma {:induction false} StaysPurged(z: Zone, es: seq<Event>, id: ObjectID)
    requires CanRun(z, es) && NoSaveOf(z, es, id) && forall x :: x in z.stored ==> x.id != id
    ensures forall x :: x in Run(z, es).stored ==> x.id != id
    decreases |es|
  {
    if es != [] {
      var y := Step(z, es[0]);
      OnlySavesStore(z, es[0]);
      StaysPurged(y, es[1..], id);
    }
  }

  lemma OnlySavesStore(z: Zone, e: Event)
    requires Enabled(z, e)
    ensures forall x :: x in Step(z, e).stored && x !in z.stored ==> e.SavePart? && z.flushes[e.k].idx == x
  {
    hide Added, Promoted, Removed, RemovedAll, Shrunk, Evicted, Dropped, Begin;
  }

  function BatchOf(r: Removal, count: nat): seq<ObjectIndex>
    requires r.i < |r.indexes|
  {
    r.indexes[r.i..Min(r.i + count, |r.indexes|)]
  }

  /** A batch discards what the index does not hold, and nothing else. */
  lemma BatchDiscards(z: Zone, k: nat, x: ObjectIndex)
    requires Enabled(z, Batch(k))
    ensures x in Step(z, Batch(k)).stored
       <==> x in z.stored && (x in z.rank.list || x !in BatchOf(z.removals[k], z.count))
    ensures Step(z, Batch(k)).rank == z.rank
  {
  }

  /** What a smaller size takes out of the index is handed to one new removal, from its first object on. */
  lemma ShrinkHandsOver(z: Zone, e: Event, x: ObjectIndex)
    requires Enabled(z, e) && z.rank.Valid() && e.ChangeConfig?
    ensures Step(z, e).objects == e.newsize && Step(z, e).count == e.newCount && Step(z, e).stored == z.stored
    ensures x in z.rank.list && x !in Step(z, e).rank.list ==>
              && |Step(z, e).removals| == |z.removals| + 1
              && Step(z, e).removals[|z.removals|].i == 0
              && Step(z, e).removals[|z.removals|].waiting.None?
              && x in Step(z, e).removals[|z.removals|].indexes
    ensures z.Size() <= e.newsize / 4 ==> Step(z, e).rank == z.rank && Step(z, e).removals == z.removals
  {
    hide Added, Promoted, Removed, RemovedAll, Shrunk, Evicted, Dropped, Begin;
    ResizeMembers(z.rank, e.newsize / 4);
  }

  /** Nothing gets into the index but what a flush or a promotion puts there. What leaves it is evicted,
      and off the disk; or belongs to an object that is purged or expires; or is handed to a removal. */
  lemma IndexChanges(z: Zone, e: Event, x: ObjectIndex)
    requires Enabled(z, e) && z.rank.Valid()
    ensures x !in z.rank.list && x in Step(z, e).rank.list ==>
              || (e.ShouldKeep? && x == e.idx) || (e.PromoteObject? && x == e.idx)
              || (e.FinishFlush? && x == z.flushes[e.k].idx)
    ensures x in z.rank.list && x !in Step(z, e).rank.list ==>
              || ((e.ShouldKeep? || e.PromoteObject? || e.FinishFlush?) && x !in Step(z, e).stored)
              || ((e.Purge? || e.Expire?) && x.id == e.id) || e.ChangeConfig?
  {
    hide Added, Promoted, Removed, RemovedAll, Shrunk, Evicted, Dropped, Begin, TierAt;
    match e
    case ShouldKeep(y) => AddChanges(z, y, x);
    case FinishFlush(k) => AddChanges(z.(flushes := RemoveAt(z.flushes, k)), z.flushes[k].idx, x);
    case PromoteObject(y) =>
      AddChanges(z, y, x);
      if y in z.rank.list { PromoteMembers(z.rank, z.Size(), y); }
    case Purge(id, parts) => RemovedAllMembers(z.rank, parts);
    case Expire(id, parts) => RemovedAllMembers(z.rank, parts);
    case ChangeConfig(_, newsize) => ResizeMembers(z.rank, newsize / 4);
    case _ =>
  }

  lemma AddChanges(z: Zone, y: ObjectIndex, x: ObjectIndex)
    requires z.rank.Valid()
    ensures x !in z.rank.list && x in AddObject(z, y).rank.list ==> x == y
    ensures x in z.rank.list && x !in AddObject(z, y).rank.list ==> x !in AddObject(z, y).stored
  {
    hide Added, Evicted, Others, Begin;
    if y !in z.rank.list {
      AddMembers(z.rank, z.Size(), y);
      AddKeepsOrder(z.rank, z.Size(), y);
      var p := Added(z.rank, z.Size(), y);
      OthersMember(p.list, y, x);
      assert x in Others(p.list, y) ==> x in Others(p.list, y) + Evicted(z.rank, z.Size());
    }
  }

  /** The advance leaves the place of the next batch where it was. */
  ghost predicate Steady(z: Zone, k: nat)
    requires Enabled(z, Advance(k))
  {
    Min(z.removals[k].i + z.count, |z.removals[k].indexes|) == z.removals[k].Next()
  }

  /** The removal has gone through its objects up to the next batch, each once and in order. */
  predicate InOrder(r: Removal) { r.done == r.indexes[..r.Next()] }

  /** It has left one out for good, has gone through one twice, or is about to. */
  predicate Spoiled(r: Removal) {
    || (exists p :: 0 <= p < Min(r.i, |r.indexes|) && r.indexes[p] !in r.done)
    || (exists a, b :: 0 <= a < b < |r.done| && r.done[a] == r.done[b])
    || (r.waiting.None? && r.i < |r.indexes| && r.indexes[r.i] in r.done)
  }

  /** Every advance of removal k in a run is steady. */
  ghost predicate SteadyFor(z: Zone, es: seq<Event>, k: nat)
    requires CanRun(z, es)
    decreases |es|
  {
    es != [] ==> (es[0] == Advance(k) ==> Steady(z, k)) && SteadyFor(Step(z, es[0]), es[1..], k)
  }

  /** Removals stay where they are in the list, and each is for the same objects all the time. */
  lemma RemovalStays(z: Zone, e: Event, k: nat)
    requires Enabled(z, e)
    ensures |z.removals| <= |Step(z, e).removals|
    ensures k < |z.removals| ==> Step(z, e).removals[k].indexes == z.removals[k].indexes
    ensures k < |z.removals| && e != Batch(k) && e != Advance(k) ==> Step(z, e).removals[k] == z.removals[k]
    ensures |z.removals| <= k < |Step(z, e).removals| ==> InOrder(Step(z, e).removals[k])
    ensures z.count > 0 ==> Step(z, e).count > 0
  {
    hide Added, Promoted, Removed, RemovedAll, Shrunk, Evicted, Dropped;
  }

  lemma StepKeepsOrder(z: Zone, e: Event, k: nat)
    requires Enabled(z, e) && k < |z.removals| && InOrder(z.removals[k])
    requires e == Advance(k) ==> Steady(z, k)
    ensures k < |Step(z, e).removals| && InOrder(Step(z, e).removals[k])
  {
    hide Added, Promoted, Removed, RemovedAll, Shrunk, Evicted, Dropped;
    RemovalStays(z, e, k);
    if e == Batch(k) {
      var r := z.removals[k];
      var end := Min(r.i + z.count, |r.indexes|);
      assert r.indexes[..r.i] + r.indexes[r.i..end] == r.indexes[..end];
    }
  }

  /** An advance that is not steady spoils the removal. */
  lemma StepSpoils(z: Zone, k: nat)
    requires Enabled(z, Advance(k)) && NoDup(z.removals[k].indexes)
    requires InOrder(z.removals[k]) && !Steady(z, k)
    ensures Spoiled(Step(z, Advance(k)).removals[k])
  {
    var r, q := z.removals[k], Step(z, Advance(k)).removals[k];
    var p := r.Next();
    if q.i > p {
      assert q.indexes[p] == r.indexes[p];
      assert forall a :: 0 <= a < p ==> r.done[a] == r.indexes[a];
      assert q.indexes[p] !in q.done;
    } else {
      assert r.done[q.i] == q.indexes[q.i];
      assert q.indexes[q.i] in q.done;
    }
  }

  /** Nothing makes up for it later. */
  lemma StepKeepsSpoiled(z: Zone, e: Event, k: nat)
    requires Enabled(z, e) && z.count > 0 && k < |z.removals| && NoDup(z.removals[k].indexes)
    requires Spoiled(z.removals[k])
    ensures k < |Step(z, e).removals| && Spoiled(Step(z, e).removals[k])
  {
    hide Added, Promoted, Removed, RemovedAll, Shrunk, Evicted, Dropped, Spoiled;
    RemovalStays(z, e, k);
    if e == Batch(k) {
      BatchKeepsSpoiled(z.removals[k], Step(z, e).removals[k], z.count);
    } else if e == Advance(k) {
      AdvanceKeepsSpoiled(z.removals[k], Step(z, e).removals[k]);
    }
  }

  lemma BatchKeepsSpoiled(r: Removal, q: Removal, count: nat)
    requires r.waiting.None? && r.i < |r.indexes| && NoDup(r.indexes) && count > 0 && Spoiled(r)
    requires q == Removal(r.indexes, r.i, Some(count), r.done + r.indexes[r.i..Min(r.i + count, |r.indexes|)])
    ensures Spoiled(q)
  {
    var batch := r.indexes[r.i..Min(r.i + count, |r.indexes|)];
    if p :| 0 <= p < Min(r.i, |r.indexes|) && r.indexes[p] !in r.done {
      assert forall a :: 0 <= a < |batch| ==> batch[a] == r.indexes[r.i + a];
      assert q.indexes[p] !in q.done;
    } else if a, b :| 0 <= a < b < |r.done| && r.done[a] == r.done[b] {
      assert q.done[a] == q.done[b];
    } else {
      var a :| 0 <= a < |r.done| && r.done[a] == r.indexes[r.i];
      assert batch[0] == r.indexes[r.i];
      assert q.done[a] == q.done[|r.done|];
    }
  }

  lemma AdvanceKeepsSpoiled(r: Removal, q: Removal)
    requires r.waiting.Some? && Spoiled(r) && q.waiting.None?
    requires q.indexes == r.indexes && q.done == r.done && q.i >= r.i
    ensures Spoiled(q)
  {
    if p :| 0 <= p < Min(r.i, |r.indexes|) && r.indexes[p] !in r.done {
      assert q.indexes[p] !in q.done;
    }
  }

  lemma {:induction false} RunKeepsSpoiled(z: Zone, es: seq<Event>, k: nat)
    requires CanRun(z, es) && z.count > 0 && k < |z.removals| && NoDup(z.removals[k].indexes)
    requires Spoiled(z.removals[k])
    ensures k < |Run(z, es).removals| && Spoiled(Run(z, es).removals[k])
    decreases |es|
  {
    hide Spoiled, Step, Enabled;
    if es != [] {
      RemovalStays(z, es[0], k);
      StepKeepsSpoiled(z, es[0], k);
      RunKeepsSpoiled(Step(z, es[0]), es[1..], k);
    }
  }

  lemma {:induction false} RunKeepsIndexes(z: Zone, es: seq<Event>, k: nat)
    requires CanRun(z, es) && k < |z.removals|
    ensures k < |Run(z, es).removals| && Run(z, es).removals[k].indexes == z.removals[k].indexes
    decreases |es|
  {
    hide Step, Enabled;
    if es != [] {
      RemovalStays(z, es[0], k);
      RunKeepsIndexes(Step(z, es[0]), es[1..], k);
    }
  }

  /** Steady advances keep the order; the first one that is not spoils it for good. */
  lemma {:induction false} OrderedOrSpoiled(z: Zone, es: seq<Event>, k: nat)
    requires CanRun(z, es) && z.count > 0 && (k < |z.removals| ==> InOrder(z.removals[k]))
    ensures k < |Run(z, es).removals| ==>
              var r := Run(z, es).removals[k];
              if SteadyFor(z, es, k) then InOrder(r) else (NoDup(r.indexes) ==> Spoiled(r))
    decreases |es|
  {
    hide Spoiled, InOrder, Step, Enabled, Steady, NoDup;
    if es != [] {
      var e, y := es[0], Step(z, es[0]);
      RemovalStays(z, e, k);
      if e == Advance(k) && !Steady(z, k) {
        AdvanceInRange(z, k);
        RunKeepsIndexes(z, es, k);
        if NoDup(z.removals[k].indexes) {
          StepSpoils(z, k);
          RunKeepsSpoiled(y, es[1..], k);
        }
      } else {
        if k < |z.removals| { StepKeepsOrder(z, e, k); }
        OrderedOrSpoiled(y, es[1..], k);
      }
    }
  }

  lemma AdvanceInRange(z: Zone, k: nat)
    requires Enabled(z, Advance(k))
    ensures k < |z.removals|
  {
  }

  lemma FinishedInOrder(r: Removal)
    requires r.waiting.None? && r.i >= |r.indexes|
    ensures InOrder(r) <==> r.done == r.indexes
    ensures Spoiled(r) && NoDup(r.indexes) ==> r.done != r.indexes
  {
    assert r.indexes[..|r.indexes|] == r.indexes;
  }

  lemma DroppedOnce(c: Ranking, size: nat)
    requires c.Valid()
    ensures NoDup(Dropped(c, size))
  {
    hide Shrunk, Dropped, Kept, Begin;
    ShrinkKeepsBest(c, size);
  }

  /** No removal is started for an object twice. */
  ghost predicate OnceEach(z: Zone) {
    && z.rank.Valid() && Fits(z.rank.sizes, z.Size())
    && forall k :: 0 <= k < |z.removals| ==> NoDup(z.removals[k].indexes)
  }

  lemma StepKeepsOnceEach(z: Zone, e: Event)
    requires OnceEach(z) && Enabled(z, e)
    ensures OnceEach(Step(z, e))
  {
    hide Added, Promoted, Removed, RemovedAll, Shrunk, Evicted, Dropped, NoDup;
    StepKeepsRanking(z, e);
    if e.ChangeConfig? {
      DroppedOnce(z.rank, e.newsize / 4);
    }
  }

  lemma {:induction false} RunKeepsOnceEach(z: Zone, es: seq<Event>)
    requires OnceEach(z) && CanRun(z, es)
    ensures OnceEach(Run(z, es))
    decreases |es|
  {
    hide Step, Enabled, OnceEach;
    if es != [] {
      StepKeepsOnceEach(z, es[0]);
      RunKeepsOnceEach(Step(z, es[0]), es[1..]);
    }
  }

  /** In a zone that starts empty, a removal that is over has gone through exactly the objects it was
      started for, each once and in order, if and only if none of its advances moved the place of the
      next batch: whatever else ran in between. */
  lemma RemovalsGoThroughAll(objects: nat, count: nat, es: seq<Event>, k: nat)
    requires count > 0 && CanRun(Fresh(objects, count), es)
    requires k < |Run(Fresh(objects, count), es).removals|
    requires var r := Run(Fresh(objects, count), es).removals[k]; r.waiting.None? && r.i >= |r.indexes|
    ensures var r := Run(Fresh(objects, count), es).removals[k];
            SteadyFor(Fresh(objects, count), es, k) <==> r.done == r.indexes
  {
    hide Spoiled, InOrder, Step, Enabled, Steady, NoDup;
    var z := Fresh(objects, count);
    FreshOnceEach(objects, count);
    RunKeepsOnceEach(z, es);
    OrderedOrSpoiled(z, es, k);
    FinishedInOrder(Run(z, es).removals[k]);
  }

  lemma FreshOnceEach(objects: nat, count: nat)
    ensures OnceEach(Fresh(objects, count))
  {
    assert Begin([0, 0, 0, 0], 1) == Begin([0, 0, 0, 0], 2) == 0;
  }

  lemma RunCons(z: Zone, e: Event, es: seq<Event>)
    requires Enabled(z, e) && CanRun(Step(z, e), es)
    ensures CanRun(z, [e] + es) && Run(z, [e] + es) == Run(Step(z, e), es)
  {
    assert ([e] + es)[1..] == es;
  }

  /** Two parts are cached, the cache is shrunk to nothing, and the batch size goes from 1
      to 2 while the removal waits after its first batch. */
  function LossyRun(a: ObjectIndex, b: ObjectIndex): seq<Event> {
    [ShouldKeep(a)] + ([SavePart(0)] + ([FinishFlush(0)] +
    ([ShouldKeep(b)] + ([SavePart(0)] + ([FinishFlush(0)] +
    ([ChangeConfig(1, 0)] + ([Batch(0)] + ([ChangeConfig(2, 0)] + ([Advance(0)] + [])))))))))
  }

  /** Raising BulkRemoveCount under a waiting removal leaves a part on disk that the index
      does not hold and no removal will ever visit. */
  lemma RaisedBatchSizeLosesAPart(a: ObjectIndex, b: ObjectIndex)
    requires a != b
    ensures CanRun(Fresh(8, 1), LossyRun(a, b))
    ensures var z := Run(Fresh(8, 1), LossyRun(a, b)); b in z.stored && !Tracked(z, b)
  {
    hide Step, Run, CanRun, Enabled, Tracked;
    var z3 := Zone(Ranking([a], [0, 0, 0, 1]), 8, 1, {a}, [], []);
    var z6 := Zone(Ranking([b, a], [0, 0, 0, 2]), 8, 1, {a, b}, [], []);
    SizesOf([0, 0, 0, 0]);
    SizesOf([0, 0, 0, 1]);
    SizesOf([0, 0, 0, 2]);
    var end := LossyEnd(z6, a, b);
    CacheOne(z3, b, z6, end);
    CacheOne(Fresh(8, 1), a, z3, [ShouldKeep(b)] + ([SavePart(0)] + ([FinishFlush(0)] + end)));
  }

  lemma LossyEnd(z6: Zone, a: ObjectIndex, b: ObjectIndex) returns (end: seq<Event>)
    requires a != b && z6 == Zone(Ranking([b, a], [0, 0, 0, 2]), 8, 1, {a, b}, [], [])
    ensures end == [ChangeConfig(1, 0)] + ([Batch(0)] + ([ChangeConfig(2, 0)] + ([Advance(0)] + [])))
    ensures CanRun(z6, end) && b in Run(z6, end).stored && !Tracked(Run(z6, end), b)
  {
    var z7 := Zone(Ranking([], [0, 0, 0, 0]), 0, 1, {a, b}, [Removal([a, b], 0, None, [])], []);
    var z8 := z7.(stored := {b}, removals := [Removal([a, b], 0, Some(1), [a])]);
    var z9 := z8.(count := 2);
    var z10 := z9.(removals := [Removal([a, b], 2, None, [a])]);
    SizesOf([0, 0, 0, 0]);
    SizesOf([0, 0, 0, 2]);
    assert Step(z9, Advance(0)) == z10;
    RunCons(z9, Advance(0), []);
    assert Step(z8, ChangeConfig(2, 0)) == z9;
    RunCons(z8, ChangeConfig(2, 0), [Advance(0)] + []);
    FirstBatch(z7, z8, a, b);
    RunCons(z7, Batch(0), [ChangeConfig(2, 0)] + ([Advance(0)] + []));
    ShrinkToNothing(a, b);
    assert Step(z6, ChangeConfig(1, 0)) == z7;
    end := [ChangeConfig(1, 0)] + ([Batch(0)] + ([ChangeConfig(2, 0)] + ([Advance(0)] + [])));
    RunCons(z6, ChangeConfig(1, 0), [Batch(0)] + ([ChangeConfig(2, 0)] + ([Advance(0)] + [])));
  }

  lemma ShrinkToNothing(a: ObjectIndex, b: ObjectIndex)
    ensures Begin([0, 0, 0, 2], 4) == 2
    ensures Shrunk(Ranking([b, a], [0, 0, 0, 2]), 0) == Ranking([], [0, 0, 0, 0])
    ensures Dropped(Ranking([b, a], [0, 0, 0, 2]), 0) == [a, b]
  {
    var c := Ranking([b, a], [0, 0, 0, 2]);
    SizesOf(c.sizes);
    forall t: nat | t <= 4 ensures Kept(c.sizes, 0, t) == 0 { KeptAtMost(c.sizes, 0, t); }
    assert Shrunk(c, 0).sizes == [0, 0, 0, 0];
  }

  lemma FirstBatch(z: Zone, y: Zone, a: ObjectIndex, b: ObjectIndex)
    requires a != b && z == Zone(Ranking([], [0, 0, 0, 0]), 0, 1, {a, b}, [Removal([a, b], 0, None, [])], [])
    requires y == z.(stored := {b}, removals := [Removal([a, b], 0, Some(1), [a])])
    ensures Enabled(z, Batch(0)) && Step(z, Batch(0)) == y
  {
    SizesOf([0, 0, 0, 0]);
    var r := z.removals[0];
    var batch := r.indexes[r.i..Min(r.i + z.count, |r.indexes|)];
    assert batch == [a] && Elements(batch) == {a} && Elements(z.rank.list) == {};
    assert z.stored - (Elements(batch) - Elements(z.rank.list)) == {b};
    assert r.done + batch == [a];
  }

  lemma SizesOf(sizes: seq<nat>)
    requires |sizes| == TIERS
    ensures Begin(sizes, 0) == 0 && Begin(sizes, 1) == sizes[0] && Begin(sizes, 2) == sizes[0] + sizes[1]
    ensures Begin(sizes, 3) == sizes[0] + sizes[1] + sizes[2]
    ensures Begin(sizes, 4) == sizes[0] + sizes[1] + sizes[2] + sizes[3]
    ensures Kept(sizes, 0, 4) == 0
  {
    assert Begin(sizes, 1) == Begin(sizes, 0) + sizes[0];
    KeptAtMost(sizes, 0, 4);
  }

  lemma CacheOne(z: Zone, x: ObjectIndex, y: Zone, es: seq<Event>)
    requires z.rank.Shaped() && z.flushes == [] && x !in z.rank.list && z.rank.sizes[3] < z.Size()
    requires |z.rank.list| == z.rank.sizes[3]
    requires y == z.(rank := Ranking([x] + z.rank.list, z.rank.sizes[3 := z.rank.sizes[3] + 1]),
                     stored := z.stored + {x})
    requires y.rank.Shaped() && CanRun(y, es)
    ensures var all := [ShouldKeep(x)] + ([SavePart(0)] + ([FinishFlush(0)] + es));
            CanRun(z, all) && Run(z, all) == Run(y, es)
  {
    var y1 := y.(stored := z.stored, flushes := [Flush(x, false)]);
    var y2 := y.(flushes := [Flush(x, true)]);
    assert InsertAt(z.rank.list, 0, x) == [x] + z.rank.list;
    assert Added(z.rank, z.Size(), x) == y.rank;
    EvictedOnlyWhenFull(z.rank, z.Size());
    assert Step(z, ShouldKeep(x)) == y1;
    assert Step(y1, SavePart(0)) == y2;
    assert Step(y2, FinishFlush(0)) == y;
    RunCons(y2, FinishFlush(0), es);
    RunCons(y1, SavePart(0), [FinishFlush(0)] + es);
    RunCons(z, ShouldKeep(x), [SavePart(0)] + ([FinishFlush(0)] + es));
  }
}
