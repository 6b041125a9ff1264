/** The segmented LRU: four linked lists and a lookup map, updated in place. */
module TieredLRU {
  import opened ObjectIndexes
  import opened Arithmetic
  import opened Ranked
  import opened Tiers

  /** The files on disk. The cache's removal callback is DiscardPart. */
  class Storage {
    var parts: map<ObjectIndex, Bytes>

    constructor ()
      ensures parts == map[]
    {
      parts := map[];
    }

    /** Fails when the file does not exist, as os.Remove does. */
    method DiscardPart(idx: ObjectIndex) returns (err: bool)
      modifies this
      ensures parts == old(parts) - {idx}
      ensures err <==> idx !in old(parts)
    {
      err := idx !in parts;
      parts := parts - {idx};
    }
  }

  /** Where a cached object is: its list element and the tier that holds it. */
  class Element {
    var listElem: ListElement
    var listTier: nat

    constructor (e: ListElement, tier: nat)
      ensures listElem == e && listTier == tier
    {
      listElem, listTier := e, tier;
    }
  }

  class TieredLRUCache {
    var tiers: seq<List>
    var lookup: map<ObjectIndex, Element>
    var tierListSize: nat
    var storageObjects: nat
    var bulkRemoveCount: nat
    const storage: Storage
    /** The argument of every "go throttledRemove" so far. */
    var spawned: seq<seq<ObjectIndex>>

    ghost function Entries(): map<ObjectIndex, Place>
      reads this`lookup, lookup.Values
    {
      map k | k in lookup :: Place(lookup[k].listElem, lookup[k].listTier)
    }

    ghost predicate Valid()
      reads this`tiers, this`lookup, lookup.Values
    {
      |tiers| == TIERS && Linked(tiers, Entries()) && Separate()
    }

    /** No two objects share a lookup entry. */
    ghost predicate Separate()
      reads this`lookup
    {
      forall k, m :: k in lookup && m in lookup && k != m ==> lookup[k] != lookup[m]
    }

    /** The ranked list holds every cached object once and nothing else. */
    lemma RankedKeys()
      requires Valid()
      ensures Abs().Valid()
      ensures forall k :: k in Abs().list <==> k in lookup
    {
      LinkedRanking(tiers, Entries());
      assert forall k :: k in Abs().list <==> k in Elements(Flat(tiers));
    }

    /** The map never holds more objects than the cache may. With less than four of them the
        tier size is 0, and still one object is kept. */
    lemma LookupBounded()
      requires Valid() && Bounded() && tierListSize == storageObjects / 4
      ensures |lookup| == |Abs().list| <= Max(storageObjects, 1)
    {
      hide Linked, Flat;
      RankedKeys();
      NoDupCount(Abs().list);
      assert lookup.Keys == Elements(Abs().list);
      assert |lookup| == |lookup.Keys|;
      BoundedCount(Abs().sizes, tierListSize);
    }

    ghost predicate Bounded()
      reads this`tiers, this`tierListSize
    {
      |tiers| == TIERS && Fits(Sizes(tiers), tierListSize)
    }

    /** The ranked list that this object stands for. */
    function Abs(): (c: Ranking)
      requires |tiers| == TIERS
      reads this`tiers
      ensures c.Shaped()
    {
      FlatLength(tiers);
      Ranking(Flat(tiers), Sizes(tiers))
    }

    constructor (storageObjects: nat, bulkRemoveCount: nat, storage: Storage)
      ensures Valid() && Bounded() && lookup == map[] && Abs() == Ranking([], [0, 0, 0, 0])
      ensures this.storageObjects == storageObjects && tierListSize == storageObjects / 4
      ensures this.bulkRemoveCount == bulkRemoveCount && this.storage == storage && spawned == []
    {
      tiers, lookup, spawned := [[], [], [], []], map[], [];
      this.storageObjects, this.bulkRemoveCount, this.storage := storageObjects, bulkRemoveCount, storage;
      tierListSize := storageObjects / 4;
      new;
      assert Flat(tiers) == [] && Sizes(tiers) == [0, 0, 0, 0];
    }

    /** Moves element e, at position i of tier t, to an end of another tier: the cascade in
        freeSpaceInLastList, the swap in PromoteObject and the spilling in resize all take
        an element out, find its entry, push its value and correct the entry. The entry is
        always found, so the error branches at those places are never taken. */
    method Relocate(t: nat, e: ListElement, to: nat, atFront: bool, ghost i: nat)
      requires Valid() && t < TIERS && i < |tiers[t]| && tiers[t][i] == e && to < TIERS && to != t
      modifies this`tiers, lookup.Values
      ensures Valid()
      ensures forall u: nat :: u < TIERS && u != t && u != to ==> tiers[u] == old(tiers[u])
      ensures Values(tiers[t]) == RemoveAt(Values(old(tiers[t])), i)
      ensures Values(tiers[to]) == if atFront
                                   then [e.value] + Values(old(tiers[to]))
                                   else Values(old(tiers[to])) + [e.value]
    {
      hide Linked, Values;
      ghost var was, entries := tiers, Entries();
      OwnedAt(was, entries, t, i);
      LinkedDetach(was, entries, t, i);
      tiers := tiers[t := Detach(tiers[t], e)];
      if e.value !in lookup {
        assert false;
      }
      var el := lookup[e.value];
      var pushed := new ListElement(e.value);
      tiers := tiers[to := if atFront then [pushed] + tiers[to] else tiers[to] + [pushed]];
      LinkedMoved(was, entries, t, i, to, pushed, tiers);
      Point(e.value, el, pushed, to);
      assert Entries() == entries[e.value := Place(pushed, to)];
    }

    /** Updates the two fields of an entry in place. */
    method Point(ghost k: ObjectIndex, el: Element, e: ListElement, tier: nat)
      requires k in lookup && lookup[k] == el && Separate()
      modifies el
      ensures Entries() == old(Entries())[k := Place(e, tier)]
    {
      el.listElem, el.listTier := e, tier;
    }

    /** Takes the object of element e out of its list and out of the lookup map. */
    method Drop(t: nat, e: ListElement, ghost i: nat)
      requires Valid() && t < TIERS && i < |tiers[t]| && tiers[t][i] == e
      modifies this`tiers, this`lookup
      ensures Valid() && lookup == old(lookup) - {e.value}
      ensures tiers == old(tiers)[t := RemoveAt(old(tiers[t]), i)]
    {
      hide Linked;
      LinkedWithout(tiers, Entries(), t, i);
      LinkedDetach(tiers, Entries(), t, i);
      ghost var entries := Entries();
      tiers := tiers[t := Detach(tiers[t], e)];
      lookup := lookup - {e.value};
      assert Entries() == entries - {e.value};
    }

    method FreeSpaceInLastList()
      requires Valid() && |tiers[3]| >= tierListSize
      modifies this`tiers, this`lookup, lookup.Values, storage
      ensures Valid() && lookup.Values <= old(lookup.Values)
      ensures storage.parts == old(storage.parts) - Elements(Evicted(old(Abs()), tierListSize))
      ensures lookup.Keys == old(lookup.Keys) - Elements(Evicted(old(Abs()), tierListSize))
      ensures Abs() == Freed(old(Abs()), tierListSize)
    {
      hide Linked, Flat, Values, FreeTier, Freed, Evicted, Begin;
      FreedCases(Abs(), tierListSize);
      if |tiers[TIERS - 1]| < 1 {
        return;
      }
      var freeList := FindFree();
      if freeList != -1 {
        Cascade(freeList);
      } else {
        EvictLast();
      }
    }

    /** The lowest tier above the last one that has room, or -1. */
    method FindFree() returns (freeList: int)
      requires |tiers| == TIERS
      ensures freeList == FreeTier(Abs().sizes, tierListSize, 3)
      ensures forall t :: 0 <= t < TIERS ==> Abs().sizes[t] == |tiers[t]|
    {
      hide Flat;
      freeList := -1;
      var i := TIERS - 2;
      while i >= 0
        invariant -1 <= i < TIERS - 1
        invariant FreeTier(Sizes(tiers), tierListSize, 3) == FreeTier(Sizes(tiers), tierListSize, i + 1)
      {
        if |tiers[i]| < tierListSize {
          freeList := i;
          break;
        }
        i := i - 1;
      }
    }

    /** Every front element from the last tier up to the free slot goes to the back of the
        tier above. */
    method Cascade(freeList: nat)
      requires Valid() && freeList < 3
      requires forall t :: freeList < t <= 3 ==> tiers[t] != []
      modifies this`tiers, lookup.Values
      ensures Valid()
      ensures Abs() == Ranking(old(Abs().list), CascadedTo(old(Abs().sizes), freeList))
    {
      hide Linked, Flat;
      var i := TIERS - 1;
      while i > freeList
        invariant freeList <= i < TIERS && Valid()
        invariant i != freeList ==> tiers[i] != []
        invariant Abs() == Ranking(old(Abs().list), CascadedTo(old(Abs().sizes), i))
      {
        assert |tiers[i - 1]| == Abs().sizes[i - 1] == old(Abs().sizes[i - 1]);
        assert |tiers[i]| == Abs().sizes[i];
        MoveFrontUp(i);
        i := i - 1;
        assert |tiers[i]| == Abs().sizes[i];
      }
    }

    /** Inserts a new object and reports ErrAlreadyInCache for a cached one. */
    method AddObject(oi: ObjectIndex) returns (err: bool)
      requires Valid()
      modifies this`tiers, this`lookup, lookup.Values, storage
      ensures Valid() && (old(Bounded()) ==> Bounded()) && fresh(lookup.Values - old(lookup.Values))
      ensures err <==> oi in old(lookup)
      ensures err ==> Abs() == old(Abs()) && storage.parts == old(storage.parts)
      ensures !err ==> Abs() == Added(old(Abs()), tierListSize, oi)
      ensures !err ==> storage.parts == old(storage.parts) - Elements(Evicted(old(Abs()), tierListSize))
    {
      hide Linked, Flat, Values, Added, Freed, Evicted, Fits, Begin;
      err := oi in lookup;
      if err {
        return;
      }
      RankedKeys();
      if Bounded() {
        AddedFits(Abs(), tierListSize, oi);
      }
      FreeThenPush(Abs(), tierListSize, oi);
      EvictedOnlyWhenFull(Abs(), tierListSize);
      if |tiers[3]| >= tierListSize {
        FreeSpaceInLastList();
      }
      assert lookup.Values <= old(lookup.Values);
      PushNew(oi);
    }

    /** The end of AddObject: a list element, an entry and a key for the new object. */
    method PushNew(oi: ObjectIndex)
      requires Valid() && oi !in lookup
      modifies this`tiers, this`lookup
      ensures Valid() && fresh(lookup.Values - old(lookup.Values))
      ensures |old(tiers[3])| <= |old(Abs().list)|
      ensures Abs() == Ranking(InsertAt(old(Abs().list), |old(Abs().list)| - |old(tiers[3])|, oi),
                               old(Abs().sizes[3 := |tiers[3]| + 1]))
    {
      hide Linked, Flat, Values;
      ghost var was, entries := tiers, Entries();
      var e := new ListElement(oi);
      tiers := tiers[3 := [e] + tiers[3]];
      var el := new Element(e, 3);
      lookup := lookup[oi := el];
      LinkedWith(was, entries, 3, e, tiers[3]);
      assert Entries() == entries[oi := Place(e, 3)];
      FlatPushLast(was, e);
    }

    method MoveFrontUp(i: nat)
      requires Valid() && 0 < i < TIERS && tiers[i] != []
      modifies this`tiers, lookup.Values
      ensures Valid()
      ensures Abs().list == old(Abs().list)
      ensures Abs().sizes == old(Abs().sizes[i := |tiers[i]| - 1][i - 1 := |tiers[i - 1]| + 1])
    {
      hide Linked, Flat, Values;
      ghost var was := tiers;
      var front := tiers[i][0];
      Relocate(i, front, i - 1, false, 0);
      ValuesAt(was[i], 0);
      FrontUp(Values(was[i - 1]), Values(was[i]), front.value);
      FlatPair(was, tiers, i - 1);
    }

    /** Removes the worst object of a cache whose last tier is not empty. */
    method EvictLast()
      requires Valid() && tiers[3] != []
      modifies this`tiers, this`lookup, storage
      ensures Valid() && lookup == old(lookup) - {old(tiers[3][|tiers[3]| - 1].value)}
      ensures storage.parts == old(storage.parts) - {old(tiers[3][|tiers[3]| - 1].value)}
      ensures old(Abs().list) == Abs().list + [old(tiers[3][|tiers[3]| - 1].value)]
      ensures Abs().sizes == old(Abs().sizes[3 := |tiers[3]| - 1])
    {
      hide Linked, Flat;
      ghost var flat := Flat(tiers);
      FlatTruncate(tiers, 3, |tiers[3]| - 1);
      var back := tiers[3][|tiers[3]| - 1];
      assert Values(tiers[3])[|tiers[3]| - 1] == back.value;
      assert RemoveAt(tiers[3], |tiers[3]| - 1) == tiers[3][..|tiers[3]| - 1];
      assert flat[|flat| - 1] == back.value;
      Drop(3, back, |tiers[3]| - 1);
      var err := storage.DiscardPart(back.value);
    }

    /** Promotes a cached object; any other is added. The source takes the back of the tier above
        when that tier is full, and panics if it is empty as well. What it deferred is done all the
        same, so the object joins the tier above, as if there were room for one in it. */
    method PromoteObject(oi: ObjectIndex) returns (panics: bool)
      requires Valid()
      modifies this`tiers, this`lookup, lookup.Values, storage
      ensures Valid() && (old(Bounded()) && !panics ==> Bounded()) && fresh(lookup.Values - old(lookup.Values))
      ensures forall k :: k in old(Abs().list) <==> k in old(lookup)
      ensures panics <==> old(oi in lookup && Panics(oi))
      ensures oi in old(lookup) ==> Abs() == Promoted(old(Abs()), if panics then 1 else tierListSize, oi)
      ensures oi in old(lookup) ==> lookup == old(lookup) && storage.parts == old(storage.parts)
      ensures oi !in old(lookup) ==> Abs() == Added(old(Abs()), tierListSize, oi)
      ensures oi !in old(lookup) ==>
                storage.parts == old(storage.parts) - Elements(Evicted(old(Abs()), tierListSize))
    {
      hide Linked, Flat, Values, Added, Promoted, Evicted;
      RankedKeys();
      panics := false;
      if oi !in lookup {
        var err := AddObject(oi);
        return;
      }
      var lruEl := lookup[oi];
      ghost var i := PlaceOf(oi);
      if Bounded() {
        PromotedFits(Abs(), tierListSize, oi);
      }
      if lruEl.listTier == 0 {
        MoveToFront(oi, i);
      } else if |tiers[lruEl.listTier - 1]| >= tierListSize && tiers[lruEl.listTier - 1] == [] {
        panics := true;
        JoinEmpty(oi, i);
      } else {
        PromoteTier(oi, i);
      }
    }

    /** The tier above is full and has no last element. */
    ghost predicate Panics(oi: ObjectIndex)
      requires oi in lookup
      reads this`tiers, this`lookup, this`tierListSize, lookup.Values
    {
      var t := lookup[oi].listTier;
      0 < t < |tiers| && |tiers[t - 1]| >= tierListSize && tiers[t - 1] == []
    }

    /** What is deferred in PromoteObject, after a panic. */
    method JoinEmpty(oi: ObjectIndex, ghost i: nat)
      requires Valid() && oi in lookup && 0 < lookup[oi].listTier < TIERS && tiers[lookup[oi].listTier - 1] == []
      requires i < |tiers[lookup[oi].listTier]|
      requires tiers[lookup[oi].listTier][i] == lookup[oi].listElem && lookup[oi].listElem.value == oi
      requires var t := lookup[oi].listTier;
               oi in Abs().list && IndexOf(Abs().list, oi) == Begin(Abs().sizes, t) + i < |Abs().list|
               && TierAt(Abs().sizes, Begin(Abs().sizes, t) + i) == t
      modifies this`tiers, lookup.Values
      ensures Valid() && Abs() == Promoted(old(Abs()), 1, oi)
    {
      hide Linked, Values, Flat, Promoted, RemoveAt, IndexOf, Begin, TierAt;
      var t := lookup[oi].listTier;
      ghost var was := tiers;
      JoinBelow(Values(was[t - 1]), Values(was[t]), i, oi);
      Relocate(t, lookup[oi].listElem, t - 1, true, i);
      assert forall u :: 0 <= u < TIERS && u != t - 1 && u != t ==> tiers[u] == was[u];
      PromotedTiers(was, tiers, t, i, 1, oi);
    }

    /** In a cache that keeps to its limits, promoting a cached object panics exactly when the tier
        size is 0: then every cached object is in the last tier and the tier above has none. */
    lemma PanicsIffNoRoom(oi: ObjectIndex)
      requires Valid() && Bounded() && oi in lookup
      ensures Panics(oi) <==> tierListSize == 0
    {
      hide Linked, Flat;
      var i := PlaceOf(oi);
    }

    /** Where the entry of a cached object says it is. */
    lemma PlaceOf(oi: ObjectIndex) returns (i: nat)
      requires Valid() && oi in lookup
      ensures lookup[oi].listTier < TIERS && i < |tiers[lookup[oi].listTier]|
      ensures tiers[lookup[oi].listTier][i] == lookup[oi].listElem && lookup[oi].listElem.value == oi
      ensures var t := lookup[oi].listTier;
              oi in Abs().list && IndexOf(Abs().list, oi) == Begin(Abs().sizes, t) + i < |Abs().list|
              && TierAt(Abs().sizes, Begin(Abs().sizes, t) + i) == t
    {
      assert Indexed(tiers, Entries(), oi);
      var t := lookup[oi].listTier;
      i :| 0 <= i < |tiers[t]| && tiers[t][i] == lookup[oi].listElem;
      LinkedPosition(tiers, Entries(), t, i);
    }

    /** An object of the uppermost tier goes to the front of it. */
    method MoveToFront(oi: ObjectIndex, ghost i: nat)
      requires Valid() && oi in lookup && lookup[oi].listTier == 0
      requires i < |tiers[0]| && tiers[0][i] == lookup[oi].listElem && lookup[oi].listElem.value == oi
      requires oi in Abs().list && IndexOf(Abs().list, oi) == i && TierAt(Abs().sizes, i) == 0
      modifies this`tiers
      ensures Valid() && Abs() == Promoted(old(Abs()), tierListSize, oi)
    {
      hide Linked, Values, Flat;
      var e := lookup[oi].listElem;
      ghost var was, entries := tiers, Entries();
      LinkedFront(was, entries, i);
      LinkedDetach(was, entries, 0, i);
      FlatLength(was);
      FlatFront(was, i);
      if tiers[0][0] == e {
        assert i == 0;
        assert Abs().list == [oi] + RemoveAt(Abs().list, 0);
        return;
      }
      tiers := tiers[0 := [e] + Detach(tiers[0], e)];
      assert Entries() == entries;
    }

    /** An object below the uppermost tier changes places with the back of the tier above
        when that tier is full, and joins its front. */
    method PromoteTier(oi: ObjectIndex, ghost i: nat)
      requires Valid() && oi in lookup && 0 < lookup[oi].listTier < TIERS && !Panics(oi)
      requires i < |tiers[lookup[oi].listTier]|
      requires tiers[lookup[oi].listTier][i] == lookup[oi].listElem && lookup[oi].listElem.value == oi
      requires var t := lookup[oi].listTier;
               oi in Abs().list && IndexOf(Abs().list, oi) == Begin(Abs().sizes, t) + i < |Abs().list|
               && TierAt(Abs().sizes, Begin(Abs().sizes, t) + i) == t
      modifies this`tiers, lookup.Values
      ensures Valid() && Abs() == Promoted(old(Abs()), tierListSize, oi)
    {
      hide Linked, Values, Flat, Promoted, RemoveAt, IndexOf, Begin, TierAt;
      ghost var was, t := tiers, lookup[oi].listTier;
      JoinAbove(oi, lookup[oi].listTier, i);
      PromotedTiers(was, tiers, t, i, tierListSize, oi);
    }

    /** What the swap and the move do to the two tiers. */
    method JoinAbove(oi: ObjectIndex, t: nat, ghost i: nat)
      requires Valid() && oi in lookup && lookup[oi].listTier == t && 0 < t < TIERS && !Panics(oi)
      requires i < |tiers[t]| && tiers[t][i].value == oi
      modifies this`tiers, lookup.Values
      ensures Valid()
      ensures forall u :: 0 <= u < TIERS && u != t - 1 && u != t ==> tiers[u] == old(tiers[u])
      ensures Values(tiers[t - 1]) + Values(tiers[t])
              == [oi] + RemoveAt(old(Values(tiers[t - 1]) + Values(tiers[t])), old(|tiers[t - 1]|) + i)
      ensures |tiers[t - 1]| == old(if |tiers[t - 1]| < tierListSize then |tiers[t - 1]| + 1 else |tiers[t - 1]|)
    {
      hide Linked, Values, Flat, RemoveAt;
      ghost var was := tiers;
      ghost var j := MakeRoomAbove(oi, t, i);
      SwapBorder(Values(was[t - 1]), Values(was[t]), i, j > i, oi);
      Relocate(t, lookup[oi].listElem, t - 1, true, j);
    }

    /** The back of the tier above changes to the front of this one if that tier is full. */
    method MakeRoomAbove(oi: ObjectIndex, t: nat, ghost i: nat) returns (ghost j: nat)
      requires Valid() && oi in lookup && 0 < t < TIERS && (tierListSize > 0 || tiers[t - 1] != [])
      requires i < |tiers[t]| && tiers[t][i].value == oi
      modifies this`tiers, lookup.Values
      ensures Valid() && lookup[oi].listTier == t
      ensures j < |tiers[t]| && tiers[t][j] == lookup[oi].listElem && lookup[oi].listElem.value == oi
      ensures forall u :: 0 <= u < TIERS && u != t - 1 && u != t ==> tiers[u] == old(tiers[u])
      ensures var upper, lower := old(Values(tiers[t - 1])), old(Values(tiers[t]));
              if |upper| < tierListSize then
                j == i && tiers == old(tiers)
              else
                && j == i + 1
                && Values(tiers[t - 1]) == RemoveAt(upper, |upper| - 1)
                && Values(tiers[t]) == [upper[|upper| - 1]] + lower
    {
      hide Linked, Values;
      j := i;
      ghost var was := tiers;
      ValuesAt(was[t], i);
      if |tiers[t - 1]| >= tierListSize {
        var back := tiers[t - 1][|tiers[t - 1]| - 1];
        Relocate(t - 1, back, t, true, |tiers[t - 1]| - 1);
        ValuesAt(was[t - 1], |was[t - 1]| - 1);
        j := j + 1;
      }
      ValuesAt(tiers[t], j);
      OwnedAt(tiers, Entries(), t, j);
    }

    /** Removes the given objects from the index. */
    method Remove(ois: seq<ObjectIndex>)
      requires Valid() && Bounded()
      modifies this`tiers, this`lookup
      ensures Valid() && Bounded() && lookup == old(lookup) - Elements(ois)
      ensures Abs() == RemovedAll(old(Abs()), ois)
    {
      hide Linked, Flat;
      RemovedAllFits(Abs(), ois, tierListSize);
      for n := 0 to |ois|
        invariant Valid() && lookup == old(lookup) - Elements(ois[..n])
        invariant Abs() == RemovedAll(old(Abs()), ois[..n])
      {
        assert ois[..n + 1][..n] == ois[..n];
        assert Elements(ois[..n + 1]) == Elements(ois[..n]) + {ois[n]};
        RemoveOne(ois[n]);
      }
      assert ois[..|ois|] == ois;
    }

    method RemoveOne(oi: ObjectIndex)
      requires Valid()
      modifies this`tiers, this`lookup
      ensures Valid() && lookup == old(lookup) - {oi}
      ensures Abs() == Removed(old(Abs()), oi)
    {
      hide Linked, Flat;
      RankedKeys();
      if oi in lookup {
        var el := lookup[oi];
        ghost var i := PlaceOf(oi);
        FlatRemove(tiers, el.listTier, i);
        Drop(el.listTier, el.listElem, i);
      }
    }

    /** Takes up to remove elements off the back of tier t and puts their values in the
        slice of removed that starts at from. */
    method RemoveFromList(t: nat, remove: nat, removed: array<Option<ObjectIndex>>, from: nat) returns (i: nat)
      requires |tiers| == TIERS && t < TIERS && from + remove <= removed.Length
      modifies this`tiers, removed
      ensures i == Min(remove, |old(tiers[t])|)
      ensures tiers == old(tiers)[t := old(tiers[t][..|tiers[t]| - Min(remove, |tiers[t]|)])]
      ensures forall p :: from <= p < from + i ==>
                removed[p] == Some(old(tiers[t])[old(|tiers[t]|) - 1 - (p - from)].value)
      ensures forall p :: 0 <= p < removed.Length && !(from <= p < from + i) ==> removed[p] == old(removed[p])
    {
      ghost var l := tiers[t];
      i := 0;
      assert l[..|l| - i] == l;
      while remove > i && tiers[t] != []
        invariant i <= remove && i <= |l|
        invariant |tiers| == TIERS && tiers == old(tiers)[t := l[..|l| - i]]
        invariant forall p :: from <= p < from + i ==> removed[p] == Some(l[|l| - 1 - (p - from)].value)
        invariant forall p :: 0 <= p < removed.Length && !(from <= p < from + i) ==> removed[p] == old(removed[p])
        decreases remove - i
      {
        var e := tiers[t][|tiers[t]| - 1];
        tiers := tiers[t := tiers[t][..|tiers[t]| - 1]];
        removed[from + i] := Some(e.value);
        assert l[..|l| - i][..|l| - i - 1] == l[..|l| - (i + 1)];
        i := i + 1;
      }
    }

    /** Takes the given number of objects off the back of the ranked list, or all there are. Every
        slot of the result is filled exactly when no more are asked for than there are. */
    method ResizeDown(remove: int) returns (result: array<Option<ObjectIndex>>)
      requires |tiers| == TIERS
      modifies this`tiers
      ensures |tiers| == TIERS && fresh(result) && result.Length == Max(remove, 0)
      ensures forall j :: 0 <= j < result.Length ==>
                result[j] == if j < |old(Abs().list)| then Some(old(Abs().list)[|old(Abs().list)| - 1 - j]) else None
      ensures CutTo(old(tiers), tiers, Max(|old(Abs().list)| - result.Length, 0))
    {
      hide Flat, CutTo;
      ghost var was, flat := tiers, Abs().list;
      CutNothing(was);
      if 0 >= remove {
        result := new Option<ObjectIndex>[0];
        return;
      }
      result := new Option<ObjectIndex>[remove](_ => None);
      var removed := 0;
      var i := TIERS - 1;
      while i >= 0 && remove != removed
        invariant -1 <= i < TIERS && 0 <= removed <= remove && |tiers| == TIERS && fresh(result)
        invariant removed <= |flat| && CutTo(was, tiers, |flat| - removed)
        invariant removed < remove ==> forall u :: i < u < TIERS ==> tiers[u] == []
        invariant forall j :: 0 <= j < removed ==> result[j] == Some(flat[|flat| - 1 - j])
        invariant forall j :: removed <= j < result.Length ==> result[j] == None
      {
        ghost var mid := tiers;
        CutBack(was, mid, |flat| - removed, i);
        var k := RemoveFromList(i, remove - removed, result, removed);
        CutMore(was, mid, |flat| - removed, i, |mid[i]| - k);
        removed := removed + k;
        i := i - 1;
      }
      if removed < remove {
        CutAll(was, tiers, |flat| - removed);
      }
    }

    /** delete(tc.lookup, oi.Hash()) for every object given. */
    method Forget(ois: seq<ObjectIndex>)
      modifies this`lookup
      ensures lookup == old(lookup) - Elements(ois)
      ensures Entries() == old(Entries()) - Elements(ois)
    {
      for n := 0 to |ois|
        invariant lookup == old(lookup) - Elements(ois[..n])
      {
        assert Elements(ois[..n + 1]) == Elements(ois[..n]) + {ois[n]};
        lookup := lookup - {ois[n]};
      }
      assert ois[..|ois|] == ois;
    }

    /** The first step of a shrinking resize, and the objects it drops. */
    method DropExcess(remove: int) returns (oids: seq<ObjectIndex>)
      requires Valid() && remove <= |Abs().list|
      modifies this`tiers, this`lookup
      ensures Valid() && lookup.Values <= old(lookup.Values)
      ensures oids == Backwards(old(Abs().list), Max(remove, 0))
      ensures CutTo(old(tiers), tiers, |old(Abs().list)| - Max(remove, 0))
    {
      hide Linked, CutTo, Flat;
      ghost var was, entries := tiers, Entries();
      var slots := ResizeDown(remove);
      ghost var now := tiers;
      oids := [];
      while |oids| < slots.Length
        invariant |oids| <= slots.Length && slots.Length == Max(remove, 0)
        invariant tiers == now
        invariant forall j :: 0 <= j < |oids| ==> oids[j] == Flat(was)[|Flat(was)| - 1 - j]
      {
        oids := oids + [slots[|oids|].value];
      }
      LinkedCut(was, tiers, entries, |Flat(was)| - slots.Length);
      assert oids == Backwards(Flat(was), slots.Length);
      Forget(oids);
      assert Entries() == entries - Elements(oids);
    }

    /** Moves the back element of tier i to the front of the tier below. */
    method MoveBackDown(i: nat)
      requires Valid() && i + 1 < TIERS && tiers[i] != []
      modifies this`tiers, lookup.Values
      ensures Valid()
      ensures Abs().list == old(Abs().list)
      ensures Abs().sizes == old(Abs().sizes[i := |tiers[i]| - 1][i + 1 := |tiers[i + 1]| + 1])
    {
      hide Linked, Flat, Values;
      ghost var was := tiers;
      var back := tiers[i][|tiers[i]| - 1];
      Relocate(i, back, i + 1, true, |tiers[i]| - 1);
      ValuesAt(was[i], |was[i]| - 1);
      assert RemoveAt(Values(was[i]), |was[i]| - 1) + [back.value] == Values(was[i]);
      assert Values(tiers[i]) + Values(tiers[i + 1]) == Values(was[i]) + Values(was[i + 1]);
      FlatPair(was, tiers, i);
    }

    /** Elements of tier i that exceed the new size move to the front of the tier below. */
    method SpillTier(i: nat, newSize: nat, ghost cut: seq<nat>)
      requires Valid() && i + 1 < TIERS && |cut| == TIERS && Spilled(cut, Abs().sizes, newSize, i)
      modifies this`tiers, lookup.Values
      ensures Valid() && Abs().list == old(Abs().list) && Spilled(cut, Abs().sizes, newSize, i + 1)
    {
      hide Linked, Flat, Values, Spilled;
      ghost var start := Abs().sizes;
      ghost var m := 0;
      SpillMore(cut, start, newSize, i);
      while |tiers[i]| > newSize
        invariant Valid() && Abs().list == old(Abs().list) && lookup == old(lookup)
        invariant m <= Max(start[i] - newSize, 0) && Abs().sizes == SpillSizes(start, i, m)
        decreases |tiers[i]|
      {
        assert |tiers[i]| == Abs().sizes[i] && |tiers[i + 1]| == Abs().sizes[i + 1];
        MoveBackDown(i);
        m := m + 1;
        assert |tiers[i]| == Abs().sizes[i];
      }
      assert |tiers[i]| == Abs().sizes[i];
    }

    /** The last step of a shrinking resize, and the objects it drops. */
    method TrimLast(newSize: nat) returns (oids: seq<ObjectIndex>)
      requires Valid()
      modifies this`tiers, this`lookup
      ensures Valid() && lookup.Values <= old(lookup.Values)
      ensures |oids| == Max(old(|tiers[3]|) - newSize, 0) <= |old(Abs().list)|
      ensures oids == Backwards(old(Abs().list), |oids|)
      ensures CutTo(old(tiers), tiers, |old(Abs().list)| - |oids|)
    {
      hide Linked, CutTo, Flat;
      ghost var was, entries, flat := tiers, Entries(), Abs().list;
      CutNothing(was);
      oids := [];
      while |tiers[3]| > newSize
        invariant |tiers| == TIERS && tiers[..3] == was[..3] && |tiers[3]| + |oids| == |was[3]| && |oids| <= |flat|
        invariant |oids| <= Max(|was[3]| - newSize, 0) && lookup == old(lookup)
        invariant CutTo(was, tiers, |flat| - |oids|) && oids == Backwards(flat, |oids|)
        decreases |tiers[3]|
      {
        ghost var mid := tiers;
        var back := tiers[3][|tiers[3]| - 1];
        CutBack(was, mid, |flat| - |oids|, 3);
        CutMore(was, mid, |flat| - |oids|, 3, |mid[3]| - 1);
        tiers := tiers[3 := tiers[3][..|tiers[3]| - 1]];
        oids := oids + [back.value];
      }
      LinkedCut(was, tiers, entries, |flat| - |oids|);
      Forget(oids);
      assert Entries() == entries - Elements(oids);
    }

    /** Changes the number of objects the cache may hold. A goroutine is started for the
        objects that no longer fit. A new size of more than 2^63 beyond the number of objects
        does not survive the conversion of the difference to a signed integer: see
        ConversionHolds. */
    method Resize()
      requires Valid() && Bounded() && storageObjects < UINT64 && 4 * tierListSize < UINT64
      requires tierListSize > storageObjects / 4 ==> storageObjects <= |Abs().list| + UINT64 / 2
      modifies this`tiers, this`lookup, this`tierListSize, this`spawned, lookup.Values
      ensures Valid() && Bounded() && tierListSize == storageObjects / 4
      ensures lookup.Values <= old(lookup.Values)
      ensures Abs() == Resized(old(Abs()), old(tierListSize), storageObjects / 4)
      ensures spawned == old(spawned) + if old(tierListSize) > storageObjects / 4
                                        then [Dropped(old(Abs()), storageObjects / 4)]
                                        else []
    {
      hide Linked, Flat;
      var newtierListSize := storageObjects / 4;
      if tierListSize > newtierListSize {
        ShrunkFits(Abs(), newtierListSize);
        Shrink(newtierListSize);
      } else {
        FitsMore(Sizes(tiers), tierListSize, newtierListSize);
      }
      tierListSize := newtierListSize;
    }

    method Shrink(newSize: nat)
      requires Valid() && Bounded() && newSize == storageObjects / 4 < tierListSize
      requires storageObjects < UINT64 && 4 * tierListSize < UINT64 && storageObjects <= |Abs().list| + UINT64 / 2
      modifies this`tiers, this`lookup, this`spawned, lookup.Values
      ensures Valid() && lookup.Values <= old(lookup.Values)
      ensures Abs() == Shrunk(old(Abs()), newSize)
      ensures spawned == old(spawned) + [Dropped(old(Abs()), newSize)]
    {
      hide Linked, Flat, CutTo, Spilled, Fits, Begin, ToInt64, Shrunk, Dropped, Backwards;
      ghost var was := tiers;
      var objects := Stats();
      var remove := ToInt64((objects - storageObjects) % UINT64);
      BoundedCount(Sizes(tiers), tierListSize);
      ConversionHolds(objects, storageObjects);
      var oids := DropExcess(remove);
      ghost var cut := tiers;
      SpillAll(newSize);
      ghost var spilled := tiers;
      var additionalOids := TrimLast(newSize);
      spawned := spawned + [oids + additionalOids];
      ShrunkOids(was, cut, spilled, tiers, objects - Max(remove, 0), newSize, oids, additionalOids);
    }

    method SpillAll(newSize: nat)
      requires Valid()
      modifies this`tiers, lookup.Values
      ensures Valid() && Abs().list == old(Abs().list) && Spilled(old(Abs().sizes), Abs().sizes, newSize, 3)
    {
      hide Linked, Flat;
      var i := 0;
      while i < TIERS - 1
        invariant 0 <= i < TIERS && Valid() && lookup == old(lookup)
        invariant Abs().list == old(Abs().list) && Spilled(old(Abs().sizes), Abs().sizes, newSize, i)
      {
        SpillTier(i, newSize, old(Abs().sizes));
        i := i + 1;
      }
    }

    /** Changes the limits of the cache and fits it to them at once. */
    method ChangeConfig(bulkRemoveCount: nat, newsize: nat)
      requires Valid() && Bounded() && newsize < UINT64 && 4 * tierListSize < UINT64
      requires tierListSize > newsize / 4 ==> newsize <= |Abs().list| + UINT64 / 2
      modifies this`tiers, this`lookup, this`tierListSize, this`storageObjects, this`bulkRemoveCount,
               this`spawned, lookup.Values
      ensures Valid() && Bounded() && lookup.Values <= old(lookup.Values)
      ensures storageObjects == newsize && this.bulkRemoveCount == bulkRemoveCount
      ensures tierListSize == newsize / 4
      ensures Abs() == Resized(old(Abs()), old(tierListSize), newsize / 4)
      ensures spawned == old(spawned) + if old(tierListSize) > newsize / 4
                                        then [Dropped(old(Abs()), newsize / 4)]
                                        else []
    {
      storageObjects := newsize;
      this.bulkRemoveCount := bulkRemoveCount;
      Resize();
    }

    /** Discards the given parts, except those that are in the cache by now. */
    method RemoveIfMissing(ois: seq<ObjectIndex>)
      modifies storage
      ensures storage.parts == old(storage.parts) - (Elements(ois) - lookup.Keys)
    {
      for n := 0 to |ois|
        invariant storage.parts == old(storage.parts) - (Elements(ois[..n]) - lookup.Keys)
      {
        assert Elements(ois[..n + 1]) == Elements(ois[..n]) + {ois[n]};
        if ois[n] !in lookup {
          var err := storage.DiscardPart(ois[n]);
        }
      }
      assert ois[..|ois|] == ois;
    }

    /** The background removal, when nothing else runs between its batches. A count of 0
        would never get past the first batch. */
    method ThrottledRemove(indexes: seq<ObjectIndex>)
      requires bulkRemoveCount > 0
      modifies storage
      ensures storage.parts == old(storage.parts) - (Elements(indexes) - lookup.Keys)
    {
      var i, n := 0, |indexes|;
      while n > i
        invariant 0 <= i
        invariant storage.parts == old(storage.parts) - (Elements(indexes[..Min(i, n)]) - lookup.Keys)
      {
        var end := Min(i + bulkRemoveCount, n);
        assert indexes[..end] == indexes[..i] + indexes[i..end];
        RemoveIfMissing(indexes[i..end]);
        i := i + bulkRemoveCount;
      }
      assert indexes[..n] == indexes;
    }

    /** How many objects there are. */
    method Stats() returns (allObjects: nat)
      requires |tiers| == TIERS
      ensures allObjects == |Abs().list|
    {
      FlatLength(tiers);
      allObjects := 0;
      for i := 0 to TIERS
        invariant allObjects == Begin(Sizes(tiers), i)
      {
        allObjects := allObjects + |tiers[i]|;
      }
    }
  }

  /** The number of objects that a shrink to size is to remove, converted from the unsigned difference,
      is within what there is exactly when the size is not more than 2^63 beyond the number of objects.
      It is then the excess, or not positive; with 2^63 objects and more it may be negative although
      there is an excess. Otherwise it is more than all of them, and ResizeDown empties the cache and
      leaves slots unfilled. */
  lemma ConversionHolds(objects: nat, size: nat)
    requires objects < UINT64 && size < UINT64
    ensures ToInt64((objects - size) % UINT64) <= objects <==> size <= objects + UINT64 / 2
    ensures var remove := ToInt64((objects - size) % UINT64);
            size <= objects + UINT64 / 2 ==> remove == objects - size || remove < 0
    ensures objects < UINT64 / 2 && size <= objects + UINT64 / 2 ==>
              ToInt64((objects - size) % UINT64) == objects - size
  {
    if objects >= size {
      SmallMod(objects - size, UINT64);
    } else {
      SmallMod(objects - size + UINT64, UINT64);
      assert (objects - size) % UINT64 == objects - size + UINT64;
    }
  }

  /** Beyond that, whatever the cache holds: it is emptied, and slots are left unfilled. */
  method UnfilledSlots(cache: TieredLRUCache, size: nat) returns (result: array<Option<ObjectIndex>>)
    requires cache.Valid() && |cache.Abs().list| + UINT64 / 2 < size < UINT64
    modifies cache`tiers
    ensures |cache.tiers| == TIERS && cache.Abs().list == []
    ensures result.Length > |old(cache.Abs().list)|
    ensures forall j :: |old(cache.Abs().list)| <= j < result.Length ==> result[j] == None
  {
    var objects := cache.Stats();
    var remove := ToInt64((objects - size) % UINT64);
    ConversionHolds(objects, size);
    result := cache.ResizeDown(remove);
  }

  /** A cache for fewer than four objects takes one, panics when that one is promoted, and takes
      another one after that: what the panic left behind is no longer in the way. */
  method SmallCache(n: nat, x: ObjectIndex, y: ObjectIndex) returns (cache: TieredLRUCache, panics: bool)
    requires n < 4 && x != y
    ensures panics
    ensures cache.Valid() && |cache.tiers| == TIERS && cache.storageObjects == n
    ensures cache.Abs().list == [x, y] && x in cache.lookup && y in cache.lookup
  {
    hide Added, Promoted, Begin, Evicted, Fits, Linked, Flat, Values;
    EmptyFits(n);
    var storage := new Storage();
    cache := new TieredLRUCache(n, 1, storage);
    TakeLast(cache, x);
    panics := PanicAlone(cache, x);
    TakeLast(cache, y);
    BothKeys(cache, x, y);
  }

  lemma EmptyFits(size: nat)
    ensures Fits([0, 0, 0, 0], size)
  {
  }

  lemma BothKeys(cache: TieredLRUCache, x: ObjectIndex, y: ObjectIndex)
    requires cache.Valid() && cache.Abs().list == [x] + [y]
    ensures x in cache.lookup && y in cache.lookup && cache.Abs().list == [x, y]
  {
    hide Linked, Flat;
    cache.RankedKeys();
    assert x in cache.Abs().list && y in cache.Abs().list;
  }

  /** AddObject with an empty last tier and a tier size of 0. */
  method TakeLast(cache: TieredLRUCache, x: ObjectIndex)
    requires cache.Valid() && cache.tierListSize == 0 && x !in cache.Abs().list && cache.Abs().sizes[3] == 0
    modifies cache`tiers, cache`lookup, cache.lookup.Values, cache.storage
    ensures cache.Valid() && |cache.tiers| == TIERS && (old(cache.Bounded()) ==> cache.Bounded())
    ensures cache.Abs().list == old(cache.Abs().list) + [x]
    ensures cache.Abs().sizes == old(cache.Abs().sizes)[3 := 1]
    ensures fresh(cache.lookup.Values - old(cache.lookup.Values))
  {
    hide Linked, Flat, Added, Evicted, Begin, Fits;
    cache.RankedKeys();
    AddedLast(cache.Abs(), x);
    var err := cache.AddObject(x);
  }

  lemma AddedLast(c: Ranking, x: ObjectIndex)
    requires c.Shaped() && c.sizes[3] == 0 && x !in c.list
    ensures Added(c, 0, x).list == c.list + [x] && Added(c, 0, x).sizes == c.sizes[3 := 1]
  {
    hide Begin, FreeTier;
  }

  /** The promotion of the only object of a cache whose tier size is 0. */
  method PanicAlone(cache: TieredLRUCache, x: ObjectIndex) returns (panics: bool)
    requires cache.Valid() && cache.Bounded() && cache.tierListSize == 0
    requires cache.Abs().list == [x] && cache.Abs().sizes == [0, 0, 0, 1]
    modifies cache`tiers, cache`lookup, cache.lookup.Values, cache.storage
    ensures panics && cache.Valid() && |cache.tiers| == TIERS
    ensures cache.Abs().list == [x] && cache.Abs().sizes == [0, 0, 1, 0]
    ensures fresh(cache.lookup.Values - old(cache.lookup.Values))
  {
    hide Linked, Flat, Added, Promoted, Evicted, Begin, Fits;
    cache.RankedKeys();
    assert x in cache.Abs().list;
    cache.PanicsIffNoRoom(x);
    PromotedAlone(x);
    panics := cache.PromoteObject(x);
  }

  lemma PromotedAlone(x: ObjectIndex)
    ensures Ranking([x], [0, 0, 0, 1]).Shaped()
    ensures Promoted(Ranking([x], [0, 0, 0, 1]), 1, x) == Ranking([x], [0, 0, 1, 0])
  {
    var s: seq<nat> := [0, 0, 0, 1];
    assert Begin(s, 1) == Begin(s, 2) == Begin(s, 3) == 0;
    TierAtUnique(s, 3, 0);
  }

  /** The objects handed to throttledRemove are the dropped end of the ranked list. */
  lemma ShrunkOids(was: seq<List>, cut: seq<List>, spilled: seq<List>, now: seq<List>, n: nat, size: nat,
                   oids: seq<ObjectIndex>, more: seq<ObjectIndex>)
    requires |was| == |cut| == |spilled| == |now| == TIERS
    requires CutTo(was, cut, n) && (n == |Flat(was)| || TIERS * size <= n)
    requires Flat(spilled) == Flat(cut) && Spilled(Sizes(cut), Sizes(spilled), size, 3)
    requires |more| == Max(|spilled[3]| - size, 0) <= |Flat(spilled)|
    requires CutTo(spilled, now, |Flat(spilled)| - |more|)
    requires oids == Backwards(Flat(was), |Flat(was)| - n) && more == Backwards(Flat(spilled), |more|)
    ensures RankingOf(now) == Shrunk(RankingOf(was), size)
    ensures oids + more == Dropped(RankingOf(was), size)
  {
    hide Flat, Kept, Begin, Values, CutTo, Spilled, Sizes, Shrunk;
    CutList(was, cut, n);
    CutList(spilled, now, |Flat(spilled)| - |more|);
    LastTier(spilled);
    ShrinkTiers(was, cut, spilled, now, n, size);
    BackwardsSplit(Flat(was), |oids|, |more|);
  }

  /** What making room comes to in a last tier that is full. */
  lemma FreedCases(c: Ranking, size: nat)
    requires c.Shaped() && c.sizes[3] >= size
    ensures c.sizes[3] == 0 ==> Freed(c, size) == c && Elements(Evicted(c, size)) == {}
    ensures var f := FreeTier(c.sizes, size, 3);
            c.sizes[3] > 0 && f >= 0 ==>
              Freed(c, size) == Ranking(c.list, CascadedTo(c.sizes, f)) && Elements(Evicted(c, size)) == {}
    ensures c.sizes[3] > 0 && FreeTier(c.sizes, size, 3) == -1 ==>
              var n := |c.list| - 1;
              n >= 0 && Freed(c, size) == Ranking(c.list[..n], c.sizes[3 := c.sizes[3] - 1])
              && Elements(Evicted(c, size)) == {c.list[n]}
  {
    assert Begin(c.sizes, 4) == Begin(c.sizes, 3) + c.sizes[3];
  }

  /** The tier sizes once the cascade has filled tier i. */
  function CascadedTo(sizes: seq<nat>, i: nat): seq<nat>
    requires |sizes| == TIERS && i < TIERS && sizes[3] > 0
  {
    if i == 3 then sizes else sizes[3 := sizes[3] - 1][i := sizes[i] + 1]
  }
}
