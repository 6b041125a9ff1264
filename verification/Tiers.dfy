/** The four linked lists and what the lookup map says about them, as values. */
module Tiers {
  import opened ObjectIndexes
  import opened Ranked

  /** A linked list element: its identity is what Element.listElem points to. */
  class ListElement {
    const value: ObjectIndex

    constructor (value: ObjectIndex)
      ensures this.value == value
    {
      this.value := value;
    }
  }

  type List = seq<ListElement>

  /** Removes e from the list, and does nothing when e is not in it. */
  function Detach(l: List, e: ListElement): (r: List)
    ensures e !in l ==> r == l
  {
    if l == [] then l else if l[0] == e then l[1..] else [l[0]] + Detach(l[1..], e)
  }

  lemma {:induction false} DetachAt(l: List, e: ListElement, i: nat)
    requires i < |l| && l[i] == e && NoDup(l)
    ensures Detach(l, e) == RemoveAt(l, i)
  {
    if i > 0 {
      DetachAt(l[1..], e, i - 1);
      assert RemoveAt(l, i) == [l[0]] + RemoveAt(l[1..], i - 1);
    } else {
      assert RemoveAt(l, i) == l[1..];
    }
  }

  function Values(l: List): (r: seq<ObjectIndex>)
    ensures |r| == |l|
  {
    seq(|l|, i requires 0 <= i < |l| => l[i].value)
  }

  lemma ValuesRemoveAt(l: List, i: nat)
    requires i < |l|
    ensures Values(RemoveAt(l, i)) == RemoveAt(Values(l), i)
  {
  }

  lemma ValuesAt(l: List, i: nat)
    requires i < |l|
    ensures Values(l)[i] == l[i].value
  {
  }

  lemma ValuesConcat(a: List, b: List)
    ensures Values(a + b) == Values(a) + Values(b)
  {
  }

  /** The four tiers front to back as one list. */
  function Flat(tiers: seq<List>): seq<ObjectIndex>
    requires |tiers| == TIERS
  {
    Values(tiers[0]) + Values(tiers[1]) + Values(tiers[2]) + Values(tiers[3])
  }

  function Sizes(tiers: seq<List>): (s: seq<nat>)
    ensures |s| == |tiers|
  {
    seq(|tiers|, t requires 0 <= t < |tiers| => |tiers[t]|)
  }

  /** Rebuilding two neighbouring tiers from the same elements in the same order leaves
      the ranked list alone. */
  lemma FlatPair(was: seq<List>, now: seq<List>, i: nat)
    requires |was| == TIERS == |now| && i + 1 < TIERS
    requires forall t :: 0 <= t < TIERS && t != i && t != i + 1 ==> now[t] == was[t]
    requires Values(now[i]) + Values(now[i + 1]) == Values(was[i]) + Values(was[i + 1])
    ensures Flat(now) == Flat(was)
  {
    assert forall a: seq<ObjectIndex>, b, c, d :: a + b + c + d == a + (b + c) + d == a + b + (c + d);
  }

  /** What a lookup entry says: the list element and the tier of its object. */
  datatype Place = Place(elem: ListElement, tier: nat)

  /** The entry of k names the tier and the list element that hold k. */
  ghost predicate Indexed(tiers: seq<List>, entries: map<ObjectIndex, Place>, k: ObjectIndex)
    requires |tiers| == TIERS && k in entries
  {
    entries[k].tier < TIERS && entries[k].elem in tiers[entries[k].tier] && entries[k].elem.value == k
  }

  /** The object of list element e, found in tier t, has an entry that points back. */
  ghost predicate Owned(entries: map<ObjectIndex, Place>, t: nat, e: ListElement) {
    e.value in entries && entries[e.value] == Place(e, t)
  }

  /** The lookup map and the lists agree. */
  ghost predicate Linked(tiers: seq<List>, entries: map<ObjectIndex, Place>) {
    && |tiers| == TIERS
    && (forall k :: k in entries ==> Indexed(tiers, entries, k))
    && (forall t: nat, i: nat :: t < TIERS && i < |tiers[t]| ==> Owned(entries, t, tiers[t][i]))
    && (forall t: nat :: t < TIERS ==> NoDup(tiers[t]))
  }

  lemma OwnedAt(tiers: seq<List>, entries: map<ObjectIndex, Place>, t: nat, i: nat)
    requires |tiers| == TIERS && Linked(tiers, entries) && t < TIERS && i < |tiers[t]|
    ensures Owned(entries, t, tiers[t][i])
  {
  }

  lemma LinkedDetach(tiers: seq<List>, entries: map<ObjectIndex, Place>, t: nat, i: nat)
    requires |tiers| == TIERS && Linked(tiers, entries) && t < TIERS && i < |tiers[t]|
    ensures Detach(tiers[t], tiers[t][i]) == RemoveAt(tiers[t], i)
  {
    DetachAt(tiers[t], tiers[t][i], i);
  }

  /** Taking the element at (t, i) out together with its entry keeps the rest linked. */
  lemma LinkedWithout(tiers: seq<List>, entries: map<ObjectIndex, Place>, t: nat, i: nat)
    requires |tiers| == TIERS && Linked(tiers, entries) && t < TIERS && i < |tiers[t]|
    ensures Linked(tiers[t := RemoveAt(tiers[t], i)], entries - {tiers[t][i].value})
  {
    var e := tiers[t][i];
    assert Owned(entries, t, e);
    var now, left := tiers[t := RemoveAt(tiers[t], i)], entries - {e.value};
    forall u: nat, j: nat | u < TIERS && j < |now[u]| ensures Owned(left, u, now[u][j]) {
      var m := if u == t && j >= i then j + 1 else j;
      assert now[u][j] == tiers[u][m] && Owned(entries, u, tiers[u][m]);
    }
    forall k | k in left ensures Indexed(now, left, k) {
      assert Indexed(tiers, entries, k);
      var m :| 0 <= m < |tiers[left[k].tier]| && tiers[left[k].tier][m] == left[k].elem;
      assert left[k].tier == t && m != i ==> now[t][if m < i then m else m - 1] == left[k].elem;
    }
  }

  /** Putting a new element at either end of tier t, with an entry for it, keeps all linked. */
  lemma LinkedWith(tiers: seq<List>, entries: map<ObjectIndex, Place>, t: nat, e: ListElement, l: List)
    requires Linked(tiers, entries) && t < TIERS && e.value !in entries
    requires l == [e] + tiers[t] || l == tiers[t] + [e]
    ensures Linked(tiers[t := l], entries[e.value := Place(e, t)])
  {
    var now, more := tiers[t := l], entries[e.value := Place(e, t)];
    assert forall u: nat, j: nat :: u < TIERS && j < |tiers[u]| ==> tiers[u][j].value in entries by {
      forall u: nat, j: nat | u < TIERS && j < |tiers[u]| ensures tiers[u][j].value in entries {
        assert Owned(entries, u, tiers[u][j]);
      }
    }
    forall u: nat, j: nat | u < TIERS && j < |now[u]| ensures Owned(more, u, now[u][j]) {
      if now[u][j] != e {
        var m := if u == t && l == [e] + tiers[t] then j - 1 else j;
        assert now[u][j] == tiers[u][m] && Owned(entries, u, tiers[u][m]);
      }
    }
    forall k | k in more ensures Indexed(now, more, k) {
      if k != e.value { assert Indexed(tiers, entries, k); }
    }
  }

  /** The element at (t, i) is replaced by a new one at an end of tier to. */
  lemma LinkedMoved(tiers: seq<List>, entries: map<ObjectIndex, Place>, t: nat, i: nat,
                    to: nat, e: ListElement, now: seq<List>)
    requires |tiers| == TIERS && Linked(tiers, entries) && t < TIERS && i < |tiers[t]| && to < TIERS && to != t
    requires e.value == tiers[t][i].value && |now| == TIERS
    requires now == tiers[t := RemoveAt(tiers[t], i)][to := [e] + tiers[to]]
          || now == tiers[t := RemoveAt(tiers[t], i)][to := tiers[to] + [e]]
    ensures Linked(now, entries[e.value := Place(e, to)])
    ensures Values(now[t]) == RemoveAt(Values(tiers[t]), i)
    ensures now[to] == [e] + tiers[to] ==> Values(now[to]) == [e.value] + Values(tiers[to])
    ensures now[to] == tiers[to] + [e] ==> Values(now[to]) == Values(tiers[to]) + [e.value]
  {
    LinkedWithout(tiers, entries, t, i);
    var others := entries - {e.value};
    LinkedWith(tiers[t := RemoveAt(tiers[t], i)], others, to, e, now[to]);
    assert others[e.value := Place(e, to)] == entries[e.value := Place(e, to)];
    assert now == tiers[t := RemoveAt(tiers[t], i)][to := now[to]];
    ValuesRemoveAt(tiers[t], i);
    ValuesConcat([e], tiers[to]);
    ValuesConcat(tiers[to], [e]);
    assert Values([e]) == [e.value];
  }

  /** Tier t is the stretch of the ranked list that its size says. */
  lemma FlatAt(tiers: seq<List>, t: nat, i: nat)
    requires |tiers| == TIERS && t < TIERS && i < |tiers[t]|
    ensures |Flat(tiers)| == Begin(Sizes(tiers), TIERS)
    ensures Begin(Sizes(tiers), t) + i < Begin(Sizes(tiers), t + 1) <= |Flat(tiers)|
    ensures Flat(tiers)[Begin(Sizes(tiers), t) + i] == tiers[t][i].value
  {
    FlatLength(tiers);
    var v := Values(tiers[t]);
    assert v[i] == tiers[t][i].value;
  }

  lemma FlatLength(tiers: seq<List>)
    requires |tiers| == TIERS
    ensures Begin(Sizes(tiers), 0) == 0 && Begin(Sizes(tiers), 1) == |tiers[0]|
    ensures Begin(Sizes(tiers), 2) == |tiers[0]| + |tiers[1]|
    ensures Begin(Sizes(tiers), 3) == |tiers[0]| + |tiers[1]| + |tiers[2]|
    ensures Begin(Sizes(tiers), 4) == |tiers[0]| + |tiers[1]| + |tiers[2]| + |tiers[3]| == |Flat(tiers)|
  {
    assert forall t :: 0 <= t < TIERS ==> Sizes(tiers)[t] == |tiers[t]|;
  }

  /** The ranked list around two neighbouring tiers. */
  lemma FlatSplit(tiers: seq<List>, t: nat)
    requires |tiers| == TIERS && t + 1 < TIERS
    ensures Begin(Sizes(tiers), t + 1) == Begin(Sizes(tiers), t) + |tiers[t]|
    ensures Begin(Sizes(tiers), t + 2) == Begin(Sizes(tiers), t + 1) + |tiers[t + 1]| <= |Flat(tiers)|
    ensures Flat(tiers)[..Begin(Sizes(tiers), t)] == Before(tiers, t)
    ensures Flat(tiers)[Begin(Sizes(tiers), t)..Begin(Sizes(tiers), t + 1)] == Values(tiers[t])
    ensures Flat(tiers)[Begin(Sizes(tiers), t + 1)..Begin(Sizes(tiers), t + 2)] == Values(tiers[t + 1])
    ensures Flat(tiers)[Begin(Sizes(tiers), t + 2)..] == After(tiers, t + 2)
  {
    hide Values, Sizes, Begin;
    FlatLength(tiers);
    FlatQuarters(Values(tiers[0]), Values(tiers[1]), Values(tiers[2]), Values(tiers[3]));
  }

  lemma FlatQuarters(a: seq<ObjectIndex>, b: seq<ObjectIndex>, c: seq<ObjectIndex>, d: seq<ObjectIndex>)
    ensures var s, i, j, k := a + b + c + d, |a|, |a| + |b|, |a| + |b| + |c|;
            && s[..0] == [] && s[..i] == a && s[..j] == a + b
            && s[0..i] == a && s[i..j] == b && s[j..k] == c && s[k..k + |d|] == d
            && s[j..] == c + d && s[k..] == d && s[k + |d|..] == []
  {
  }

  /** When the tiers below t are empty, the back of tier t is the back of the ranked list. */
  lemma FlatTruncate(was: seq<List>, t: nat, m: nat)
    requires |was| == TIERS && t < TIERS && m <= |was[t]|
    requires forall u :: t < u < TIERS ==> was[u] == []
    ensures |Flat(was)| >= |was[t]|
    ensures Flat(was[t := was[t][..m]]) == Flat(was)[..|Flat(was)| - |was[t]| + m]
    ensures Flat(was)[|Flat(was)| - |was[t]|..] == Values(was[t])
  {
    FlatLength(was);
    assert Values(was[t][..m]) == Values(was[t])[..m];
  }

  /** A new element at the front of the last tier. */
  lemma FlatPushLast(was: seq<List>, e: ListElement)
    requires |was| == TIERS
    ensures |Flat(was)| >= |was[3]|
    ensures Flat(was[3 := [e] + was[3]]) == InsertAt(Flat(was), |Flat(was)| - |was[3]|, e.value)
  {
    FlatLength(was);
    ValuesConcat([e], was[3]);
    assert Values([e]) == [e.value];
  }

  function Before(tiers: seq<List>, t: nat): seq<ObjectIndex>
    requires |tiers| == TIERS && t + 1 < TIERS
  {
    if t == 0 then [] else if t == 1 then Values(tiers[0]) else Values(tiers[0]) + Values(tiers[1])
  }

  function After(tiers: seq<List>, t: nat): seq<ObjectIndex>
    requires |tiers| == TIERS && 2 <= t <= TIERS
  {
    if t == 4 then [] else if t == 3 then Values(tiers[3]) else Values(tiers[2]) + Values(tiers[3])
  }

  /** Every position of the ranked list is some element of some tier. */
  lemma Locate(tiers: seq<List>, p: nat) returns (t: nat, i: nat)
    requires |tiers| == TIERS && p < |Flat(tiers)|
    ensures |Flat(tiers)| == Begin(Sizes(tiers), TIERS)
    ensures t < TIERS && i < |tiers[t]| && p == Begin(Sizes(tiers), t) + i
    ensures Flat(tiers)[p] == tiers[t][i].value && t == TierAt(Sizes(tiers), p)
  {
    FlatLength(tiers);
    t := TierAt(Sizes(tiers), p);
    assert Begin(Sizes(tiers), t + 1) == Begin(Sizes(tiers), t) + Sizes(tiers)[t];
    i := p - Begin(Sizes(tiers), t);
    FlatAt(tiers, t, i);
  }

  /** Linked lists and lookup map: no object is ranked twice, and the ranked objects are
      exactly the keys of the map. */
  lemma LinkedRanking(tiers: seq<List>, entries: map<ObjectIndex, Place>)
    requires |tiers| == TIERS && Linked(tiers, entries)
    ensures Ranking(Flat(tiers), Sizes(tiers)).Valid()
    ensures Elements(Flat(tiers)) == entries.Keys
  {
    FlatLength(tiers);
    var flat := Flat(tiers);
    forall p, q | 0 <= p < q < |flat| ensures flat[p] != flat[q] {
      var t, i := Locate(tiers, p);
      var u, j := Locate(tiers, q);
      assert Owned(entries, t, tiers[t][i]) && Owned(entries, u, tiers[u][j]);
    }
    forall k | k in flat ensures k in entries {
      var p :| 0 <= p < |flat| && flat[p] == k;
      var t, i := Locate(tiers, p);
      assert Owned(entries, t, tiers[t][i]);
    }
    forall k | k in entries ensures k in flat {
      assert Indexed(tiers, entries, k);
      var i :| 0 <= i < |tiers[entries[k].tier]| && tiers[entries[k].tier][i] == entries[k].elem;
      FlatAt(tiers, entries[k].tier, i);
    }
  }

  /** An element's place in its tier is its place in the ranked list. */
  lemma LinkedPosition(tiers: seq<List>, entries: map<ObjectIndex, Place>, t: nat, i: nat)
    requires |tiers| == TIERS && Linked(tiers, entries) && t < TIERS && i < |tiers[t]|
    ensures tiers[t][i].value in Flat(tiers)
    ensures IndexOf(Flat(tiers), tiers[t][i].value) == Begin(Sizes(tiers), t) + i < |Flat(tiers)|
    ensures |Flat(tiers)| == Begin(Sizes(tiers), TIERS)
    ensures TierAt(Sizes(tiers), Begin(Sizes(tiers), t) + i) == t
  {
    LinkedRanking(tiers, entries);
    FlatAt(tiers, t, i);
    TierAtUnique(Sizes(tiers), t, Begin(Sizes(tiers), t) + i);
  }

  /** Position j of the two tiers from t on goes to the front of tier t; the others keep
      their order, whether or not one of them crossed the border between the two tiers. */
  lemma FlatPromote(was: seq<List>, now: seq<List>, t: nat, j: nat, x: ObjectIndex)
    requires |was| == TIERS == |now| && t + 1 < TIERS
    requires forall u :: 0 <= u < TIERS && u != t && u != t + 1 ==> now[u] == was[u]
    requires j < |was[t]| + |was[t + 1]|
    requires Values(now[t]) + Values(now[t + 1]) == [x] + RemoveAt(Values(was[t]) + Values(was[t + 1]), j)
    ensures Begin(Sizes(was), t) + j < |Flat(was)|
    ensures Flat(now) == InsertAt(RemoveAt(Flat(was), Begin(Sizes(was), t) + j), Begin(Sizes(was), t), x)
  {
    hide Flat, Values, Before, After, Begin;
    SameAround(was, now, t);
    FlatSplit(was, t);
    FlatAround(was, t);
    FlatAround(now, t);
    MoveToBorder(Before(was, t), Values(was[t]) + Values(was[t + 1]), After(was, t + 2), j, x);
  }

  lemma SameAround(was: seq<List>, now: seq<List>, t: nat)
    requires |was| == TIERS == |now| && t + 1 < TIERS
    requires forall u :: 0 <= u < TIERS && u != t && u != t + 1 ==> now[u] == was[u]
    ensures Before(now, t) == Before(was, t) && After(now, t + 2) == After(was, t + 2)
  {
  }

  lemma FlatAround(tiers: seq<List>, t: nat)
    requires |tiers| == TIERS && t + 1 < TIERS
    ensures Flat(tiers) == Before(tiers, t) + (Values(tiers[t]) + Values(tiers[t + 1])) + After(tiers, t + 2)
  {
    FlatPair(tiers, tiers, t);
    assert forall a: seq<ObjectIndex>, b, c, d :: a + b + c + d == a + (b + c) + d == a + b + (c + d);
  }

  lemma MoveToBorder(p: seq<ObjectIndex>, s: seq<ObjectIndex>, q: seq<ObjectIndex>, j: nat, x: ObjectIndex)
    requires j < |s|
    ensures InsertAt(RemoveAt(p + s + q, |p| + j), |p|, x) == p + ([x] + RemoveAt(s, j)) + q
  {
    assert RemoveAt(p + s + q, |p| + j) == p + (RemoveAt(s, j) + q);
  }

  /** list.MoveToFront in the first tier. */
  lemma LinkedFront(tiers: seq<List>, entries: map<ObjectIndex, Place>, i: nat)
    requires |tiers| == TIERS && Linked(tiers, entries) && i < |tiers[0]|
    ensures tiers[0][0] == tiers[0][i] ==> i == 0
    ensures Linked(tiers[0 := [tiers[0][i]] + RemoveAt(tiers[0], i)], entries)
  {
    assert NoDup(tiers[0]);
    OwnedAt(tiers, entries, 0, i);
    hide Linked;
    var e := tiers[0][i];
    LinkedWithout(tiers, entries, 0, i);
    var others := entries - {e.value};
    LinkedWith(tiers[0 := RemoveAt(tiers[0], i)], others, 0, e, [e] + RemoveAt(tiers[0], i));
    assert others[e.value := Place(e, 0)] == entries;
    assert tiers[0 := RemoveAt(tiers[0], i)][0 := [e] + RemoveAt(tiers[0], i)]
           == tiers[0 := [e] + RemoveAt(tiers[0], i)];
  }

  lemma FlatFront(tiers: seq<List>, i: nat)
    requires |tiers| == TIERS && i < |tiers[0]| <= |Flat(tiers)|
    ensures var now := tiers[0 := [tiers[0][i]] + RemoveAt(tiers[0], i)];
            Sizes(now) == Sizes(tiers) && Flat(now) == [tiers[0][i].value] + RemoveAt(Flat(tiers), i)
  {
    var e := tiers[0][i];
    var now := tiers[0 := [e] + RemoveAt(tiers[0], i)];
    assert Values([e]) == [e.value];
    ValuesConcat([e], RemoveAt(tiers[0], i));
    ValuesRemoveAt(tiers[0], i);
    FlatLength(tiers);
    hide Values, Begin;
    var rest := Values(tiers[1]) + Values(tiers[2]) + Values(tiers[3]);
    assert Flat(tiers) == Values(tiers[0]) + rest;
    assert Flat(now) == Values(now[0]) + rest;
    RemoveAtConcat(Values(tiers[0]), rest, i);
  }

  lemma RemoveAtConcat<T>(a: seq<T>, b: seq<T>, i: nat)
    requires i < |a|
    ensures RemoveAt(a + b, i) == RemoveAt(a, i) + b
  {
  }

  /** Swapping the back of a full upper tier down does not change the order of the two. */
  lemma SwapBorder(upper: seq<ObjectIndex>, lower: seq<ObjectIndex>, i: nat, full: bool, oi: ObjectIndex)
    requires i < |lower| && (full ==> upper != [])
    ensures full ==>
              ([oi] + RemoveAt(upper, |upper| - 1)) + RemoveAt([upper[|upper| - 1]] + lower, i + 1)
              == [oi] + RemoveAt(upper + lower, |upper| + i)
    ensures ([oi] + upper) + RemoveAt(lower, i) == [oi] + RemoveAt(upper + lower, |upper| + i)
  {
  }

  lemma FrontUp(upper: seq<ObjectIndex>, lower: seq<ObjectIndex>, x: ObjectIndex)
    requires lower != [] && lower[0] == x
    ensures (upper + [x]) + RemoveAt(lower, 0) == upper + lower
  {
  }

  lemma JoinBelow(upper: seq<ObjectIndex>, lower: seq<ObjectIndex>, i: nat, oi: ObjectIndex)
    requires upper == [] && i < |lower|
    ensures [oi] + upper + RemoveAt(lower, i) == [oi] + RemoveAt(upper + lower, |upper| + i)
  {
    assert upper + lower == lower;
  }

  /** What the two tiers hold after a promotion is the promotion in the ranked list. */
  lemma PromotedTiers(was: seq<List>, now: seq<List>, t: nat, i: nat, size: nat, oi: ObjectIndex)
    requires |was| == TIERS == |now| && 0 < t < TIERS && i < |was[t]|
    requires forall u :: 0 <= u < TIERS && u != t - 1 && u != t ==> now[u] == was[u]
    requires Values(now[t - 1]) + Values(now[t])
             == [oi] + RemoveAt(Values(was[t - 1]) + Values(was[t]), |was[t - 1]| + i)
    requires |now[t - 1]| == if |was[t - 1]| < size then |was[t - 1]| + 1 else |was[t - 1]|
    requires Ranking(Flat(was), Sizes(was)).Shaped()
    requires oi in Flat(was) && IndexOf(Flat(was), oi) == Begin(Sizes(was), t) + i
    requires TierAt(Sizes(was), IndexOf(Flat(was), oi)) == t
    ensures Ranking(Flat(now), Sizes(now)) == Promoted(Ranking(Flat(was), Sizes(was)), size, oi)
  {
    hide Flat, Values, RemoveAt, InsertAt, IndexOf, TierAt, Begin, FreeTier;
    assert |Values(now[t - 1]) + Values(now[t])| == |was[t - 1]| + |was[t]|;
    PromotedSizes(was, now, t, size);
    PromotedList(was, now, t, i, oi);
  }

  lemma BeginNext(tiers: seq<List>, t: nat)
    requires |tiers| == TIERS && 0 < t < TIERS
    ensures Begin(Sizes(tiers), t) == Begin(Sizes(tiers), t - 1) + |tiers[t - 1]|
  {
  }

  lemma PromotedList(was: seq<List>, now: seq<List>, t: nat, i: nat, oi: ObjectIndex)
    requires |was| == TIERS == |now| && 0 < t < TIERS && i < |was[t]|
    requires forall u :: 0 <= u < TIERS && u != t - 1 && u != t ==> now[u] == was[u]
    requires Values(now[t - 1]) + Values(now[t])
             == [oi] + RemoveAt(Values(was[t - 1]) + Values(was[t]), |was[t - 1]| + i)
    ensures Begin(Sizes(was), t) + i < |Flat(was)|
    ensures Begin(Sizes(was), t - 1) <= Begin(Sizes(was), t)
    ensures Flat(now) == InsertAt(RemoveAt(Flat(was), Begin(Sizes(was), t) + i), Begin(Sizes(was), t - 1), oi)
  {
    BeginNext(was, t);
    hide Flat, Values, Sizes, RemoveAt, InsertAt, Begin;
    FlatPromote(was, now, t - 1, |was[t - 1]| + i, oi);
    assert Begin(Sizes(was), t - 1) + (|was[t - 1]| + i) == Begin(Sizes(was), t) + i;
  }

  lemma PromotedSizes(was: seq<List>, now: seq<List>, t: nat, size: nat)
    requires |was| == TIERS == |now| && 0 < t < TIERS && was[t] != []
    requires forall u :: 0 <= u < TIERS && u != t - 1 && u != t ==> now[u] == was[u]
    requires |Values(now[t - 1])| + |Values(now[t])| == |was[t - 1]| + |was[t]|
    requires |now[t - 1]| == if |was[t - 1]| < size then |was[t - 1]| + 1 else |was[t - 1]|
    ensures Sizes(now) == if |was[t - 1]| < size
                          then Sizes(was)[t - 1 := |was[t - 1]| + 1][t := |was[t]| - 1]
                          else Sizes(was)
  {
    hide Values;
  }

  /** Taking position j out of two neighbouring tiers takes it out of the ranked list. */
  lemma FlatRemovePair(was: seq<List>, now: seq<List>, t: nat, j: nat)
    requires |was| == TIERS == |now| && t + 1 < TIERS
    requires forall u :: 0 <= u < TIERS && u != t && u != t + 1 ==> now[u] == was[u]
    requires j < |was[t]| + |was[t + 1]|
    requires Values(now[t]) + Values(now[t + 1]) == RemoveAt(Values(was[t]) + Values(was[t + 1]), j)
    ensures Begin(Sizes(was), t) + j < |Flat(was)|
    ensures Flat(now) == RemoveAt(Flat(was), Begin(Sizes(was), t) + j)
  {
    hide Flat, Values, Before, After, Begin;
    SameAround(was, now, t);
    FlatSplit(was, t);
    FlatAround(was, t);
    FlatAround(now, t);
    RemoveInside(Before(was, t), Values(was[t]) + Values(was[t + 1]), After(was, t + 2), j);
  }

  lemma RemoveInside(p: seq<ObjectIndex>, s: seq<ObjectIndex>, q: seq<ObjectIndex>, j: nat)
    requires j < |s|
    ensures RemoveAt(p + s + q, |p| + j) == p + RemoveAt(s, j) + q
  {
  }

  lemma RemoveAtTail<T>(a: seq<T>, b: seq<T>, i: nat)
    requires i < |b|
    ensures RemoveAt(a + b, |a| + i) == a + RemoveAt(b, i)
  {
  }

  lemma FlatRemove(was: seq<List>, t: nat, i: nat)
    requires |was| == TIERS && t < TIERS && i < |was[t]|
    ensures Begin(Sizes(was), t) + i < |Flat(was)|
    ensures Flat(was[t := RemoveAt(was[t], i)]) == RemoveAt(Flat(was), Begin(Sizes(was), t) + i)
    ensures Sizes(was[t := RemoveAt(was[t], i)]) == Sizes(was)[t := |was[t]| - 1]
  {
    hide Flat, Values, Begin, RemoveAt;
    var now := was[t := RemoveAt(was[t], i)];
    ValuesRemoveAt(was[t], i);
    if t < 3 {
      RemoveAtConcat(Values(was[t]), Values(was[t + 1]), i);
      FlatRemovePair(was, now, t, i);
    } else {
      BeginNext(was, 3);
      RemoveAtTail(Values(was[2]), Values(was[3]), i);
      FlatRemovePair(was, now, 2, |was[2]| + i);
    }
  }

  /** Lists cut short at the back stay linked to the entries of what is left in them. */
  lemma LinkedTruncated(was: seq<List>, now: seq<List>, entries: map<ObjectIndex, Place>, gone: set<ObjectIndex>)
    requires |was| == TIERS == |now| && Linked(was, entries)
    requires forall t :: 0 <= t < TIERS ==> now[t] <= was[t]
    requires forall t: nat, i: nat :: t < TIERS && i < |was[t]| ==>
               (was[t][i].value in gone <==> i >= |now[t]|)
    ensures Linked(now, entries - gone)
  {
    var left := entries - gone;
    forall t: nat, i: nat | t < TIERS && i < |now[t]| ensures Owned(left, t, now[t][i]) {
      assert now[t][i] == was[t][i] && Owned(entries, t, was[t][i]);
    }
    forall k | k in left ensures Indexed(now, left, k) {
      assert Indexed(was, entries, k);
      var i :| 0 <= i < |was[left[k].tier]| && was[left[k].tier][i] == left[k].elem;
      assert now[left[k].tier][i] == was[left[k].tier][i];
    }
    forall t: nat | t < TIERS ensures NoDup(now[t]) {
      assert NoDup(was[t]);
    }
  }

  /** The lists after the back of the ranked list was cut to its first m elements. */
  ghost predicate CutTo(was: seq<List>, now: seq<List>, m: nat) {
    && |was| == TIERS == |now| && m <= |Flat(was)|
    && Flat(now) == Flat(was)[..m]
    && (forall u :: 0 <= u < TIERS ==> now[u] <= was[u])
    && (forall u :: 0 <= u <= TIERS ==> Begin(Sizes(now), u) == Min(Begin(Sizes(was), u), m))
  }

  lemma CutNothing(was: seq<List>)
    requires |was| == TIERS
    ensures CutTo(was, was, |Flat(was)|)
  {
    FlatLength(was);
    forall u | 0 <= u <= TIERS ensures Begin(Sizes(was), u) <= |Flat(was)| {
      BeginMonotone(Sizes(was), u, TIERS);
    }
  }

  lemma CutMore(was: seq<List>, mid: seq<List>, n: nat, t: nat, m: nat)
    requires CutTo(was, mid, n) && t < TIERS && m <= |mid[t]|
    requires forall u :: t < u < TIERS ==> mid[u] == []
    ensures |mid[t]| <= n
    ensures CutTo(was, mid[t := mid[t][..m]], n - |mid[t]| + m)
  {
    hide Flat, Values, Begin, Sizes;
    FlatTruncate(mid, t, m);
    CutMoreBegins(was, mid, n, t, m);
    assert Flat(was)[..n][..n - |mid[t]| + m] == Flat(was)[..n - |mid[t]| + m];
  }

  lemma CutMoreBegins(was: seq<List>, mid: seq<List>, n: nat, t: nat, m: nat)
    requires CutTo(was, mid, n) && t < TIERS && m <= |mid[t]| <= n
    requires forall u :: t < u < TIERS ==> mid[u] == []
    ensures forall u :: 0 <= u <= TIERS ==>
              Begin(Sizes(mid[t := mid[t][..m]]), u) == Min(Begin(Sizes(was), u), n - |mid[t]| + m)
  {
    FlatLength(mid);
    hide Flat, Values, Begin, Sizes;
    CutBegins(mid, t, m);
  }

  lemma CutBack(was: seq<List>, mid: seq<List>, n: nat, t: nat)
    requires CutTo(was, mid, n) && t < TIERS
    requires forall u :: t < u < TIERS ==> mid[u] == []
    ensures |mid[t]| <= n <= |Flat(was)|
    ensures forall q :: n - |mid[t]| <= q < n ==> Flat(was)[q] == mid[t][q - (n - |mid[t]|)].value
  {
    FlatTruncate(mid, t, 0);
    hide Flat;
    forall q | n - |mid[t]| <= q < n ensures Flat(was)[q] == mid[t][q - (n - |mid[t]|)].value {
      assert Flat(was)[q] == Flat(mid)[q] == Flat(mid)[n - |mid[t]|..][q - (n - |mid[t]|)];
    }
  }

  /** Only a cut to nothing leaves all four lists empty. */
  lemma CutAll(was: seq<List>, now: seq<List>, m: nat)
    requires CutTo(was, now, m) && forall u :: 0 <= u < TIERS ==> now[u] == []
    ensures m == 0
  {
    FlatLength(now);
  }

  lemma CutList(was: seq<List>, now: seq<List>, m: nat)
    requires CutTo(was, now, m)
    ensures |was| == TIERS == |now| && m <= |Flat(was)| && Flat(now) == Flat(was)[..m]
  {
  }

  lemma CutBegins(mid: seq<List>, t: nat, m: nat)
    requires |mid| == TIERS && t < TIERS && m <= |mid[t]|
    requires forall u :: t < u < TIERS ==> mid[u] == []
    ensures forall u :: 0 <= u <= TIERS ==>
              Begin(Sizes(mid[t := mid[t][..m]]), u)
              == Min(Begin(Sizes(mid), u), Begin(Sizes(mid), TIERS) - |mid[t]| + m)
  {
    var now := mid[t := mid[t][..m]];
    assert Sizes(now) == Sizes(mid)[t := m];
    EmptyBelow(mid, t);
    forall u | 0 <= u <= TIERS
      ensures Begin(Sizes(now), u) == Min(Begin(Sizes(mid), u), Begin(Sizes(mid), TIERS) - |mid[t]| + m)
    {
      BeginUpdate(Sizes(mid), t, m, u);
      assert Begin(Sizes(mid), t + 1) == Begin(Sizes(mid), t) + |mid[t]|;
      if u <= t { BeginMonotone(Sizes(mid), u, t); } else {
        BeginMonotone(Sizes(mid), t + 1, u);
        BeginMonotone(Sizes(mid), u, TIERS);
      }
    }
  }

  lemma EmptyBelow(tiers: seq<List>, t: nat)
    requires |tiers| == TIERS && t < TIERS
    requires forall u :: t < u < TIERS ==> tiers[u] == []
    ensures Begin(Sizes(tiers), TIERS) == Begin(Sizes(tiers), t + 1)
    decreases TIERS - t
  {
    if t + 1 < TIERS {
      EmptyBelow(tiers, t + 1);
      assert Begin(Sizes(tiers), t + 2) == Begin(Sizes(tiers), t + 1) + |tiers[t + 1]|;
    }
  }

  /** The objects cut off are the ones whose entries go. */
  lemma LinkedCut(was: seq<List>, now: seq<List>, entries: map<ObjectIndex, Place>, m: nat)
    requires CutTo(was, now, m) && Linked(was, entries)
    ensures Linked(now, entries - Elements(Backwards(Flat(was), |Flat(was)| - m)))
  {
    LinkedRanking(was, entries);
    var gone := Backwards(Flat(was), |Flat(was)| - m);
    forall t: nat, i: nat | t < TIERS && i < |was[t]|
      ensures was[t][i].value in Elements(gone) <==> i >= |now[t]|
    {
      CutPosition(was, now, m, t, i);
    }
    LinkedTruncated(was, now, entries, Elements(gone));
  }

  lemma CutPosition(was: seq<List>, now: seq<List>, m: nat, t: nat, i: nat)
    requires CutTo(was, now, m) && t < TIERS && i < |was[t]| && NoDup(Flat(was))
    ensures was[t][i].value in Backwards(Flat(was), |Flat(was)| - m) <==> i >= |now[t]|
  {
    hide Flat, Values, Begin, Sizes, Backwards, NoDup;
    FlatAt(was, t, i);
    var p := Begin(Sizes(was), t) + i;
    TierEnd(now, t);
    TierEnd(was, t);
    assert p >= m <==> i >= |now[t]|;
    InBackwards(Flat(was), |Flat(was)| - m, p);
  }

  lemma TierEnd(tiers: seq<List>, t: nat)
    requires t < |tiers|
    ensures Begin(Sizes(tiers), t + 1) == Begin(Sizes(tiers), t) + |tiers[t]|
  {
  }

  lemma InBackwards(s: seq<ObjectIndex>, n: nat, p: nat)
    requires n <= |s| && p < |s| && NoDup(s)
    ensures s[p] in Backwards(s, n) <==> p >= |s| - n
  {
    if p >= |s| - n {
      assert Backwards(s, n)[|s| - 1 - p] == s[p];
    }
  }

  function RankingOf(tiers: seq<List>): (c: Ranking)
    requires |tiers| == TIERS
    ensures c.Shaped()
  {
    FlatLength(tiers);
    Ranking(Flat(tiers), Sizes(tiers))
  }

  /** The three steps of a shrinking resize together. */
  lemma ShrinkTiers(was: seq<List>, cut: seq<List>, spilled: seq<List>, now: seq<List>, n: nat, size: nat)
    requires |was| == |cut| == |spilled| == |now| == TIERS
    requires CutTo(was, cut, n) && (n == |Flat(was)| || TIERS * size <= n)
    requires Flat(spilled) == Flat(cut) && Spilled(Sizes(cut), Sizes(spilled), size, 3)
    requires |spilled[3]| <= n && CutTo(spilled, now, n - Max(|spilled[3]| - size, 0))
    ensures RankingOf(now) == Shrunk(RankingOf(was), size)
    ensures Kept(Sizes(was), size, TIERS) == |Flat(now)|
  {
    hide Flat, Values, Begin, Kept, Sizes;
    ShrinkBegins(was, cut, spilled, now, n, size);
    ShrinkSteps(RankingOf(was), RankingOf(cut), RankingOf(now), n, size);
    ShrunkLength(RankingOf(was), size);
  }

  lemma ShrunkLength(c: Ranking, size: nat)
    requires c.Shaped()
    ensures |Shrunk(c, size).list| == Kept(c.sizes, size, TIERS)
  {
    KeptBounds(c.sizes, size, 3);
  }

  lemma ShrinkBegins(was: seq<List>, cut: seq<List>, spilled: seq<List>, now: seq<List>, n: nat, size: nat)
    requires |was| == |cut| == |spilled| == |now| == TIERS
    requires CutTo(was, cut, n) && (n == |Flat(was)| || TIERS * size <= n)
    requires Flat(spilled) == Flat(cut) && Spilled(Sizes(cut), Sizes(spilled), size, 3)
    requires |spilled[3]| <= n && CutTo(spilled, now, n - Max(|spilled[3]| - size, 0))
    ensures |Flat(now)| == Min(n, Kept(Sizes(was), size, 3) + size)
    ensures forall u :: 0 <= u < TIERS ==> Begin(Sizes(now), u) == Kept(Sizes(was), size, u)
  {
    hide Flat, Values, Begin, Kept, Sizes;
    FlatLength(was);
    FlatLength(spilled);
    LastTier(spilled);
    KeptUnlessCut(was, cut, n, size);
    forall u | 0 <= u < TIERS ensures Begin(Sizes(now), u) == Kept(Sizes(was), size, u) {
      assert Begin(Sizes(spilled), u) == Kept(Sizes(was), size, u);
      BeginMonotone(Sizes(spilled), u, 3);
    }
  }

  lemma LastTier(tiers: seq<List>)
    requires |tiers| == TIERS
    ensures Begin(Sizes(tiers), 4) == Begin(Sizes(tiers), 3) + |tiers[3]| == |Flat(tiers)|
  {
    FlatLength(tiers);
  }

  lemma KeptUnlessCut(was: seq<List>, cut: seq<List>, n: nat, size: nat)
    requires CutTo(was, cut, n) && (n == |Flat(was)| || TIERS * size <= n)
    ensures forall u :: 0 <= u < TIERS ==> Kept(Sizes(cut), size, u) == Kept(Sizes(was), size, u)
  {
    if TIERS * size <= n {
      forall u | 0 <= u < TIERS ensures Kept(Sizes(cut), size, u) == Kept(Sizes(was), size, u) {
        KeptOfCut(Sizes(was), Sizes(cut), n, size, u);
      }
    } else {
      FlatLength(was);
      forall u | 0 <= u <= TIERS ensures Begin(Sizes(cut), u) == Begin(Sizes(was), u) {
        BeginMonotone(Sizes(was), u, TIERS);
      }
      BeginDetermines(Sizes(cut), Sizes(was));
    }
  }
}
