/** The heap of expiry times, with the sifting of container/heap over its Less and Swap. */
module ExpireHeap {
  import opened ObjectIndexes

  datatype ExpireTime = ExpireTime(key: ObjectID, expires: int)

  function Parent(i: nat): nat
    requires i > 0
  {
    (i - 1) / 2
  }

  /** Every child is at or after its parent, except perhaps at position hole. */
  ghost predicate HeapExcept(s: seq<ExpireTime>, hole: int) {
    && (forall i :: 0 < i < |s| && i != hole ==> s[Parent(i)].expires <= s[i].expires)
    && (forall i :: 0 < i < |s| && Parent(i) == hole && hole > 0 ==> s[Parent(hole)].expires <= s[i].expires)
  }

  /** The same with the children of position hole exempt. */
  ghost predicate HeapBelow(s: seq<ExpireTime>, hole: nat) {
    && (forall i :: 0 < i < |s| && Parent(i) != hole ==> s[Parent(i)].expires <= s[i].expires)
    && (forall i :: 0 < i < |s| && Parent(i) == hole && hole > 0 ==> s[Parent(hole)].expires <= s[i].expires)
  }

  ghost predicate IsHeap(s: seq<ExpireTime>) {
    forall i :: 0 < i < |s| ==> s[Parent(i)].expires <= s[i].expires
  }

  /** The first element of a heap expires first. */
  lemma {:induction false} FirstIsLeast(s: seq<ExpireTime>, i: nat)
    requires IsHeap(s) && i < |s|
    ensures s[0].expires <= s[i].expires
  {
    if i > 0 { FirstIsLeast(s, Parent(i)); }
  }

  function Swapped(s: seq<ExpireTime>, i: nat, j: nat): (r: seq<ExpireTime>)
    requires i < |s| && j < |s|
    ensures |r| == |s| && multiset(r) == multiset(s)
  {
    s[i := s[j]][j := s[i]]
  }

  lemma UpStep(s: seq<ExpireTime>, j: nat)
    requires 0 < j < |s| && HeapExcept(s, j) && s[j].expires < s[Parent(j)].expires
    ensures HeapExcept(Swapped(s, Parent(j), j), Parent(j))
  {
    var p := Parent(j);
    var r := Swapped(s, p, j);
    forall i | 0 < i < |r| && i != p ensures r[Parent(i)].expires <= r[i].expires {
      if i == j || Parent(i) == p || Parent(i) == j {
      } else {
        assert r[i] == s[i] && r[Parent(i)] == s[Parent(i)];
      }
    }
  }

  lemma UpDone(s: seq<ExpireTime>, j: nat)
    requires j < |s| && HeapExcept(s, j) && (j > 0 ==> s[Parent(j)].expires <= s[j].expires)
    ensures IsHeap(s)
  {
  }

  lemma Appended(s: seq<ExpireTime>, x: ExpireTime)
    requires IsHeap(s)
    ensures HeapExcept(s + [x], |s|)
  {
  }

  /** The smaller child of position i in a heap of n elements. */
  function Child(s: seq<ExpireTime>, i: nat): (j: nat)
    requires 2 * i + 1 < |s|
    ensures i < j < |s| && Parent(j) == i
    ensures forall k :: 0 < k < |s| && Parent(k) == i ==> s[j].expires <= s[k].expires
  {
    if 2 * i + 2 < |s| && s[2 * i + 2].expires < s[2 * i + 1].expires then 2 * i + 2 else 2 * i + 1
  }

  lemma DownStep(s: seq<ExpireTime>, i: nat)
    requires 2 * i + 1 < |s| && HeapBelow(s, i) && s[Child(s, i)].expires < s[i].expires
    ensures HeapBelow(Swapped(s, i, Child(s, i)), Child(s, i))
  {
    var j := Child(s, i);
    var r := Swapped(s, i, j);
    forall k | 0 < k < |r| && Parent(k) != j ensures r[Parent(k)].expires <= r[k].expires {
      if Parent(k) == i || k == i {
      } else {
        assert r[k] == s[k] && r[Parent(k)] == s[Parent(k)];
      }
    }
  }

  lemma DownDone(s: seq<ExpireTime>, i: nat)
    requires HeapBelow(s, i) && (2 * i + 1 < |s| ==> s[i].expires <= s[Child(s, i)].expires)
    ensures IsHeap(s)
  {
  }

  /** The last element takes the place of the first. */
  lemma FirstReplaced(s: seq<ExpireTime>)
    requires IsHeap(s) && s != []
    ensures HeapBelow(Swapped(s, 0, |s| - 1)[..|s| - 1], 0)
  {
    var r := Swapped(s, 0, |s| - 1)[..|s| - 1];
    assert forall k :: 0 < k < |r| ==> r[k] == s[k];
  }

  class ExpireHeap {
    var elems: seq<ExpireTime>

    constructor ()
      ensures elems == []
    {
      elems := [];
    }

    method Swap(i: nat, j: nat)
      requires i < |elems| && j < |elems|
      modifies this
      ensures elems == Swapped(old(elems), i, j)
    {
      elems := elems[i := elems[j]][j := elems[i]];
    }

    /** heap.Push */
    method Push(x: ExpireTime)
      requires IsHeap(elems)
      modifies this
      ensures IsHeap(elems) && multiset(elems) == multiset(old(elems)) + multiset{x}
    {
      hide HeapExcept, IsHeap, Swapped;
      Appended(elems, x);
      elems := elems + [x];
      var j := |elems| - 1;
      while j > 0 && elems[j].expires < elems[Parent(j)].expires
        invariant 0 <= j < |elems| && HeapExcept(elems, j)
        invariant multiset(elems) == multiset(old(elems)) + multiset{x}
      {
        UpStep(elems, j);
        var i := Parent(j);
        Swap(i, j);
        j := i;
      }
      UpDone(elems, j);
    }

    /** heap.Remove at position 0 */
    method RemoveFirst() returns (first: ExpireTime)
      requires IsHeap(elems) && elems != []
      modifies this
      ensures first == old(elems[0]) && IsHeap(elems)
      ensures multiset(old(elems)) == multiset(elems) + multiset{first}
      ensures forall x :: x in old(elems) ==> first.expires <= x.expires
    {
      hide HeapBelow, IsHeap;
      forall x | x in elems ensures elems[0].expires <= x.expires {
        var i :| 0 <= i < |elems| && elems[i] == x;
        FirstIsLeast(elems, i);
      }
      FirstReplaced(elems);
      var n := |elems| - 1;
      Swap(0, n);
      first := elems[n];
      assert elems == elems[..n] + [first];
      elems := elems[..n];
      SiftDown();
    }

    method SiftDown()
      requires HeapBelow(elems, 0)
      modifies this
      ensures IsHeap(elems) && multiset(elems) == multiset(old(elems))
    {
      hide HeapBelow, IsHeap, Swapped;
      var i, n := 0, |elems|;
      while true
        invariant HeapBelow(elems, i) && |elems| == n && multiset(elems) == multiset(old(elems))
        decreases n - i
      {
        var j := 2 * i + 1;
        if j >= n {
          break;
        }
        if j + 1 < n && elems[j + 1].expires < elems[j].expires {
          j := j + 1;
        }
        assert j == Child(elems, i);
        if elems[j].expires >= elems[i].expires {
          break;
        }
        DownStep(elems, i);
        Swap(i, j);
        i := j;
      }
      DownDone(elems, i);
    }
  }
}
