/** sort.Sort and sort.Search, which the balancers and the range server call. */
module Sorting {
  import opened ObjectIndexes

  ghost predicate SortedBy<T>(s: seq<T>, key: T -> int) {
    forall i, j :: 0 <= i < j < |s| ==> key(s[i]) <= key(s[j])
  }

  /** Callers know only that the result is a sorted permutation, so nothing that is proved
      depends on where elements with equal keys end up. */
  method Sort<T>(s: seq<T>, key: T -> int) returns (r: seq<T>)
    ensures SortedBy(r, key) && multiset(r) == multiset(s)
  {
    r := [];
    for n := 0 to |s|
      invariant SortedBy(r, key) && multiset(r) == multiset(s[..n])
    {
      assert s[..n + 1] == s[..n] + [s[n]];
      r := Insert(r, s[n], key);
    }
    assert s[..|s|] == s;
  }

  /** The same in place, for a caller whose slice is sorted along with it. */
  method SortInPlace<T>(a: array<T>, key: T -> int)
    modifies a
    ensures SortedBy(a[..], key) && multiset(a[..]) == multiset(old(a[..]))
  {
    hide SortedBy;
    var r := Sort(a[..], key);
    assert |r| == |multiset(r)| && |a[..]| == |multiset(a[..])|;
    forall i | 0 <= i < a.Length {
      a[i] := r[i];
    }
    assert a[..] == r;
  }

  method Insert<T>(s: seq<T>, x: T, key: T -> int) returns (r: seq<T>)
    requires SortedBy(s, key)
    ensures SortedBy(r, key) && multiset(r) == multiset(s) + multiset{x}
  {
    var i := 0;
    while i < |s| && key(s[i]) <= key(x)
      invariant i <= |s|
      invariant forall j :: 0 <= j < i ==> key(s[j]) <= key(x)
    {
      i := i + 1;
    }
    r := s[..i] + [x] + s[i..];
    InsertedSorted(s, i, x, key);
    InsertedSame(s, i, x);
  }

  lemma InsertedSorted<T>(s: seq<T>, i: nat, x: T, key: T -> int)
    requires i <= |s| && SortedBy(s, key)
    requires forall j :: 0 <= j < i ==> key(s[j]) <= key(x)
    requires i < |s| ==> key(x) <= key(s[i])
    ensures SortedBy(s[..i] + [x] + s[i..], key)
  {
    var r := s[..i] + [x] + s[i..];
    forall a, b | 0 <= a < b < |r| ensures key(r[a]) <= key(r[b]) {
      var at := (k: nat) => if k < i then k else k - 1;
      if a != i && b != i {
        assert r[a] == s[at(a)] && r[b] == s[at(b)];
      } else if a == i {
        assert r[a] == x && r[b] == s[b - 1];
      } else {
        assert r[b] == x && r[a] == s[a];
      }
    }
  }

  lemma InsertedSame<T>(s: seq<T>, i: nat, x: T)
    requires i <= |s|
    ensures multiset(s[..i] + [x] + s[i..]) == multiset(s) + multiset{x}
  {
    assert s == s[..i] + s[i..];
  }

  /** Binary search as in the Go library. Nothing is asked of f: for any f the result is
      a place where f changes from false to true. */
  method Search(n: nat, f: nat -> bool) returns (r: nat)
    ensures r <= n
    ensures r < n ==> f(r)
    ensures r > 0 ==> !f(r - 1)
    ensures r == SearchBetween(0, n, f)
  {
    hide SearchBetween;
    var i, j := 0, n;
    while i < j
      invariant 0 <= i <= j <= n
      invariant i > 0 ==> !f(i - 1)
      invariant j < n ==> f(j)
      invariant SearchBetween(i, j, f) == SearchBetween(0, n, f)
    {
      SearchHalf(i, j, f);
      var h := i + (j - i) / 2;
      if !f(h) {
        i := h + 1;
      } else {
        j := h;
      }
    }
    SearchOver(i, f);
    r := i;
  }

  lemma SearchHalf(i: nat, j: nat, f: nat -> bool)
    requires i < j
    ensures i <= i + (j - i) / 2 < j
    ensures var h := i + (j - i) / 2;
            SearchBetween(i, j, f) == if f(h) then SearchBetween(i, h, f) else SearchBetween(h + 1, j, f)
  {
  }

  lemma SearchOver(i: nat, f: nat -> bool)
    ensures SearchBetween(i, i, f) == i
  {
  }

  /** The place that Search settles on. */
  function SearchBetween(i: nat, j: nat, f: nat -> bool): (r: nat)
    requires i <= j
    ensures i <= r <= j
    decreases j - i
  {
    if i == j then i
    else
      var h := i + (j - i) / 2;
      if f(h) then SearchBetween(i, h, f) else SearchBetween(h + 1, j, f)
  }
}
