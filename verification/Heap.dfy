/** The binary heap of Go's container/heap over a slice, smallest key first. */
module Heap {

  function Parent(j: nat): nat
    requires j > 0
  {
    (j - 1) / 2
  }

  /** The pair of j and its parent is in order. */
  predicate InOrder<T>(h: seq<T>, key: T -> int, j: nat)
    requires 0 < j < |h|
  {
    key(h[Parent(j)]) <= key(h[j])
  }

  predicate IsHeap<T>(h: seq<T>, key: T -> int) {
    forall j :: 0 < j < |h| ==> InOrder(h, key, j)
  }

  /** Among the first n, all pairs are in order whose parent is at least lo, but for those
      below `hole` and that of `loose` with its parent. */
  predicate Nearly<T>(h: seq<T>, key: T -> int, lo: nat, n: nat, hole: nat, loose: nat)
    requires n <= |h|
  {
    forall j :: 0 < j < n && lo <= Parent(j) && Parent(j) != hole && j != loose ==> InOrder(h, key, j)
  }

  /** What hangs below i is not smaller than what i hangs from. */
  predicate Bridged<T>(h: seq<T>, key: T -> int, lo: nat, n: nat, i: nat)
    requires n <= |h|
  {
    forall c :: 0 < c < n && Parent(c) == i && i > 0 && lo <= Parent(i) && i < n ==> key(h[Parent(i)]) <= key(h[c])
  }

  function Swap<T>(h: seq<T>, i: nat, j: nat): (r: seq<T>)
    requires i < |h| && j < |h|
    ensures multiset(r) == multiset(h) && |r| == |h|
    ensures r[i] == h[j] && r[j] == h[i] && forall k :: 0 <= k < |h| && k != i && k != j ==> r[k] == h[k]
  {
    h[i := h[j]][j := h[i]]
  }

  /** The root is the least. */
  lemma {:induction false} RootIsLeast<T>(h: seq<T>, key: T -> int, j: nat)
    requires IsHeap(h, key) && j < |h|
    ensures key(h[0]) <= key(h[j])
  {
    if j > 0 {
      RootIsLeast(h, key, Parent(j));
      assert InOrder(h, key, j);
    }
  }

  lemma SwapDown<T>(h: seq<T>, key: T -> int, lo: nat, n: nat, i: nat, j: nat, i0: nat)
    requires n <= |h| && i < j < n && Parent(j) == i && lo <= i && i0 <= i
    requires Nearly(h, key, lo, n, i, i0) && Bridged(h, key, lo, n, i)
    requires key(h[j]) < key(h[i]) && forall c :: 0 < c < n && Parent(c) == i ==> key(h[j]) <= key(h[c])
    ensures var r := Swap(h, i, j); Nearly(r, key, lo, n, j, i0) && Bridged(r, key, lo, n, j)
  {
    var r := Swap(h, i, j);
    forall k | 0 < k < n && lo <= Parent(k) && Parent(k) != j && k != i0
      ensures InOrder(r, key, k)
    {
      if Parent(k) != i && k != j {
        assert InOrder(h, key, k);
      }
    }
    forall c | 0 < c < n && Parent(c) == j
      ensures key(r[Parent(j)]) <= key(r[c])
    {
      assert InOrder(h, key, c);
    }
  }

  /** down: the element at i0 sinks to its place. */
  method Down<T>(h: seq<T>, key: T -> int, lo: nat, i0: nat, n: nat) returns (r: seq<T>, moved: bool)
    requires n <= |h| && lo <= i0 < |h| && Nearly(h, key, lo, n, i0, i0) && Bridged(h, key, lo, n, i0)
    ensures multiset(r) == multiset(h) && |r| == |h| && r[n..] == h[n..]
    ensures forall k :: 0 <= k < i0 ==> r[k] == h[k]
    ensures forall j :: 0 < j < n && lo <= Parent(j) && j != i0 ==> InOrder(r, key, j)
    ensures moved && 0 < i0 && lo <= Parent(i0) ==> InOrder(r, key, i0)
    ensures !moved ==> r == h
  {
    hide Nearly, Bridged, InOrder, Swap, Sunk;
    r := h;
    SunkStarts(h, i0, n);
    var i := i0;
    while true
      invariant i0 <= i < |h| && (i == i0 || i < n) && |r| == |h| && multiset(r) == multiset(h)
      invariant Sunk(h, r, i0, n)
      invariant Nearly(r, key, lo, n, i, i0) && Bridged(r, key, lo, n, i)
      invariant i == i0 ==> r == h
      invariant i > i0 && 0 < i0 && lo <= Parent(i0) ==> InOrder(r, key, i0)
      decreases n - i
    {
      var j1 := 2 * i + 1;
      if j1 >= n {
        NothingBelow(r, key, lo, n, i, i0);
        break;
      }
      var j := j1;
      var j2 := j1 + 1;
      if j2 < n && key(r[j2]) < key(r[j1]) {
        j := j2;
      }
      if !(key(r[j]) < key(r[i])) {
        InPlace(r, key, lo, n, i, i0, j);
        break;
      }
      SwapDown(r, key, lo, n, i, j, i0);
      Lifted(r, key, lo, n, i, j, i0);
      StaysSunk(h, r, i0, n, i, j);
      r := Swap(r, i, j);
      i := j;
    }
    moved := i > i0;
    SunkMeans(h, r, i0, n);
  }

  /** Nothing before i0 or from n on has changed. */
  ghost predicate Sunk<T>(h: seq<T>, r: seq<T>, i0: nat, n: nat) {
    |r| == |h| && n <= |h| && r[n..] == h[n..] && forall k :: 0 <= k < i0 && k < |h| ==> r[k] == h[k]
  }

  lemma SunkStarts<T>(h: seq<T>, i0: nat, n: nat)
    requires n <= |h|
    ensures Sunk(h, h, i0, n)
  {
  }

  lemma StaysSunk<T>(h: seq<T>, r: seq<T>, i0: nat, n: nat, i: nat, j: nat)
    requires Sunk(h, r, i0, n) && i0 <= i < j < n
    ensures Sunk(h, Swap(r, i, j), i0, n) && multiset(Swap(r, i, j)) == multiset(r) && |Swap(r, i, j)| == |r|
  {
  }

  lemma SunkMeans<T>(h: seq<T>, r: seq<T>, i0: nat, n: nat)
    requires Sunk(h, r, i0, n)
    ensures n <= |h| == |r| && r[n..] == h[n..] && forall k :: 0 <= k < i0 && k < |h| ==> r[k] == h[k]
  {
  }

  lemma NothingBelow<T>(h: seq<T>, key: T -> int, lo: nat, n: nat, i: nat, i0: nat)
    requires n <= |h| && Nearly(h, key, lo, n, i, i0) && 2 * i + 1 >= n
    ensures forall j :: 0 < j < n && lo <= Parent(j) && j != i0 ==> InOrder(h, key, j)
  {
  }

  lemma InPlace<T>(h: seq<T>, key: T -> int, lo: nat, n: nat, i: nat, i0: nat, j: nat)
    requires n <= |h| && Nearly(h, key, lo, n, i, i0) && i < n && j < n
    requires key(h[i]) <= key(h[j]) && forall c :: 0 < c < n && Parent(c) == i ==> key(h[j]) <= key(h[c])
    ensures forall j :: 0 < j < n && lo <= Parent(j) && j != i0 ==> InOrder(h, key, j)
  {
  }

  /** After the first swap the place i0 holds something its parent is not above. */
  lemma Lifted<T>(h: seq<T>, key: T -> int, lo: nat, n: nat, i: nat, j: nat, i0: nat)
    requires n <= |h| && i0 <= i < j < n && Parent(j) == i && Bridged(h, key, lo, n, i) && key(h[j]) < key(h[i])
    requires i > i0 && 0 < i0 && lo <= Parent(i0) ==> InOrder(h, key, i0)
    ensures 0 < i0 && lo <= Parent(i0) ==> InOrder(Swap(h, i, j), key, i0)
  {
  }

  lemma SwapUp<T>(h: seq<T>, key: T -> int, j: nat)
    requires 0 < j < |h| && Nearly(h, key, 0, |h|, |h|, j) && Bridged(h, key, 0, |h|, j)
    requires key(h[j]) < key(h[Parent(j)])
    ensures var r := Swap(h, Parent(j), j); Nearly(r, key, 0, |h|, |h|, Parent(j)) && Bridged(r, key, 0, |h|, Parent(j))
  {
    var n, i := |h|, Parent(j);
    var r := Swap(h, i, j);
    forall k | 0 < k < n && k != i
      ensures InOrder(r, key, k)
    {
      if k != j {
        assert InOrder(h, key, k);
      }
    }
    forall c | 0 < c < n && Parent(c) == i && i > 0
      ensures key(r[Parent(i)]) <= key(r[c])
    {
      assert InOrder(h, key, i);
      if c != j {
        assert InOrder(h, key, c);
      }
    }
  }

  /** up: the element at j0 rises to its place. */
  method Up<T>(h: seq<T>, key: T -> int, j0: nat) returns (r: seq<T>)
    requires j0 < |h| && Nearly(h, key, 0, |h|, |h|, j0) && Bridged(h, key, 0, |h|, j0)
    ensures multiset(r) == multiset(h) && |r| == |h| && IsHeap(r, key)
  {
    hide Bridged;
    r := h;
    var j := j0;
    while j > 0 && key(r[j]) < key(r[Parent(j)])
      invariant 0 <= j < |r| && |r| == |h| && multiset(r) == multiset(h)
      invariant Nearly(r, key, 0, |r|, |r|, j) && Bridged(r, key, 0, |r|, j)
    {
      SwapUp(r, key, j);
      r := Swap(r, Parent(j), j);
      j := Parent(j);
    }
  }

  method Init<T>(h: seq<T>, key: T -> int) returns (r: seq<T>)
    ensures multiset(r) == multiset(h) && IsHeap(r, key)
  {
    r := h;
    var n := |h|;
    var i := n / 2;
    while i > 0
      invariant 0 <= i <= n / 2 && |r| == n && multiset(r) == multiset(h)
      invariant forall j :: 0 < j < n && i <= Parent(j) ==> InOrder(r, key, j)
    {
      i := i - 1;
      var moved;
      r, moved := Down(r, key, i, i, n);
    }
  }

  method Push<T>(h: seq<T>, key: T -> int, x: T) returns (r: seq<T>)
    requires IsHeap(h, key)
    ensures multiset(r) == multiset(h) + multiset{x} && IsHeap(r, key)
  {
    r := h + [x];
    forall j | 0 < j < |h|
      ensures InOrder(r, key, j)
    {
      assert InOrder(h, key, j);
    }
    r := Up(r, key, |h|);
  }

  method Pop<T>(h: seq<T>, key: T -> int) returns (r: seq<T>, x: T)
    requires IsHeap(h, key) && |h| > 0
    ensures x == h[0] && multiset(h) == multiset(r) + multiset{x} && IsHeap(r, key)
    ensures forall y :: y in r ==> key(x) <= key(y)
  {
    r, x := RemoveAt(h, key, 0);
    forall y | y in r
      ensures key(x) <= key(y)
    {
      assert y in multiset(h);
      var j :| 0 <= j < |h| && h[j] == y;
      RootIsLeast(h, key, j);
    }
  }

  /** Fix: the element at i has a new key. */
  method Fix<T>(h: seq<T>, key: T -> int, i: nat) returns (r: seq<T>)
    requires i < |h| && Nearly(h, key, 0, |h|, i, i) && Bridged(h, key, 0, |h|, i)
    ensures multiset(r) == multiset(h) && IsHeap(r, key)
  {
    var moved;
    r, moved := Down(h, key, 0, i, |h|);
    if !moved {
      r := Up(r, key, i);
    }
  }

  /** Remove, and Pop at 0: the last element takes the place of the one removed. */
  method RemoveAt<T>(h: seq<T>, key: T -> int, i: nat) returns (r: seq<T>, x: T)
    requires IsHeap(h, key) && i < |h|
    ensures x == h[i] && multiset(h) == multiset(r) + multiset{x} && IsHeap(r, key)
  {
    x := h[i];
    var n := |h| - 1;
    var s := Swap(h, i, n);
    assert s == s[..n] + [x];
    r := s[..n];
    if i < n {
      Replaced(h, key, r, i);
      r := Fix(r, key, i);
    } else {
      forall j | 0 < j < n
        ensures InOrder(r, key, j)
      {
        assert InOrder(h, key, j);
      }
    }
  }

  lemma Replaced<T>(h: seq<T>, key: T -> int, r: seq<T>, i: nat)
    requires IsHeap(h, key) && |r| <= |h| && i < |r| && forall k :: 0 <= k < |r| && k != i ==> r[k] == h[k]
    ensures Nearly(r, key, 0, |r|, i, i) && Bridged(r, key, 0, |r|, i)
  {
    forall j | 0 < j < |r| && Parent(j) != i && j != i
      ensures InOrder(r, key, j)
    {
      assert InOrder(h, key, j);
    }
    forall c | 0 < c < |r| && Parent(c) == i && i > 0
      ensures key(r[Parent(i)]) <= key(r[c])
    {
      assert InOrder(h, key, c) && InOrder(h, key, i);
    }
  }
}
