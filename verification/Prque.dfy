/** The priority queue: a block-paged stack that acts as one flat array, and the heap of
    container/heap run over it, highest priority first. */
module Prques {
  import opened Wrappers
  import Heap

  const BLOCK_SIZE := 4096

  datatype Item = Item(value: nat, priority: int)

  function Priority(x: Item): int {
    0 - x.priority
  }

  class SStack {
    var size: nat
    var capacity: nat
    var offset: nat
    var blocks: seq<array<Option<Item>>>
    var active: array<Option<Item>>
    /** The stack as one array. */
    ghost var flat: seq<Item>

    /** The active block is the one the top is in, or just ran over. */
    ghost predicate Valid()
      reads this, blocks
    {
      && (forall b :: 0 <= b < |blocks| ==> blocks[b].Length == BLOCK_SIZE)
      && (forall b, c :: 0 <= b < c < |blocks| ==> blocks[b] != blocks[c])
      && capacity == |blocks| * BLOCK_SIZE
      && size == |flat| <= capacity && offset <= BLOCK_SIZE
      && offset <= size && (size - offset) % BLOCK_SIZE == 0
      && (size - offset) / BLOCK_SIZE < |blocks| && active == blocks[(size - offset) / BLOCK_SIZE]
      && (forall i :: 0 <= i < |flat| ==> blocks[i / BLOCK_SIZE][i % BLOCK_SIZE] == Some(flat[i]))
    }

    constructor ()
      ensures Valid() && flat == [] && fresh(blocks)
    {
      var first := new Option<Item>[BLOCK_SIZE](_ => None);
      active := first;
      blocks := [first];
      size, capacity, offset := 0, BLOCK_SIZE, 0;
      flat := [];
    }

    method Push(data: Item)
      requires Valid()
      modifies this, blocks
      ensures Valid() && flat == old(flat) + [data] && fresh(set b | b in blocks && b !in old(blocks))
    {
      NextBlock();
      active[offset] := Some(data);
      offset := offset + 1;
      size := size + 1;
      flat := flat + [data];
    }

    /** Push moves on to the next block, a new one if need be, when the active one is full. */
    method NextBlock()
      requires Valid()
      modifies this
      ensures Valid() && flat == old(flat) && offset < BLOCK_SIZE && size < capacity
      ensures old(blocks) <= blocks && fresh(set b | b in blocks && b !in old(blocks))
    {
      if size == capacity {
        active := new Option<Item>[BLOCK_SIZE](_ => None);
        blocks := blocks + [active];
        capacity := capacity + BLOCK_SIZE;
        offset := 0;
      } else if offset == BLOCK_SIZE {
        active := blocks[size / BLOCK_SIZE];
        offset := 0;
      }
    }

    method Pop() returns (res: Item)
      requires Valid() && flat != []
      modifies this, blocks
      ensures Valid() && blocks == old(blocks) && res == old(flat)[|old(flat)| - 1] && flat == old(flat)[..|old(flat)| - 1]
    {
      size := size - 1;
      if offset == 0 {
        offset := BLOCK_SIZE - 1;
        active := blocks[size / BLOCK_SIZE];
      } else {
        offset := offset - 1;
      }
      assert active[offset] == Some(flat[size]) by {
        assert size % BLOCK_SIZE == offset && active == blocks[size / BLOCK_SIZE];
      }
      res := active[offset].value;
      active[offset] := None;
      flat := flat[..size];
    }

    function Len(): (n: nat)
      requires Valid()
      reads this, blocks
      ensures n == |flat|
    {
      size
    }

    predicate Less(i: nat, j: nat)
      requires Valid() && i < |flat| && j < |flat|
      reads this, blocks
      ensures Less(i, j) == (Priority(flat[i]) < Priority(flat[j]))
    {
      var a, b := blocks[i / BLOCK_SIZE][i % BLOCK_SIZE], blocks[j / BLOCK_SIZE][j % BLOCK_SIZE];
      a.value.priority - b.value.priority > 0
    }

    method Swap(i: nat, j: nat)
      requires Valid() && i < |flat| && j < |flat|
      modifies blocks, `flat
      ensures Valid() && flat == Heap.Swap(old(flat), i, j)
    {
      var a, b := blocks[j / BLOCK_SIZE][j % BLOCK_SIZE], blocks[i / BLOCK_SIZE][i % BLOCK_SIZE];
      blocks[i / BLOCK_SIZE][i % BLOCK_SIZE] := a;
      blocks[j / BLOCK_SIZE][j % BLOCK_SIZE] := b;
      flat := Heap.Swap(flat, i, j);
    }
  }

  class Prque {
    const cont: SStack

    ghost predicate Valid()
      reads this, cont, cont.blocks
    {
      cont.Valid() && Heap.IsHeap(cont.flat, Priority)
    }

    constructor ()
      ensures Valid() && fresh(cont) && fresh(cont.blocks) && cont.flat == []
    {
      cont := new SStack();
    }

    /** Push: heap.Push over the stack. */
    method Push(value: nat, priority: int)
      requires Valid()
      modifies cont, cont.blocks
      ensures Valid() && fresh(set b | b in cont.blocks && b !in old(cont.blocks))
      ensures multiset(cont.flat) == multiset(old(cont.flat)) + multiset{Item(value, priority)}
    {
      hide SStack.Valid;
      PushedHeap(cont.flat, Item(value, priority));
      cont.Push(Item(value, priority));
      var n := cont.Len();
      Up(n - 1);
    }

    /** Pop: heap.Pop; nothing left has a higher priority. */
    method Pop() returns (value: nat, priority: int)
      requires Valid() && cont.flat != []
      modifies cont, cont.blocks
      ensures Valid() && cont.blocks == old(cont.blocks)
      ensures multiset(old(cont.flat)) == multiset(cont.flat) + multiset{Item(value, priority)}
      ensures forall x :: x in cont.flat ==> x.priority <= priority
    {
      hide SStack.Valid, Heap.IsHeap, Priority;
      SinkTop();
      var top := cont.Pop();
      return top.value, top.priority;
    }

    /** The root goes last, and what took its place sinks. */
    method SinkTop()
      requires Valid() && cont.flat != []
      modifies cont.blocks, cont`flat
      ensures cont.Valid() && cont.blocks == old(cont.blocks) && cont.flat != []
      ensures var n := |cont.flat| - 1;
              && Heap.IsHeap(cont.flat[..n], Priority)
              && multiset(old(cont.flat)) == multiset(cont.flat[..n]) + multiset{Item(cont.flat[n].value, cont.flat[n].priority)}
              && forall x :: x in cont.flat[..n] ==> x.priority <= cont.flat[n].priority
    {
      hide SStack.Valid, Heap.Nearly, Heap.Bridged, Heap.IsHeap, Heap.Swap, Sinking, Priority;
      ghost var all := cont.flat;
      var size := cont.Len();
      var n := size - 1;
      cont.Swap(0, n);
      ghost var swapped := cont.flat;
      PoppedHeap(all, swapped, n);
      Down(0, n);
      PoppedItem(all, swapped, cont.flat, n);
    }

    method Empty() returns (r: bool)
      requires Valid()
      ensures r == (cont.flat == [])
    {
      var n := cont.Len();
      return n == 0;
    }

    /** container/heap's up, on the stack in place. */
    method Up(j0: nat)
      requires cont.Valid() && j0 < |cont.flat|
      requires Heap.Nearly(cont.flat, Priority, 0, |cont.flat|, |cont.flat|, j0) && Heap.Bridged(cont.flat, Priority, 0, |cont.flat|, j0)
      modifies cont.blocks, cont`flat
      ensures Valid() && cont.blocks == old(cont.blocks) && multiset(cont.flat) == multiset(old(cont.flat))
    {
      hide SStack.Valid, Heap.Bridged, Heap.Nearly, Heap.IsHeap;
      var j := j0;
      while j > 0
        invariant 0 <= j < |cont.flat| && cont.Valid() && cont.blocks == old(cont.blocks)
        invariant multiset(cont.flat) == multiset(old(cont.flat)) && |cont.flat| == |old(cont.flat)|
        invariant Heap.Nearly(cont.flat, Priority, 0, |cont.flat|, |cont.flat|, j) && Heap.Bridged(cont.flat, Priority, 0, |cont.flat|, j)
      {
        var i := (j - 1) / 2;
        if !cont.Less(j, i) {
          break;
        }
        Heap.SwapUp(cont.flat, Priority, j);
        cont.Swap(i, j);
        j := i;
      }
      RisenIsHeap(cont.flat, j);
    }

    /** The child of i that comes first. */
    function FirstChild(i: nat, n: nat): (j: nat)
      requires cont.Valid() && 2 * i + 1 < n <= |cont.flat|
      reads this, cont, cont.blocks
      ensures i < j < n && Heap.Parent(j) == i
      ensures forall c :: 0 < c < n && Heap.Parent(c) == i ==> Priority(cont.flat[j]) <= Priority(cont.flat[c])
    {
      var j1 := 2 * i + 1;
      if j1 + 1 < n && cont.Less(j1 + 1, j1) then j1 + 1 else j1
    }

    /** container/heap's down from the root, among the first n. */
    method Down(i0: nat, n: nat)
      requires cont.Valid() && i0 == 0 && n <= |cont.flat|
      requires Sinking(cont.flat, n, i0)
      modifies cont.blocks, cont`flat
      ensures cont.Valid() && cont.blocks == old(cont.blocks) && |cont.flat| == |old(cont.flat)|
      ensures cont.flat[n..] == old(cont.flat)[n..] && multiset(cont.flat) == multiset(old(cont.flat))
      ensures Heap.IsHeap(cont.flat[..n], Priority)
    {
      hide SStack.Valid, Sinking, Heap.IsHeap, Heap.InOrder;
      var i, done := i0, false;
      while !done
        invariant 0 <= i <= n && cont.Valid() && cont.blocks == old(cont.blocks) && |cont.flat| == |old(cont.flat)|
        invariant cont.flat[n..] == old(cont.flat)[n..] && multiset(cont.flat) == multiset(old(cont.flat))
        invariant if done then Heap.IsHeap(cont.flat[..n], Priority) else Sinking(cont.flat, n, i)
        decreases n - i, !done
      {
        if 2 * i + 1 >= n {
          BottomIsHeap(cont.flat, n, i);
          done := true;
        } else {
          var j := FirstChild(i, n);
          if cont.Less(j, i) {
            Sinks(cont.flat, n, i, j);
            cont.Swap(i, j);
            i := j;
          } else {
            SettledIsHeap(cont.flat, n, i, j);
            done := true;
          }
        }
      }
    }
  }

  /** A heap among the first n but for what is below i. */
  predicate Sinking(h: seq<Item>, n: nat, i: nat)
    requires n <= |h|
  {
    Heap.Nearly(h, Priority, 0, n, i, 0) && Heap.Bridged(h, Priority, 0, n, i)
  }

  lemma Sinks(h: seq<Item>, n: nat, i: nat, j: nat)
    requires n <= |h| && i < j < n && Heap.Parent(j) == i && Sinking(h, n, i) && Priority(h[j]) < Priority(h[i])
    requires forall c :: 0 < c < n && Heap.Parent(c) == i ==> Priority(h[j]) <= Priority(h[c])
    ensures Sinking(Heap.Swap(h, i, j), n, j)
    ensures Heap.Swap(h, i, j)[n..] == h[n..]
  {
    hide Heap.Nearly, Heap.Bridged;
    Heap.SwapDown(h, Priority, 0, n, i, j, 0);
  }

  lemma BottomIsHeap(h: seq<Item>, n: nat, i: nat)
    requires n <= |h| && 2 * i + 1 >= n && Sinking(h, n, i)
    ensures Heap.IsHeap(h[..n], Priority)
  {
    Heap.NothingBelow(h, Priority, 0, n, i, 0);
    OrderedIsHeap(h, n);
  }

  lemma SettledIsHeap(h: seq<Item>, n: nat, i: nat, j: nat)
    requires n <= |h| && i < n && j < n && Sinking(h, n, i) && Priority(h[i]) <= Priority(h[j])
    requires forall c :: 0 < c < n && Heap.Parent(c) == i ==> Priority(h[j]) <= Priority(h[c])
    ensures Heap.IsHeap(h[..n], Priority)
  {
    Heap.InPlace(h, Priority, 0, n, i, 0, j);
    OrderedIsHeap(h, n);
  }

  lemma RisenIsHeap(h: seq<Item>, j: nat)
    requires j < |h| && Heap.Nearly(h, Priority, 0, |h|, |h|, j) && (j > 0 ==> Priority(h[Heap.Parent(j)]) <= Priority(h[j]))
    ensures Heap.IsHeap(h, Priority)
  {
  }

  /** What was first is last once the first n have been put in order again. */
  lemma TopIsLast(h: seq<Item>, swapped: seq<Item>, r: seq<Item>, n: nat)
    requires |h| == n + 1 == |r| && swapped == Heap.Swap(h, 0, n) && r[n..] == swapped[n..] && multiset(r) == multiset(swapped)
    ensures r[n] == h[0] && multiset(h) == multiset(r[..n]) + multiset{h[0]}
  {
    assert r[n] == r[n..][0] == swapped[n..][0];
    assert r == r[..n] + [r[n]];
  }

  lemma OrderedIsHeap(h: seq<Item>, n: nat)
    requires n <= |h| && forall j :: 0 < j < n && 0 <= Heap.Parent(j) && j != 0 ==> Heap.InOrder(h, Priority, j)
    ensures Heap.IsHeap(h[..n], Priority)
  {
    forall j | 0 < j < n
      ensures Heap.InOrder(h[..n], Priority, j)
    {
      assert Heap.InOrder(h, Priority, j);
    }
  }

  lemma PushedHeap(h: seq<Item>, x: Item)
    requires Heap.IsHeap(h, Priority)
    ensures var r, n := h + [x], |h| + 1; Heap.Nearly(r, Priority, 0, n, n, n - 1) && Heap.Bridged(r, Priority, 0, n, n - 1)
  {
    forall j | 0 < j < |h|
      ensures Heap.InOrder(h + [x], Priority, j)
    {
      assert Heap.InOrder(h, Priority, j);
    }
  }

  lemma PoppedHeap(h: seq<Item>, swapped: seq<Item>, n: nat)
    requires Heap.IsHeap(h, Priority) && |h| == n + 1 && swapped == Heap.Swap(h, 0, n)
    ensures Sinking(swapped, n, 0)
  {
    forall j | 0 < j < n && Heap.Parent(j) != 0
      ensures Heap.InOrder(swapped, Priority, j)
    {
      assert Heap.InOrder(h, Priority, j);
    }
  }

  /** The last item after sinking is the highest, and the others are what is left. */
  lemma PoppedItem(h: seq<Item>, swapped: seq<Item>, r: seq<Item>, n: nat)
    requires Heap.IsHeap(h, Priority)
    requires |h| == n + 1 == |r| && swapped == Heap.Swap(h, 0, n) && r[n..] == swapped[n..] && multiset(r) == multiset(swapped)
    ensures multiset(h) == multiset(r[..|r| - 1]) + multiset{Item(r[|r| - 1].value, r[|r| - 1].priority)}
    ensures forall x :: x in r[..|r| - 1] ==> x.priority <= r[|r| - 1].priority
  {
    hide Heap.IsHeap, Heap.Swap;
    TopIsLast(h, swapped, r, n);
    TopIsHighest(h, r[..n], r[n]);
  }

  lemma TopIsHighest(h: seq<Item>, rest: seq<Item>, top: Item)
    requires Heap.IsHeap(h, Priority) && |h| > 0 && top == h[0] && multiset(h) == multiset(rest) + multiset{top}
    ensures forall x :: x in rest ==> x.priority <= top.priority
  {
    forall x | x in rest
      ensures x.priority <= top.priority
    {
      assert x in multiset(h);
      var j :| 0 <= j < |h| && h[j] == x;
      Heap.RootIsLeast(h, Priority, j);
    }
  }
}
