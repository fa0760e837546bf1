/** The node iterator: a stack of frames walking a partly loaded trie, whose nodes it
    resolves through a node store that may have holes. */
module TrieIterator {
  import opened Wrappers
  import opened Encoding
  import opened Patricia
  import opened TrieMap
  import opened Trie
  import opened TrieOrder

  /** A node on the current path: the child handled last, and the path's length without it. */
  datatype Frame = Frame(node: Node, index: int, pathlen: nat)

  datatype Status =
    | Fine
    | End
    | Missing(hash: Hash, path: seq<Nib>)
    | SeekFailed(start: Bytes, hash: Hash, path: seq<Nib>)

  datatype Peeked =
    | Child(frame: Frame, path: seq<Nib>)
    | Done
    | Unresolved(hash: Hash, path: seq<Nib>)

  // ----- what a stack still has ahead of it -----

  /** The frame on top stands for the expanded node t, and the frame below it led here. */
  ghost predicate FrameAt(all: Store, f: Frame, t: Node, path: seq<Nib>) {
    && f.pathlen <= |path|
    && -1 <= f.index < 17
    && !f.node.HashRef?
    && Expands(all, f.node, t)
    && CanonPart(t)
  }

  /** A full node's index is the nibble by which the path leaves it; a short node is spent. */
  predicate Led(parent: Frame, path: seq<Nib>, pathlen: nat) {
    && (parent.node.Full? ==> pathlen < |path| && path[pathlen] == parent.index)
    && (parent.node.Short? ==> parent.index >= 0)
  }

  ghost predicate Stacked(all: Store, stack: seq<Frame>, ts: seq<Node>, path: seq<Nib>) {
    && |stack| == |ts|
    && (|stack| == 0 ==> |path| == 0)
    && (|stack| > 0 ==>
      var n := |stack| - 1;
      && FrameAt(all, stack[n], ts[n], path)
      && (n > 0 ==> Led(stack[n - 1], path, stack[n].pathlen))
      && Stacked(all, stack[..n], ts[..n], path[..stack[n].pathlen]))
  }

  /** The visits still to come: below each frame, from the top down. */
  ghost function Rest(all: Store, stack: seq<Frame>, ts: seq<Node>, path: seq<Nib>): seq<Visit>
    requires Stacked(all, stack, ts, path)
  {
    if |stack| == 0 then []
    else
      var n := |stack| - 1;
      Below(ts[n], stack[n].index, path) + Rest(all, stack[..n], ts[..n], path[..stack[n].pathlen])
  }

  /** Moving the parent's index on and putting the child above it. */
  function Push(stack: seq<Frame>, f: Frame): seq<Frame> {
    (if |stack| == 0 then stack else Bump(stack, stack[|stack| - 1].index + 1)) + [f]
  }

  function Bump(stack: seq<Frame>, index: int): (r: seq<Frame>)
    requires |stack| > 0
    ensures |r| == |stack|
  {
    var n := |stack| - 1;
    stack[n := stack[n].(index := index)]
  }

  lemma BumpStacked(all: Store, stack: seq<Frame>, ts: seq<Node>, path: seq<Nib>, index: int)
    requires |stack| > 0 && Stacked(all, stack, ts, path) && -1 <= index < 17
    ensures Stacked(all, Bump(stack, index), ts, path)
    ensures var n := |stack| - 1;
            Rest(all, Bump(stack, index), ts, path)
            == Below(ts[n], index, path) + Rest(all, stack[..n], ts[..n], path[..stack[n].pathlen])
  {
    var n := |stack| - 1;
    assert Bump(stack, index)[..n] == stack[..n];
  }

  lemma RootPushed(all: Store, node: Node, t: Node)
    requires FrameAt(all, Frame(node, -1, 0), t, [])
    ensures var s := Push([], Frame(node, -1, 0));
            Stacked(all, s, [t], []) && Rest(all, s, [t], []) == Below(t, -1, [])
  {
    var s := [Frame(node, -1, 0)];
    assert s[..0] == [] && [t][..0] == [];
    assert Push([], Frame(node, -1, 0)) == s;
  }

  /** One level up in the stack. */
  lemma PushOn(all: Store, stack: seq<Frame>, ts: seq<Node>, path: seq<Nib>, f: Frame, t: Node, path': seq<Nib>)
    requires |stack| > 0 && Stacked(all, stack, ts, path)
    requires path <= path' && f.pathlen == |path| && f.index == -1
    requires FrameAt(all, f, t, path') && Led(stack[|stack| - 1], path', |path|)
    ensures Stacked(all, stack + [f], ts + [t], path')
    ensures Rest(all, stack + [f], ts + [t], path') == Below(t, -1, path') + Rest(all, stack, ts, path)
  {
    assert (stack + [f])[..|stack|] == stack;
    assert (ts + [t])[..|ts|] == ts;
    assert path'[..|path|] == path;
  }

  lemma Regroup(v: Visit, a: seq<Visit>, b: seq<Visit>, rest: seq<Visit>)
    ensures ([v] + a + b) + rest == [v] + (a + (b + rest))
    ensures ([v] + a) + rest == [v] + (a + rest)
  {
  }

  lemma NextBelow(t: Node, c: nat, path: seq<Nib>)
    requires t.Full? && c < 17 && c < |t.children| && !t.children[c].Nil?
    ensures Below(t, c - 1, path) == [Visit(path + [c], t.children[c])] + Below(t.children[c], -1, path + [c]) + Below(t, c, path)
  {
    assert Visits(t.children[c], path + [c]) == [Visit(path + [c], t.children[c])] + Below(t.children[c], -1, path + [c]);
  }

  /** Pushing a full node's next child visits it next. */
  lemma FullPushed(all: Store, stack: seq<Frame>, ts: seq<Node>, path: seq<Nib>, f: Frame)
    requires |stack| > 0 && Stacked(all, stack, ts, path)
    requires var n := |stack| - 1;
             var c := stack[n].index + 1;
             && stack[n].node.Full? && c < 17
             && f.pathlen == |path| && f.index == -1 && !ts[n].children[c].Nil?
             && FrameAt(all, f, ts[n].children[c], path + [c])
    ensures var n := |stack| - 1;
            var c := stack[n].index + 1;
            var t := ts[n].children[c];
            && Stacked(all, Push(stack, f), ts + [t], path + [c])
            && Rest(all, stack, ts, path) == [Visit(path + [c], t)] + Rest(all, Push(stack, f), ts + [t], path + [c])
  {
    var n := |stack| - 1;
    var c := stack[n].index + 1;
    var t := ts[n].children[c];
    BumpStacked(all, stack, ts, path, c);
    PushOn(all, Bump(stack, c), ts, path, f, t, path + [c]);
    NextBelow(ts[n], c, path);
    hide Stacked, Rest, Below, FrameAt, Led;
    Regroup(Visit(path + [c], t), Below(t, -1, path + [c]), Below(ts[n], c, path),
            Rest(all, stack[..n], ts[..n], path[..stack[n].pathlen]));
  }

  lemma ShortPushed(all: Store, stack: seq<Frame>, ts: seq<Node>, path: seq<Nib>, f: Frame)
    requires |stack| > 0 && Stacked(all, stack, ts, path)
    requires var n := |stack| - 1;
             && stack[n].node.Short? && stack[n].index == -1
             && f.pathlen == |path| && f.index == -1 && !ts[n].val.Nil?
             && FrameAt(all, f, ts[n].val, path + ts[n].key)
    ensures var n := |stack| - 1;
            var t := ts[n].val;
            && Stacked(all, Push(stack, f), ts + [t], path + ts[n].key)
            && Rest(all, stack, ts, path)
               == [Visit(path + ts[n].key, t)] + Rest(all, Push(stack, f), ts + [t], path + ts[n].key)
  {
    var n := |stack| - 1;
    var t := ts[n].val;
    BumpStacked(all, stack, ts, path, 0);
    PushOn(all, Bump(stack, 0), ts, path, f, t, path + ts[n].key);
    assert Below(ts[n], 0, path) == [];
    assert Below(ts[n], -1, path) == [Visit(path + ts[n].key, t)] + Below(t, -1, path + ts[n].key);
    Regroup(Visit(path + ts[n].key, t), Below(t, -1, path + ts[n].key), [],
            Rest(all, stack[..n], ts[..n], path[..stack[n].pathlen]));
  }

  // ----- leaving a subtrie -----

  /** What remains once the top frame is popped lies outside its subtrie. */
  lemma {:induction false} RestAside(all: Store, stack: seq<Frame>, ts: seq<Node>, path: seq<Nib>, p: seq<Nib>, i: nat)
    requires Stacked(all, stack, ts, path) && path <= p && i < |Rest(all, stack, ts, path)|
    requires |stack| > 0 ==> Led(stack[|stack| - 1], p, |path|)
    ensures !(p <= Rest(all, stack, ts, path)[i].path)
  {
    var n := |stack| - 1;
    var t, index := ts[n], stack[n].index;
    BelowSorted(t, index, path);
    if i < |Below(t, index, path)| {
      assert stack[n].node.Full? by {
        assert t.Full? || t.Short?;
      }
      assert Below(t, index, path)[i].path[|path|] > index;
    } else {
      var q := path[..stack[n].pathlen];
      assert q <= p by { assert q == p[..|q|]; }
      if n > 0 {
        assert stack[..n][n - 1] == stack[n - 1];
        assert Led(stack[n - 1], p, |q|);
      }
      RestAside(all, stack[..n], ts[..n], q, p, i - |Below(t, index, path)|);
    }
  }

  // ----- seeking -----

  function SeekKey(start: Bytes): seq<Nib> {
    Nibbles(start)
  }

  predicate ProperPrefix(a: seq<Nib>, b: seq<Nib>) {
    a <= b && |a| < |b|
  }

  lemma ProperPrefixBefore(a: seq<Nib>, b: seq<Nib>)
    requires ProperPrefix(a, b)
    ensures Before(a, b)
  {
    PrefixBefore(a, b[|a|..]);
    assert b == a + b[|a|..];
  }

  /** A seek in progress: the current path is before the key, its parent's leads to it. */
  predicate Seeking(stack: seq<Frame>, path: seq<Nib>, key: seq<Nib>) {
    |stack| > 0 ==>
      Before(path, key) && stack[|stack| - 1].pathlen <= |path| && ProperPrefix(path[..stack[|stack| - 1].pathlen], key)
  }

  ghost predicate BeforeAll(vs: seq<Visit>, lo: nat, hi: nat, key: seq<Nib>) {
    hi <= |vs| && forall i :: lo <= i < hi ==> Before(vs[i].path, key)
  }

  /** Descending only along the key, or popping, leaves a path that leads to it. */
  lemma StillSeeking(stack: seq<Frame>, path: seq<Nib>, key: seq<Nib>, path': seq<Nib>)
    requires |stack| > 0 && Seeking(stack, path, key)
    requires (path' == path && path <= key) || path' <= path[..stack[|stack| - 1].pathlen]
    ensures ProperPrefix(path', key)
    ensures forall n :: 0 <= n <= |path'| ==> ProperPrefix(path'[..n], key)
  {
    BeforeTotal(path, key);
    if path <= key {
      assert |path| == |key| ==> path == key;
    }
    forall n | 0 <= n <= |path'|
      ensures ProperPrefix(path'[..n], key)
    {
      assert path'[..n] <= path';
    }
  }

  /** What is skipped below a path before the key, and not on the way to it, is before the key. */
  lemma SkippedBefore(vs: seq<Visit>, lo: nat, hi: nat, path: seq<Nib>, key: seq<Nib>)
    requires Skipped(vs, lo, hi, path) && Before(path, key) && !(path <= key)
    requires BeforeAll(vs, 0, lo, key)
    ensures BeforeAll(vs, 0, hi, key)
  {
    forall i | lo <= i < hi
      ensures Before(vs[i].path, key)
    {
      BeforeAside(path, key, vs[i].path[|path|..]);
      assert vs[i].path == path + vs[i].path[|path|..];
    }
  }

  /** In ascending order nothing after a visit at or past the key is before it. */
  lemma PastAll(vs: seq<Visit>, lo: nat, key: seq<Nib>)
    requires Sorted(vs) && lo < |vs| && !Before(vs[lo].path, key)
    ensures forall i :: lo <= i < |vs| ==> !Before(vs[i].path, key)
  {
    forall i | lo < i < |vs|
      ensures !Before(vs[i].path, key)
    {
      if Before(vs[i].path, key) {
        BeforeTransitive(vs[lo].path, vs[i].path, key);
      }
    }
  }

  // ----- the next child -----

  /** The child that follows the top frame's index, or lies below a fresh short node. */
  ghost predicate Leads(stack: seq<Frame>, ts: seq<Node>, path: seq<Nib>, t: Node, path': seq<Nib>) {
    && 0 < |stack| == |ts|
    && var f, parent := stack[|stack| - 1], ts[|stack| - 1];
       || (f.node.Full? && parent.Full? && -1 <= f.index < 16 && f.index + 1 < |parent.children|
           && t == parent.children[f.index + 1] && path' == path + [f.index + 1])
       || (f.node.Short? && parent.Short? && f.index == -1 && t == parent.val && path' == path + parent.key)
  }

  lemma LeadsPushed(all: Store, stack: seq<Frame>, ts: seq<Node>, path: seq<Nib>, f: Frame, t: Node, path': seq<Nib>)
    requires Stacked(all, stack, ts, path) && Leads(stack, ts, path, t, path') && !t.Nil?
    requires FrameAt(all, f, t, path') && f.pathlen == |path| && f.index == -1
    ensures Stacked(all, Push(stack, f), ts + [t], path')
    ensures Rest(all, stack, ts, path) == [Visit(path', t)] + Rest(all, Push(stack, f), ts + [t], path')
  {
    if stack[|stack| - 1].node.Full? {
      FullPushed(all, stack, ts, path, f);
    } else {
      ShortPushed(all, stack, ts, path, f);
    }
  }

  lemma ChildExpands(all: Store, cs: seq<Node>, ts: seq<Node>, i: nat)
    requires Expands(all, Full(cs), Full(ts)) && CanonPart(Full(ts)) && i < 17
    ensures |cs| == |ts| == 17 && Expands(all, cs[i], ts[i]) && CanonPart(ts[i])
    ensures cs[i].Nil? <==> ts[i].Nil?
  {
    CanonChildPart(ts, i);
  }

  /** A resolved node expands as the reference did. */
  lemma ResolvedExpands(all: Store, n: Node, t: Node)
    requires ShapeStore(all) && Expands(all, n, t)
    ensures n.HashRef? ==> n.h in all && !all[n.h].HashRef? && Expands(all, all[n.h], t)
  {
  }

  /** Passing over empty children leaves nothing out. */
  lemma {:induction false} EmptyChildren(all: Store, cs: seq<Node>, t: Node, index: int, i: int, path: seq<Nib>)
    requires Expands(all, Full(cs), t) && CanonPart(t) && -1 <= index < i <= 17
    requires forall k :: index < k < i ==> k < |cs| && cs[k].Nil?
    ensures Below(t, index, path) == Below(t, i - 1, path)
    decreases i - index
  {
    if index + 1 < i {
      ChildExpands(all, cs, t.children, index + 1);
      EmptyChildren(all, cs, t, index + 1, i, path);
    }
  }

  ghost predicate Offers(all: Store, stack: seq<Frame>, ts: seq<Node>, path: seq<Nib>, n: Node, t: Node, path': seq<Nib>) {
    && Leads(stack, ts, path, t, path')
    && path <= path'
    && Expands(all, n, t)
    && CanonPart(t)
    && !t.Nil?
  }

  lemma FullOffers(all: Store, stack: seq<Frame>, ts: seq<Node>, path: seq<Nib>, i: nat)
    requires |stack| > 0 && Stacked(all, stack, ts, path)
    requires var f := stack[|stack| - 1];
             && f.node.Full? && f.index < i < 17 && i < |f.node.children| && !f.node.children[i].Nil?
             && forall k :: f.index < k < i ==> f.node.children[k].Nil?
    ensures var s := Bump(stack, i - 1);
            && Stacked(all, s, ts, path) && Rest(all, s, ts, path) == Rest(all, stack, ts, path)
            && ts[|ts| - 1].Full? && i < |ts[|ts| - 1].children|
            && Offers(all, s, ts, path, stack[|stack| - 1].node.children[i], ts[|ts| - 1].children[i], path + [i])
  {
    var n := |stack| - 1;
    var f, t := stack[n], ts[n];
    ChildExpands(all, f.node.children, t.children, i);
    EmptyChildren(all, f.node.children, t, f.index, i, path);
    BumpStacked(all, stack, ts, path, i - 1);
  }

  lemma ShortOffers(all: Store, stack: seq<Frame>, ts: seq<Node>, path: seq<Nib>)
    requires |stack| > 0 && Stacked(all, stack, ts, path)
    requires stack[|stack| - 1].node.Short? && stack[|stack| - 1].index < 0
    ensures ts[|ts| - 1].Short?
    ensures Offers(all, stack, ts, path, stack[|stack| - 1].node.val, ts[|ts| - 1].val, path + stack[|stack| - 1].node.key)
  {
  }

  lemma Exhausted(all: Store, stack: seq<Frame>, ts: seq<Node>, path: seq<Nib>)
    requires |stack| > 0 && Stacked(all, stack, ts, path)
    requires var f := stack[|stack| - 1];
             && (f.node.Short? ==> f.index >= 0)
             && (f.node.Full? ==> forall k :: f.index < k < 17 ==> k < |f.node.children| && f.node.children[k].Nil?)
    ensures Below(ts[|ts| - 1], stack[|stack| - 1].index, path) == []
  {
    var n := |stack| - 1;
    if stack[n].node.Full? {
      EmptyChildren(all, stack[n].node.children, ts[n], stack[n].index, 17, path);
    }
  }

  lemma StackedNode(all: Store, stack: seq<Frame>, ts: seq<Node>, path: seq<Nib>)
    requires |stack| > 0 && Stacked(all, stack, ts, path)
    ensures var f := stack[|stack| - 1];
            |stack| == |ts| && -1 <= f.index < 17 && f.pathlen <= |path| && (f.node.Full? ==> |f.node.children| == 17)
  {
    var n := |stack| - 1;
    if stack[n].node.Full? {
      ChildExpands(all, stack[n].node.children, ts[n].children, 0);
    }
  }

  /** Popping the top frame skips exactly what lies below it. */
  lemma PopSkips(all: Store, stack: seq<Frame>, ts: seq<Node>, path: seq<Nib>, vs: seq<Visit>, seen: nat)
    requires |stack| > 0 && Stacked(all, stack, ts, path)
    requires seen <= |vs| && Rest(all, stack, ts, path) == vs[seen..]
    ensures var n := |stack| - 1;
            var k := seen + |Below(ts[n], stack[n].index, path)|;
            && Stacked(all, stack[..n], ts[..n], path[..stack[n].pathlen])
            && k <= |vs| && Rest(all, stack[..n], ts[..n], path[..stack[n].pathlen]) == vs[k..]
            && Skipped(vs, seen, k, path)
  {
    hide Below, CanonPart, Expands;
    var n := |stack| - 1;
    var below, rest := Below(ts[n], stack[n].index, path), Rest(all, stack[..n], ts[..n], path[..stack[n].pathlen]);
    TwoParts(vs, seen, below, rest);
    BelowSorted(ts[n], stack[n].index, path);
    forall i | 0 <= i < |rest|
      ensures !(path <= rest[i].path)
    {
      PoppedAside(all, stack, ts, path, i);
    }
    PartsSkipped(vs, seen, below, rest, path);
  }

  lemma TwoParts(vs: seq<Visit>, seen: nat, a: seq<Visit>, b: seq<Visit>)
    requires seen <= |vs| && vs[seen..] == a + b
    ensures seen + |a| <= |vs| && vs[seen + |a|..] == b && vs[seen..seen + |a|] == a
  {
    assert vs[seen..][|a|..] == vs[seen + |a|..] && vs[seen..][..|a|] == vs[seen..seen + |a|];
  }

  lemma PartsSkipped(vs: seq<Visit>, seen: nat, a: seq<Visit>, b: seq<Visit>, path: seq<Nib>)
    requires seen + |a| <= |vs| && vs[seen + |a|..] == b && vs[seen..seen + |a|] == a
    requires (forall i :: 0 <= i < |a| ==> path <= a[i].path) && forall i :: 0 <= i < |b| ==> !(path <= b[i].path)
    ensures Skipped(vs, seen, seen + |a|, path)
  {
    forall i | seen <= i < seen + |a|
      ensures path <= vs[i].path
    {
      assert vs[i] == a[i - seen];
    }
    forall i | seen + |a| <= i < |vs|
      ensures !(path <= vs[i].path)
    {
      assert vs[i] == b[i - seen - |a|];
    }
  }

  lemma PoppedAside(all: Store, stack: seq<Frame>, ts: seq<Node>, path: seq<Nib>, i: nat)
    requires |stack| > 0 && Stacked(all, stack, ts, path)
    requires i < |Rest(all, stack[..|stack| - 1], ts[..|stack| - 1], path[..stack[|stack| - 1].pathlen])|
    ensures !(path <= Rest(all, stack[..|stack| - 1], ts[..|stack| - 1], path[..stack[|stack| - 1].pathlen])[i].path)
  {
    hide Below, CanonPart, Expands, Rest;
    var n := |stack| - 1;
    if n > 0 {
      assert stack[..n][n - 1] == stack[n - 1];
      assert Led(stack[n - 1], path, stack[n].pathlen);
    }
    RestAside(all, stack[..n], ts[..n], path[..stack[n].pathlen], path, i);
  }

  /** From lo to hi are the visits under the path; none comes later. */
  ghost predicate Skipped(vs: seq<Visit>, lo: nat, hi: nat, path: seq<Nib>) {
    && lo <= hi <= |vs|
    && (forall i :: lo <= i < hi ==> path <= vs[i].path)
    && (forall i :: hi <= i < |vs| ==> !(path <= vs[i].path))
  }

  /** Pushing this child onto the stack makes it the visit at `seen`. */
  ghost predicate Arrives(all: Store, stack: seq<Frame>, ts: seq<Node>, vs: seq<Visit>, seen: nat, f: Frame, t: Node, path': seq<Nib>) {
    && seen < |vs|
    && vs[seen] == Visit(path', t)
    && Expands(all, f.node, t)
    && Stacked(all, Push(stack, f), ts + [t], path')
    && Rest(all, Push(stack, f), ts + [t], path') == vs[seen + 1..]
  }

  lemma RootArrives(all: Store, node: Node, t: Node)
    requires Canon(t) && !node.HashRef? && Expands(all, node, t)
    ensures Arrives(all, [], [], AllVisits(t), 0, Frame(node, -1, 0), t, [])
  {
    RootPushed(all, node, t);
    assert [] + [t] == [t];
    assert AllVisits(t)[1..] == Below(t, -1, []);
  }

  lemma ChildArrives(all: Store, stack: seq<Frame>, ts: seq<Node>, path: seq<Nib>, vs: seq<Visit>, seen: nat,
                     n: Node, t: Node, path': seq<Nib>, node: Node)
    requires ShapeStore(all) && Stacked(all, stack, ts, path) && Offers(all, stack, ts, path, n, t, path')
    requires seen <= |vs| && Rest(all, stack, ts, path) == vs[seen..]
    requires node == Loaded(all, n) && (n.HashRef? ==> n.h in all)
    ensures Arrives(all, stack, ts, vs, seen, Frame(node, -1, |path|), t, path')
  {
    ResolvedExpands(all, n, t);
    var f := Frame(node, -1, |path|);
    LeadsPushed(all, stack, ts, path, f, t, path');
    var rest := Rest(all, Push(stack, f), ts + [t], path');
    assert vs[seen..] == [Visit(path', t)] + rest;
    assert vs[seen] == vs[seen..][0];
    assert vs[seen + 1..] == vs[seen..][1..] == rest;
  }

  lemma EmptyPath(all: Store, stack: seq<Frame>, ts: seq<Node>, path: seq<Nib>)
    requires Stacked(all, stack, ts, path) && |stack| == 0
    ensures ts == [] && path == []
  {
  }

  lemma RestEmpty(all: Store, ts: seq<Node>, path: seq<Nib>)
    requires Stacked(all, [], ts, path)
    ensures Rest(all, [], ts, path) == []
  {
  }

  lemma ArrivesAt(all: Store, stack: seq<Frame>, ts: seq<Node>, vs: seq<Visit>, seen: nat, f: Frame, t: Node, path': seq<Nib>)
    requires Arrives(all, stack, ts, vs, seen, f, t, path')
    ensures seen < |vs| && vs[seen].path == path'
  {
  }

  lemma BeforeNothing(a: seq<Nib>, b: seq<Nib>)
    requires Before(a, b)
    ensures |b| > 0
  {
  }

  class NodeIterator {
    const db: Store
    const root: Node
    ghost const all: Store  // the store with its holes filled
    ghost const full: Node  // the expansion of root through it
    var stack: seq<Frame>
    var path: seq<Nib>
    var err: Status
    ghost var ts: seq<Node>  // the expansions of the frames' nodes
    ghost var seen: nat      // how many visits of the trie are behind

    ghost predicate Placed()
      reads this
    {
      && ShapeStore(all)
      && (forall h :: h in db ==> h in all && db[h] == all[h])
      && Canon(full)
      && Expands(all, root, full)
      && Stacked(all, stack, ts, path)
      && seen <= |AllVisits(full)|
    }

    /** What the stack has ahead of it is what the trie has after the visits behind. */
    ghost predicate At()
      reads this
    {
      && Placed()
      && if |stack| == 0 then seen == 0 else Rest(all, stack, ts, path) == AllVisits(full)[seen..]
    }

    ghost predicate Valid()
      reads this
    {
      && Placed()
      && (if err.End? then seen == |AllVisits(full)| else At())
      && (err.SeekFailed? ==>
        && Seeking(stack, path, SeekKey(err.start))
        && BeforeAll(AllVisits(full), 0, seen, SeekKey(err.start)))
    }

    constructor (db: Store, root: Node, start: Bytes, ghost all: Store, ghost full: Node)
      requires ShapeStore(all) && (forall h :: h in db ==> h in all && db[h] == all[h])
      requires Canon(full) && Expands(all, root, full)
      ensures Valid() && this.db == db && this.root == root && this.all == all && this.full == full
      ensures BeforeAll(AllVisits(full), 0, seen, SeekKey(start))
      ensures err.Fine? || err.End? ==>
        forall i :: seen <= i < |AllVisits(full)| ==> !Before(AllVisits(full)[i].path, SeekKey(start))
      ensures err.Fine? || err.End? || (err.SeekFailed? && err.start == start && err.hash !in db)
    {
      this.db, this.root, this.all, this.full := db, root, all, full;
      stack, path, ts, seen, err := [], [], [], 0, Fine;
      new;
      err := Seek(start);
    }

    /** The next child of the top frame; only the frame's own index moves. */
    method NextChild() returns (child: Option<Node>, path': seq<Nib>, ghost t: Node)
      requires At() && |stack| > 0
      modifies this`stack
      ensures At() && |stack| == |old(stack)|
      ensures stack[|stack| - 1].pathlen == old(stack[|stack| - 1].pathlen)
      ensures child.None? ==> Below(ts[|ts| - 1], stack[|stack| - 1].index, path) == []
      ensures child.Some? ==> Offers(all, stack, ts, path, child.value, t, path')
    {
      hide Stacked, Rest, Below, Leads, Expands, CanonPart, Canon, AllVisits, Visits;
      var n := |stack| - 1;
      var parent := stack[n];
      StackedNode(all, stack, ts, path);
      child, path', t := None, path, ts[n];
      match parent.node
      case Full(cs) =>
        var i := parent.index + 1;
        while i < 17
          invariant parent.index < i <= 17
          invariant stack == old(stack) && child == None
          invariant forall k :: parent.index < k < i ==> cs[k].Nil?
        {
          if !cs[i].Nil? {
            FullOffers(all, stack, ts, path, i);
            stack := Bump(stack, i - 1);
            child, path', t := Some(cs[i]), path + [i], ts[n].children[i];
            return;
          }
          i := i + 1;
        }
        Exhausted(all, stack, ts, path);
      case Short(k, v) =>
        if parent.index < 0 {
          ShortOffers(all, stack, ts, path);
          child, path', t := Some(v), path + k, ts[n].val;
        } else {
          Exhausted(all, stack, ts, path);
        }
      case _ =>
        Exhausted(all, stack, ts, path);
    }

    method Pop()
      requires |stack| > 0 && |ts| == |stack| && stack[|stack| - 1].pathlen <= |path|
      modifies this`stack, this`path, this`ts
      ensures var n := |old(stack)| - 1;
              && stack == old(stack)[..n] && ts == old(ts)[..n]
              && path == old(path)[..old(stack)[n].pathlen]
    {
      var n := |stack| - 1;
      path := path[..stack[n].pathlen];
      stack, ts := stack[..n], ts[..n];
    }

    /** Finds the state of the next visit without moving to it; only finished frames, and
        with `descend` false the current one, are popped on the way. */
    method Peek(descend: bool) returns (r: Peeked, ghost t: Node)
      requires At()
      modifies this`stack, this`path, this`ts, this`seen
      ensures if r.Done? then Placed() && seen == |AllVisits(full)| else At()
      ensures seen >= old(seen)
      ensures r.Child? ==>
        r.frame.pathlen == |path| && path <= r.path && Arrives(all, stack, ts, AllVisits(full), seen, r.frame, t, r.path)
      ensures r.Unresolved? ==> r.hash !in db
      ensures if descend || |old(stack)| == 0 then seen == old(seen)
              else Skipped(AllVisits(full), old(seen), seen, old(path))
      ensures |old(stack)| == 0 ==> !r.Done? && |stack| == 0
      ensures |old(stack)| > 0 ==>
        (descend && path == old(path)) || path <= old(path)[..old(stack[|stack| - 1].pathlen)]
    {
      hide Stacked, Rest, Below, Leads, Expands, CanonPart, Canon, AllVisits, Visits, Shape, Arrives, Skipped;
      t := full;
      if |stack| == 0 {
        var node := Patricia.Resolve(db, root, []);
        ResolvedExpands(all, root, full);
        if node.MissingNode? {
          return Unresolved(node.hash, node.path), t;
        }
        RootArrives(all, node.value, full);
        EmptyPath(all, stack, ts, path);
        return Child(Frame(node.value, -1, 0), []), t;
      }
      StackedNode(all, stack, ts, path);
      if !descend {
        PopSkips(all, stack, ts, path, AllVisits(full), seen);
        seen := seen + |Below(ts[|ts| - 1], stack[|stack| - 1].index, path)|;
        Pop();
      }
      ghost var bound := old(path)[..old(stack[|stack| - 1].pathlen)];
      ghost var passed := seen;
      while |stack| > 0
        invariant Placed() && Rest(all, stack, ts, path) == AllVisits(full)[seen..] && seen == passed
        invariant path <= bound
          || (descend && path == old(path) && |stack| > 0 && stack[|stack| - 1].pathlen == old(stack[|stack| - 1].pathlen))
        decreases |stack|
      {
        var child, path';
        child, path', t := NextChild();
        if child.Some? {
          var node := Patricia.Resolve(db, child.value, path');
          if node.MissingNode? {
            return Unresolved(node.hash, node.path), t;
          }
          ChildArrives(all, stack, ts, path, AllVisits(full), seen, child.value, t, path', node.value);
          return Child(Frame(node.value, -1, |path|), path'), t;
        }
        StackedNode(all, stack, ts, path);
        PopSkips(all, stack, ts, path, AllVisits(full), seen);
        Pop();
      }
      RestEmpty(all, ts, path);
      return Done, t;
    }

    method PushChild(child: Peeked, ghost t: Node)
      requires At() && child.Child? && Arrives(all, stack, ts, AllVisits(full), seen, child.frame, t, child.path)
      modifies this`stack, this`path, this`ts, this`seen
      ensures At() && seen == old(seen) + 1 && stack == Push(old(stack), child.frame) && path == child.path
      ensures Here(old(seen))
    {
      path, stack := child.path, Push(stack, child.frame);
      ts, seen := ts + [t], seen + 1;
    }

    /** The iterator stands at the i-th visit of the trie. */
    ghost predicate Here(i: nat)
      reads this
    {
      && i < |AllVisits(full)| && |stack| > 0
      && path == AllVisits(full)[i].path
      && Expands(all, stack[|stack| - 1].node, AllVisits(full)[i].node)
    }

    /** One look ahead of a seek. */
    method SeekStep(key: seq<Nib>) returns (r: Peeked, ghost t: Node)
      requires At() && Seeking(stack, path, key) && BeforeAll(AllVisits(full), 0, seen, key)
      modifies this`stack, this`path, this`ts, this`seen
      ensures if r.Done? then Placed() && seen == |AllVisits(full)| else At()
      ensures BeforeAll(AllVisits(full), 0, seen, key) && seen >= old(seen)
      ensures r.Child? ==>
        r.frame.pathlen == |path| && path <= r.path && Arrives(all, stack, ts, AllVisits(full), seen, r.frame, t, r.path)
      ensures r.Unresolved? ==> r.hash !in db
      ensures Seeking(stack, path, key) && (|stack| > 0 ==> ProperPrefix(path, key))
    {
      hide Stacked, Rest, Expands, Canon, AllVisits, Visits, Shape, Arrives;
      ghost var stack0, path0, seen0 := stack, path, seen;
      r, t := Peek(path <= key);
      if |stack0| > 0 {
        if !(path0 <= key) {
          SkippedBefore(AllVisits(full), seen0, seen, path0, key);
        }
        StillSeeking(stack0, path0, key, path);
        if |stack| > 0 {
          StackedNode(all, stack, ts, path);
          ProperPrefixBefore(path, key);
        }
      }
    }

    /** Moves to just before the first visit at or past the key. */
    method Seek(start: Bytes) returns (status: Status)
      requires At() && Seeking(stack, path, SeekKey(start)) && BeforeAll(AllVisits(full), 0, seen, SeekKey(start))
      modifies this`stack, this`path, this`ts, this`seen
      ensures if status.End? then Placed() && seen == |AllVisits(full)| else At()
      ensures BeforeAll(AllVisits(full), 0, seen, SeekKey(start)) && seen >= old(seen)
      ensures status.Fine? ==> forall i :: seen <= i < |AllVisits(full)| ==> !Before(AllVisits(full)[i].path, SeekKey(start))
      ensures !status.Fine? && !status.End? ==>
        status.SeekFailed? && status.start == start && status.hash !in db && Seeking(stack, path, SeekKey(start))
    {
      hide Stacked, Rest, Expands, Canon, AllVisits, Visits, Shape, Arrives, Skipped, Sorted, Before;
      var key := Nibbles(start);
      while true
        invariant At() && Seeking(stack, path, key) && BeforeAll(AllVisits(full), 0, seen, key) && seen >= old(seen)
        decreases |AllVisits(full)| - seen
      {
        var r, t := SeekStep(key);
        match r
        case Done => return End;
        case Unresolved(h, p) => return SeekFailed(start, h, p);
        case Child(f, p) =>
          if !Before(p, key) {
            AllVisitsSorted(full);
            ArrivesAt(all, stack, ts, AllVisits(full), seen, f, t, p);
            PastAll(AllVisits(full), seen, key);
            return Fine;
          }
          if |stack| == 0 {
            EmptyPath(all, stack, ts, path);
            BeforeNothing(p, key);
          }
          ghost var parent := path;
          PushChild(r, t);
          assert path[..|parent|] == parent;
      }
    }

    /** Moves to the next node; `descend` false skips what lies below the current one. */
    method Next(descend: bool) returns (ok: bool)
      requires Valid()
      modifies this`stack, this`path, this`ts, this`seen, this`err
      ensures Valid() && old(seen) <= seen <= |AllVisits(full)|
      ensures ok <==> err.Fine?
      ensures ok ==> seen > old(seen) && Here(seen - 1)
      ensures err.Missing? || err.SeekFailed? ==> err.hash !in db
      ensures old(err.End?) ==> err.End?
      ensures !old(err.SeekFailed? || err.End?) && (descend || |old(stack)| == 0) ==>
        seen == old(seen) + if ok then 1 else 0
      ensures !old(err.SeekFailed? || err.End?) && !descend && |old(stack)| > 0 ==>
        Skipped(AllVisits(full), old(seen), if ok then seen - 1 else seen, old(path))
      ensures old(err.SeekFailed?) && descend ==>
        && BeforeAll(AllVisits(full), 0, if ok then seen - 1 else seen, SeekKey(old(err).start))
        && (ok ==> !Before(AllVisits(full)[seen - 1].path, SeekKey(old(err).start)))
    {
      hide Stacked, Rest, Expands, Canon, AllVisits, Visits, Shape, Arrives, Skipped, Sorted, Before, BeforeAll, Seeking, Push, Below, ShapeStore;
      if err.End? {
        return false;
      }
      if err.SeekFailed? {
        err := Seek(err.start);
        if !err.Fine? {
          return false;
        }
      }
      var r, t := Peek(descend);
      match r
      case Done =>
        err := End;
        return false;
      case Unresolved(h, p) =>
        err := Missing(h, p);
        return false;
      case Child(f, p) =>
        err := Fine;
        ArrivesAt(all, stack, ts, AllVisits(full), seen, f, t, p);
        PushChild(r, t);
        return true;
    }
  }
}
