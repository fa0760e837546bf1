/** The nodes of a loaded trie in pre-order: ascending by path, with exactly its entries as
    leaves. */
module TrieOrder {
  import opened Wrappers
  import opened Encoding
  import opened Patricia
  import opened TrieMap

  // ----- paths in lexicographic order -----

  predicate Before(a: seq<Nib>, b: seq<Nib>) {
    |b| > 0 && (|a| == 0 || a[0] < b[0] || (a[0] == b[0] && Before(a[1..], b[1..])))
  }

  lemma {:induction false} BeforeTransitive(a: seq<Nib>, b: seq<Nib>, c: seq<Nib>)
    requires Before(a, b) && Before(b, c)
    ensures Before(a, c)
  {
    if |a| > 0 && a[0] == b[0] && b[0] == c[0] {
      BeforeTransitive(a[1..], b[1..], c[1..]);
    }
  }

  lemma {:induction false} BeforeTotal(a: seq<Nib>, b: seq<Nib>)
    ensures Before(a, b) || Before(b, a) || a == b
    ensures !(Before(a, b) && Before(b, a)) && !Before(a, a)
  {
    if |a| > 0 && |b| > 0 && a[0] == b[0] {
      BeforeTotal(a[1..], b[1..]);
      assert a == [a[0]] + a[1..] && b == [b[0]] + b[1..];
    }
    if |a| > 0 {
      BeforeTotal(a[1..], a[1..]);
    }
  }

  lemma {:induction false} PrefixBefore(a: seq<Nib>, x: seq<Nib>)
    requires |x| > 0
    ensures Before(a, a + x)
  {
    if |a| > 0 {
      PrefixBefore(a[1..], x);
      assert (a + x)[1..] == a[1..] + x;
    }
  }

  lemma {:induction false} BeforeBelow(p: seq<Nib>, x: seq<Nib>, y: seq<Nib>)
    ensures Before(p + x, p + y) <==> Before(x, y)
  {
    if |p| == 0 {
      assert p + x == x && p + y == y;
    } else {
      BeforeBelow(p[1..], x, y);
      assert (p + x)[1..] == p[1..] + x && (p + y)[1..] == p[1..] + y;
    }
  }

  lemma TailPrefix(a: seq<Nib>, b: seq<Nib>)
    requires |a| > 0 && |b| > 0 && a[0] == b[0]
    ensures a[1..] <= b[1..] ==> a <= b
  {
    assert a == [a[0]] + a[1..] && b == [b[0]] + b[1..];
  }

  lemma PrefixBelow(p: seq<Nib>, x: seq<Nib>, y: seq<Nib>)
    ensures p + x <= p + y <==> x <= y
  {
    assert (p + x)[|p|..] == x && (p + y)[|p|..] == y;
    if p + x <= p + y {
      assert (p + y)[..|p + x|] == p + x;
      assert y[..|x|] == (p + y)[|p|..|p + x|] == (p + x)[|p|..];
    }
  }

  /** Before a path without being a prefix of it: then so is everything below. */
  lemma {:induction false} BeforeAside(a: seq<Nib>, b: seq<Nib>, x: seq<Nib>)
    requires Before(a, b) && !(a <= b)
    ensures Before(a + x, b)
  {
    if |a| > 0 && a[0] == b[0] {
      TailPrefix(a, b);
      BeforeAside(a[1..], b[1..], x);
      assert (a + x)[1..] == a[1..] + x;
    }
  }

  // ----- visits -----

  datatype Visit = Visit(path: seq<Nib>, node: Node)

  /** A node and what is below it. */
  function Visits(t: Node, path: seq<Nib>): seq<Visit>
    decreases t, 18
  {
    if t.Nil? then [] else [Visit(path, t)] + Below(t, -1, path)
  }

  /** What is below a node, from the children after `index` on. */
  function Below(t: Node, index: int, path: seq<Nib>): seq<Visit>
    requires -1 <= index < 17
    decreases t, 16 - index
  {
    match t
    case Full(cs) =>
      if index == 16 || index + 1 >= |cs| then []
      else Visits(cs[index + 1], path + [index + 1]) + Below(t, index + 1, path)
    case Short(k, v) => if index < 0 then Visits(v, path + k) else []
    case _ => []
  }

  /** All of an iteration; the root is visited even when there is nothing. */
  function AllVisits(t: Node): seq<Visit> {
    [Visit([], t)] + Below(t, -1, [])
  }

  predicate Sorted(vs: seq<Visit>) {
    forall i, j :: 0 <= i < j < |vs| ==> Before(vs[i].path, vs[j].path)
  }

  /** Every visit is below the path. */
  predicate Under(vs: seq<Visit>, path: seq<Nib>) {
    forall i :: 0 <= i < |vs| ==> |path| < |vs[i].path| && path <= vs[i].path
  }

  predicate CanonPart(t: Node) {
    Canon(t) || t.Value?
  }

  lemma SortedConcat(xs: seq<Visit>, ys: seq<Visit>)
    requires Sorted(xs) && Sorted(ys)
    requires forall i, j :: 0 <= i < |xs| && 0 <= j < |ys| ==> Before(xs[i].path, ys[j].path)
    ensures Sorted(xs + ys)
  {
  }

  /** Steps to children: what full and short nodes append to the path. */
  lemma CanonChildPart(cs: seq<Node>, i: nat)
    requires Canon(Full(cs)) && i < 17
    ensures CanonPart(cs[i])
  {
  }

  lemma {:induction false} BelowSorted(t: Node, index: int, path: seq<Nib>)
    requires CanonPart(t) && -1 <= index < 17
    ensures Sorted(Below(t, index, path)) && Under(Below(t, index, path), path)
    ensures t.Full? ==> forall i :: 0 <= i < |Below(t, index, path)| ==> Below(t, index, path)[i].path[|path|] > index
    decreases t, 16 - index
  {
    match t
    case Full(cs) =>
      if index < 16 {
        var i := index + 1;
        CanonChildPart(cs, i);
        VisitsSorted(cs[i], path + [i]);
        BelowSorted(t, i, path);
        SiblingsSorted(Visits(cs[i], path + [i]), Below(t, i, path), path, i);
      }
    case Short(k, v) =>
      if index < 0 {
        VisitsSorted(v, path + k);
      }
    case _ =>
  }

  lemma SiblingsSorted(xs: seq<Visit>, ys: seq<Visit>, path: seq<Nib>, i: nat)
    requires i <= 16 && Sorted(xs) && Sorted(ys) && Under(ys, path)
    requires forall k :: 0 <= k < |xs| ==> path + [i] <= xs[k].path
    requires forall k :: 0 <= k < |ys| ==> ys[k].path[|path|] > i
    ensures Sorted(xs + ys) && Under(xs + ys, path)
    ensures forall k :: 0 <= k < |xs + ys| ==> (xs + ys)[k].path[|path|] >= i
  {
    forall k, l | 0 <= k < |xs| && 0 <= l < |ys|
      ensures Before(xs[k].path, ys[l].path)
    {
      var x, y := xs[k].path, ys[l].path;
      assert x == path + x[|path|..] && y == path + y[|path|..];
      assert x[|path|] == (path + [i])[|path|] == i;
      BeforeBelow(path, x[|path|..], y[|path|..]);
    }
    SortedConcat(xs, ys);
    forall k | 0 <= k < |xs|
      ensures xs[k].path[|path|] == i && path <= xs[k].path
    {
      assert xs[k].path[|path|] == (path + [i])[|path|];
    }
  }

  lemma {:induction false} VisitsSorted(t: Node, path: seq<Nib>)
    requires CanonPart(t)
    ensures Sorted(Visits(t, path))
    ensures forall i :: 0 <= i < |Visits(t, path)| ==> path <= Visits(t, path)[i].path
    decreases t, 18
  {
    if !t.Nil? {
      BelowSorted(t, -1, path);
      RootFirst(t, path, Below(t, -1, path));
    }
  }

  lemma RootFirst(t: Node, path: seq<Nib>, below: seq<Visit>)
    requires Sorted(below) && Under(below, path)
    ensures Sorted([Visit(path, t)] + below)
  {
    forall j | 0 <= j < |below|
      ensures Before(path, below[j].path)
    {
      PrefixBefore(path, below[j].path[|path|..]);
      assert below[j].path == path + below[j].path[|path|..];
    }
  }

  /** Pre-order is ascending order. */
  lemma AllVisitsSorted(t: Node)
    requires Canon(t)
    ensures Sorted(AllVisits(t))
  {
    BelowSorted(t, -1, []);
    RootFirst(t, [], Below(t, -1, []));
  }

  // ----- the leaves are the entries -----

  ghost predicate Has(vs: seq<Visit>, path: seq<Nib>, v: Bytes) {
    exists i :: 0 <= i < |vs| && vs[i] == Visit(path, Value(v))
  }

  lemma HasConcat(xs: seq<Visit>, ys: seq<Visit>, path: seq<Nib>, v: Bytes)
    ensures Has(xs + ys, path, v) <==> Has(xs, path, v) || Has(ys, path, v)
  {
    var all := xs + ys;
    if Has(xs, path, v) {
      var i :| 0 <= i < |xs| && xs[i] == Visit(path, Value(v));
      assert all[i] == xs[i];
    }
    if Has(ys, path, v) {
      var i :| 0 <= i < |ys| && ys[i] == Visit(path, Value(v));
      assert all[|xs| + i] == ys[i];
    }
  }

  /** A value is visited at a path exactly if lookup finds it there. */
  lemma {:induction false} VisitsAreEntries(t: Node, path: seq<Nib>, key: seq<Nib>, v: Bytes)
    requires CanonAt(t, key)
    ensures Has(Visits(t, path), path + key, v) <==> Find(t, key) == Some(v)
    decreases t, 18
  {
    if t.Value? {
      assert Visits(t, path)[0] == Visit(path, t);
      assert path + key == path;
    } else if !t.Nil? {
      BelowAreEntries(t, -1, path, key, v);
      HasConcat([Visit(path, t)], Below(t, -1, path), path + key, v);
    }
  }

  lemma {:induction false} BelowAreEntries(t: Node, index: int, path: seq<Nib>, key: seq<Nib>, v: Bytes)
    requires CanonAt(t, key) && |key| > 0 && -1 <= index < 17
    ensures Has(Below(t, index, path), path + key, v) <==>
      Find(t, key) == Some(v) && (t.Full? ==> key[0] > index) && (t.Short? ==> index < 0)
    decreases t, 16 - index
  {
    match t
    case Full(cs) =>
      if index < 16 {
        var i := index + 1;
        BelowAreEntries(t, i, path, key, v);
        HasConcat(Visits(cs[i], path + [i]), Below(t, i, path), path + key, v);
        ChildEntries(cs, i, path, key, v);
      }
    case Short(k, val) =>
      if index < 0 {
        if k <= key {
          CanonBelow(k, val, key);
          VisitsAreEntries(val, path + k, key[|k|..], v);
          assert path + k + key[|k|..] == path + key;
        } else {
          ShortElsewhere(k, val, path, key, v);
        }
      }
    case _ =>
  }

  lemma ShortElsewhere(k: seq<Nib>, val: Node, path: seq<Nib>, key: seq<Nib>, v: Bytes)
    requires CanonAt(Short(k, val), key) && !(k <= key)
    ensures !Has(Visits(val, path + k), path + key, v) && Find(Short(k, val), key) != Some(v)
  {
    assert CanonPart(val);
    PrefixBelow(path, k, key);
    Elsewhere(val, path + k, path + key, v);
  }

  lemma {:induction false} ChildEntries(cs: seq<Node>, i: nat, path: seq<Nib>, key: seq<Nib>, v: Bytes)
    requires Canon(Full(cs)) && IsTerminated(key) && i < 17
    ensures Has(Visits(cs[i], path + [i]), path + key, v) <==> key[0] == i && Find(Full(cs), key) == Some(v)
    decreases Full(cs), 0
  {
    CanonChildPart(cs, i);
    if key[0] == i {
      CanonChild(cs, key);
      VisitsAreEntries(cs[i], path + [i], key[1..], v);
      assert path + [i] + key[1..] == path + key;
    } else {
      PrefixBelow(path, [i], key);
      Elsewhere(cs[i], path + [i], path + key, v);
    }
  }

  /** Nothing is visited outside the subtrie. */
  lemma Elsewhere(t: Node, path: seq<Nib>, other: seq<Nib>, v: Bytes)
    requires CanonPart(t) && !(path <= other)
    ensures !Has(Visits(t, path), other, v)
  {
    VisitsSorted(t, path);
  }

  /** A trie's leaves in pre-order are its entries, by terminated path. */
  lemma LeavesAreEntries(t: Node, key: seq<Nib>, v: Bytes)
    requires Canon(t) && IsTerminated(key)
    ensures Has(AllVisits(t), key, v) <==> Find(t, key) == Some(v)
  {
    BelowAreEntries(t, -1, [], key, v);
    HasConcat([Visit([], t)], Below(t, -1, []), key, v);
    assert [] + key == key;
  }

  /** Values are visited at terminated paths only, and nothing else is. */
  lemma {:induction false} LeafPaths(t: Node, path: seq<Nib>, i: nat)
    requires (if HasTerm(path) then IsTerminated(path) && (t.Value? || t.Nil?) else IsPlain(path) && Canon(t)) && i < |Visits(t, path)|
    ensures var x := Visits(t, path)[i]; IsHex(x.path) && (HasTerm(x.path) <==> x.node.Value?)
    decreases t, 18
  {
    if i > 0 {
      LeafPathsBelow(t, -1, path, i - 1);
    }
  }

  lemma {:induction false} LeafPathsBelow(t: Node, index: int, path: seq<Nib>, i: nat)
    requires IsPlain(path) && Canon(t) && -1 <= index < 17 && i < |Below(t, index, path)|
    ensures var x := Below(t, index, path)[i]; IsHex(x.path) && (HasTerm(x.path) <==> x.node.Value?)
    decreases t, 16 - index
  {
    match t
    case Full(cs) =>
      var c := index + 1;
      StepPath(path, [c]);
      if i < |Visits(cs[c], path + [c])| {
        LeafPaths(cs[c], path + [c], i);
      } else {
        LeafPathsBelow(t, c, path, i - |Visits(cs[c], path + [c])|);
      }
    case Short(k, v) =>
      StepPath(path, k);
      LeafPaths(v, path + k, i);
  }

  lemma StepPath(path: seq<Nib>, k: seq<Nib>)
    requires IsPlain(path) && |k| > 0 && IsHex(k)
    ensures HasTerm(path + k) <==> HasTerm(k)
    ensures HasTerm(k) ==> IsTerminated(path + k)
    ensures !HasTerm(k) ==> IsPlain(path + k)
  {
    var all := path + k;
    if HasTerm(k) {
      assert all[..|all| - 1] == path + k[..|k| - 1];
    }
  }
}
