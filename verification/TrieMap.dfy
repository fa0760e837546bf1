/** Fully loaded tries: they refine a map from terminated paths to values, and
    their canonical form is determined by that map alone. */
module TrieMap {
  import opened Wrappers
  import opened Encoding
  import opened Patricia

  /** The value a loaded trie holds at a path, None below anything unloaded. */
  function Find(t: Node, key: seq<Nib>): Option<Bytes> {
    match t
    case Nil => None
    case HashRef(_) => None
    case Value(v) => Some(v)
    case Short(k, v) => if k <= key then Find(v, key[|k|..]) else None
    case Full(cs) => if |key| > 0 && key[0] < |cs| then Find(cs[key[0]], key[1..]) else None
  }

  /** Minimal form: no short node under a short node, no full node with fewer
      than two children, no empty value, nothing unloaded. */
  predicate Canon(t: Node) {
    match t
    case Nil => true
    case HashRef(_) => false
    case Value(_) => false
    case Short(k, v) => |k| > 0 && if HasTerm(k) then IsTerminated(k) && CanonValue(v) && v.Value? else IsPlain(k) && v.Full? && Canon(v)
    case Full(cs) => |cs| == 17 && TwoChildren(cs) && CanonValue(cs[16]) && forall i :: 0 <= i < 16 ==> Canon(cs[i])
  }

  predicate CanonValue(t: Node) {
    t.Nil? || (t.Value? && t.v != [])
  }

  /** Canonical at the place where `key` is what remains of the path. */
  predicate CanonAt(t: Node, key: seq<Nib>) {
    if |key| == 0 then CanonValue(t) else IsTerminated(key) && Canon(t)
  }

  /** Two remainders that can meet at one place of a trie. */
  predicate Aligned(a: seq<Nib>, b: seq<Nib>) {
    (|a| == 0 && |b| == 0) || (IsTerminated(a) && IsTerminated(b))
  }

  lemma {:induction false} CanonShape(t: Node)
    requires Canon(t)
    ensures Shape(t)
  {
    match t
    case Short(k, v) => if !HasTerm(k) { CanonShape(v); }
    case Full(cs) =>
      forall i | 0 <= i < 16 ensures Shape(cs[i]) { CanonShape(cs[i]); }
    case _ =>
  }

  lemma CanonShapeAt(t: Node, key: seq<Nib>)
    requires CanonAt(t, key)
    ensures ShapeAt(t, key)
  {
    if |key| > 0 {
      CanonShape(t);
    }
  }

  lemma AlignedTail(a: seq<Nib>, b: seq<Nib>)
    requires IsTerminated(a) && IsTerminated(b) && a[0] == b[0]
    ensures Aligned(a[1..], b[1..])
    ensures a == b <==> a[1..] == b[1..]
  {
    TermTail(a);
    TermTail(b);
    assert a == [a[0]] + a[1..];
    assert b == [b[0]] + b[1..];
  }

  lemma AlignedDrop(a: seq<Nib>, b: seq<Nib>, k: seq<Nib>)
    requires IsTerminated(a) && IsTerminated(b) && 0 < |k| && k <= a && k <= b && (IsTerminated(k) || IsPlain(k))
    ensures Aligned(a[|k|..], b[|k|..])
    ensures a == b <==> a[|k|..] == b[|k|..]
  {
    TermPrefix(k, a);
    TermPrefix(k, b);
    assert a == k + a[|k|..];
    assert b == k + b[|k|..];
  }

  /** A child of a canonical full node is canonical where it stands. */
  lemma CanonChild(cs: seq<Node>, key: seq<Nib>)
    requires Canon(Full(cs)) && IsTerminated(key)
    ensures CanonAt(cs[key[0]], key[1..])
  {
    TermTail(key);
  }

  lemma CanonBelow(k: seq<Nib>, v: Node, key: seq<Nib>)
    requires Canon(Short(k, v)) && IsTerminated(key) && k <= key
    ensures CanonAt(v, key[|k|..])
  {
    TermPrefix(k, key);
  }

  // ----- lookup -----

  /** On a loaded canonical trie the lookup never misses a node, loads nothing and
      answers with Find. */
  lemma {:induction false} GetIsFind(db: Store, t: Node, prefix: seq<Nib>, key: seq<Nib>)
    requires ShapeStore(db) && CanonAt(t, key)
    ensures ShapeAt(t, key) && Get(db, t, prefix, key) == Ok(Found(Find(t, key), t, false))
    decreases |key|
  {
    CanonShapeAt(t, key);
    match t
    case Short(k, v) =>
      if k <= key {
        CanonBelow(k, v, key);
        GetIsFind(db, v, prefix + k, key[|k|..]);
      }
    case Full(cs) =>
      CanonChild(cs, key);
      GetIsFind(db, cs[key[0]], prefix + [key[0]], key[1..]);
    case _ =>
  }

  // ----- insertion -----

  /** What may hang below a path fragment: a value under a terminated one, a
      canonical full node under a plain one. */
  predicate CanonUnder(k: seq<Nib>, val: Node) {
    if HasTerm(k) then IsTerminated(k) && val.Value? && val.v != [] else IsPlain(k) && val.Full? && Canon(val)
  }

  lemma LeafFind(key: seq<Nib>, val: Node, probe: seq<Nib>)
    ensures Find(Leaf(key, val), probe) == if key <= probe then Find(val, probe[|key|..]) else None
  {
    if |key| == 0 {
      assert probe[0..] == probe;
    }
  }

  /** The slot a path fragment takes in the new full node. */
  lemma LeafCanon(k: seq<Nib>, val: Node)
    requires |k| > 0 && CanonUnder(k, val)
    ensures !Leaf(k[1..], val).Nil?
    ensures if k[0] == TERMINATOR then CanonValue(Leaf(k[1..], val)) else Canon(Leaf(k[1..], val))
  {
    if HasTerm(k) {
      TermTail(k);
    }
  }

  lemma BranchCanon(k: seq<Nib>, val: Node, key: seq<Nib>, v: Bytes)
    requires |k| > 0 && CanonUnder(k, val) && IsTerminated(key) && k[0] != key[0] && v != []
    ensures Canon(Branch(k, val, key, Value(v)))
  {
    LeafCanon(k, val);
    LeafCanon(key, Value(v));
    var a, b := k[0], key[0];
    var cs := Branch(k, val, key, Value(v)).children;
    assert !cs[a].Nil? && !cs[b].Nil?;
    assert TwoChildren(cs) by {
      if a < b {
        assert !cs[a].Nil? && !cs[b].Nil?;
      } else {
        assert !cs[b].Nil? && !cs[a].Nil?;
      }
    }
  }

  lemma BranchFind(k: seq<Nib>, val: Node, key: seq<Nib>, v: Bytes, probe: seq<Nib>)
    requires |k| > 0 && IsTerminated(key) && k[0] != key[0] && IsTerminated(probe)
    ensures Find(Branch(k, val, key, Value(v)), probe)
         == if probe == key then Some(v) else if k <= probe then Find(val, probe[|k|..]) else None
  {
    var p, rest := probe[0], probe[1..];
    if p == key[0] {
      LeafFind(key[1..], Value(v), rest);
      AlignedTail(key, probe);
      if key[1..] <= rest && |key| > 1 {
        TermPrefix(key[1..], rest);
      }
    } else if p == k[0] {
      LeafFind(k[1..], val, rest);
      PrefixSplit(k, probe, 1);
    }
  }

  lemma PrefixSplit(k: seq<Nib>, probe: seq<Nib>, m: nat)
    requires m <= |k|
    ensures k <= probe <==> k[..m] <= probe && k[m..] <= probe[m..]
    ensures k <= probe ==> probe[m..][|k| - m..] == probe[|k|..]
  {
    if k[..m] <= probe && k[m..] <= probe[m..] {
      assert k == k[..m] + k[m..];
      assert probe == probe[..m] + probe[m..];
    }
    if k <= probe {
      assert k[m..] == probe[..|k|][m..] == probe[m..][..|k| - m];
    }
  }

  /** Insertion keeps the canonical form. */
  lemma {:induction false} InsertCanon(db: Store, t: Node, prefix: seq<Nib>, key: seq<Nib>, v: Bytes)
    requires ShapeStore(db) && CanonAt(t, key) && v != []
    ensures ShapeAt(t, key)
    ensures var r := Insert(db, t, prefix, key, v);
            && r.Ok?
            && CanonAt(r.value.node, key)
            && !r.value.node.Nil?
            && (t.Full? ==> r.value.node.Full?)
            && (r.value.dirty || r.value.node == t)
    decreases |key|
  {
    CanonShapeAt(t, key);
    if |key| > 0 {
      match t
      case Short(k, val) =>
        var m := CommonPrefix(key, k);
        TermSplit(key, k);
        if m == |k| {
          CanonBelow(k, val, key);
          InsertCanon(db, val, prefix + key[..m], key[m..], v);
        } else {
          SplitCanon(k, val, key, m, v);
        }
      case Full(cs) =>
        CanonChild(cs, key);
        var i := key[0];
        InsertCanon(db, cs[i], prefix + [i], key[1..], v);
        var r := Insert(db, cs[i], prefix + [i], key[1..], v).value;
        ReplaceChildCanon(cs, key, r.node);
      case Nil =>
    }
  }

  lemma ReplaceChildCanon(cs: seq<Node>, key: seq<Nib>, child: Node)
    requires Canon(Full(cs)) && IsTerminated(key) && CanonAt(child, key[1..]) && !child.Nil?
    ensures Canon(Full(cs[key[0] := child]))
  {
    TermTail(key);
    var cs' := cs[key[0] := child];
    var i, j :| 0 <= i < j < |cs| && !cs[i].Nil? && !cs[j].Nil?;
    assert !cs'[i].Nil? && !cs'[j].Nil?;
  }

  lemma SplitCanon(k: seq<Nib>, val: Node, key: seq<Nib>, m: nat, v: Bytes)
    requires Canon(Short(k, val)) && IsTerminated(key) && v != []
    requires m == CommonPrefix(key, k) < |k| && m < |key|
    ensures Canon(Split(k, val, key, m, Value(v)))
  {
    SuffixUnder(k, val, m);
    TermSuffix(key, m);
    BranchCanon(k[m..], val, key[m..], v);
    if m > 0 {
      TermSuffix(key, m - 1);
      PlainPrefix(key, m);
    }
  }

  lemma PlainPrefix(key: seq<Nib>, m: nat)
    requires IsTerminated(key) && m < |key|
    ensures IsPlain(key[..m])
  {
    assert key[..m] == key[..|key| - 1][..m];
  }

  lemma SuffixUnder(k: seq<Nib>, val: Node, m: nat)
    requires Canon(Short(k, val)) && m < |k|
    ensures CanonUnder(k[m..], val)
  {
    if HasTerm(k) {
      TermSuffix(k, m);
    }
  }

  /** Insertion updates the map at its key and nowhere else. */
  lemma {:induction false} InsertFind(db: Store, t: Node, prefix: seq<Nib>, key: seq<Nib>, v: Bytes, probe: seq<Nib>)
    requires ShapeStore(db) && CanonAt(t, key) && v != [] && Aligned(key, probe)
    ensures ShapeAt(t, key) && Insert(db, t, prefix, key, v).Ok?
    ensures Find(Insert(db, t, prefix, key, v).value.node, probe) == if probe == key then Some(v) else Find(t, probe)
    decreases |key|, 2
  {
    InsertCanon(db, t, prefix, key, v);
    if |key| > 0 {
      match t
      case Short(k, val) =>
        InsertFindShort(db, k, val, prefix, key, v, probe);
      case Full(cs) =>
        InsertFindChild(db, cs, prefix, key, v, probe);
      case Nil =>
        if key <= probe {
          TermPrefix(key, probe);
        }
    }
  }

  lemma {:induction false} InsertFindShort(db: Store, k: seq<Nib>, val: Node, prefix: seq<Nib>, key: seq<Nib>, v: Bytes, probe: seq<Nib>)
    requires ShapeStore(db) && CanonAt(Short(k, val), key) && v != [] && IsTerminated(key) && IsTerminated(probe)
    ensures ShapeAt(Short(k, val), key) && Insert(db, Short(k, val), prefix, key, v).Ok?
    ensures Find(Insert(db, Short(k, val), prefix, key, v).value.node, probe) == if probe == key then Some(v) else Find(Short(k, val), probe)
    decreases |key|, 1
  {
    hide Find, Canon, Shape, IsTerminated, Split;
    InsertCanon(db, Short(k, val), prefix, key, v);
    var m := CommonPrefix(key, k);
    CanonParts(k, val);
    TermSplit(key, k);
    if m == |k| {
      assert key[..m] == k && key[|k|..] == key[m..];
      InsertFindBelow(db, k, val, prefix, key, v, probe);
    } else {
      SplitFind(k, val, key, m, v, probe);
    }
  }

  lemma CanonParts(k: seq<Nib>, val: Node)
    requires Canon(Short(k, val))
    ensures |k| > 0 && (IsTerminated(k) || IsPlain(k))
  {
  }

  lemma {:induction false} InsertFindChild(db: Store, cs: seq<Node>, prefix: seq<Nib>, key: seq<Nib>, v: Bytes, probe: seq<Nib>)
    requires ShapeStore(db) && Canon(Full(cs)) && v != [] && IsTerminated(key) && IsTerminated(probe)
    ensures CanonAt(cs[key[0]], key[1..]) && ShapeAt(cs[key[0]], key[1..]) && Insert(db, cs[key[0]], prefix + [key[0]], key[1..], v).Ok?
    ensures var node := Insert(db, cs[key[0]], prefix + [key[0]], key[1..], v).value.node;
            Find(Full(cs[key[0] := node]), probe) == if probe == key then Some(v) else Find(Full(cs), probe)
    decreases |key|, 0
  {
    CanonChild(cs, key);
    var i := key[0];
    InsertCanon(db, cs[i], prefix + [i], key[1..], v);
    if probe[0] == i {
      AlignedTail(key, probe);
      InsertFind(db, cs[i], prefix + [i], key[1..], v, probe[1..]);
    }
  }

  lemma {:induction false} InsertFindBelow(db: Store, k: seq<Nib>, val: Node, prefix: seq<Nib>, key: seq<Nib>, v: Bytes, probe: seq<Nib>)
    requires ShapeStore(db) && CanonAt(Short(k, val), key) && v != [] && IsTerminated(key) && IsTerminated(probe)
    requires k <= key
    ensures CanonAt(val, key[|k|..]) && ShapeAt(val, key[|k|..]) && Insert(db, val, prefix + k, key[|k|..], v).Ok?
    ensures var r := Insert(db, val, prefix + k, key[|k|..], v).value; r.dirty || r.node == val
    ensures var node := Insert(db, val, prefix + k, key[|k|..], v).value.node;
            Find(Short(k, node), probe) == if probe == key then Some(v) else Find(Short(k, val), probe)
    decreases |key|, 0
  {
    CanonBelow(k, val, key);
    InsertCanon(db, val, prefix + k, key[|k|..], v);
    if k <= probe {
      AlignedDrop(key, probe, k);
      InsertFind(db, val, prefix + k, key[|k|..], v, probe[|k|..]);
    }
  }

  lemma SplitAt(k: seq<Nib>, val: Node, key: seq<Nib>, m: nat, value: Node, probe: seq<Nib>)
    requires m < |k| && m < |key|
    ensures Find(Split(k, val, key, m, value), probe)
         == if key[..m] <= probe then Find(Branch(k[m..], val, key[m..], value), probe[m..]) else None
  {
    if m == 0 {
      assert probe[0..] == probe;
    }
  }

  lemma SplitFind(k: seq<Nib>, val: Node, key: seq<Nib>, m: nat, v: Bytes, probe: seq<Nib>)
    requires Canon(Short(k, val)) && IsTerminated(key) && v != [] && IsTerminated(probe)
    requires m == CommonPrefix(key, k) < |k| && m < |key|
    ensures Find(Split(k, val, key, m, Value(v)), probe)
         == if probe == key then Some(v) else Find(Short(k, val), probe)
  {
    PrefixSplit(k, probe, m);
    SplitAt(k, val, key, m, Value(v), probe);
    if key[..m] <= probe {
      PlainPrefix(key, m);
      TermSuffix(key, m);
      SuffixTerminated(key, m, probe);
      BranchFind(k[m..], val, key[m..], v, probe[m..]);
    }
  }

  lemma SuffixTerminated(key: seq<Nib>, m: nat, probe: seq<Nib>)
    requires m < |key| && IsPlain(key[..m]) && key[..m] <= probe && IsTerminated(probe)
    ensures m < |probe| && IsTerminated(probe[m..])
    ensures probe == key <==> probe[m..] == key[m..]
  {
    if m > 0 {
      TermPrefix(key[..m], probe);
    }
    TermSuffix(probe, m);
    assert probe == key[..m] + probe[m..];
    assert key == key[..m] + key[m..];
  }

  // ----- deletion -----

  /** Shrinking a full node that lost at most one child restores the canonical form. */
  lemma ShrinkCanon(db: Store, cs: seq<Node>, prefix: seq<Nib>)
    requires ShapeStore(db) && |cs| == 17 && CanonValue(cs[16])
    requires forall i :: 0 <= i < 16 ==> Canon(cs[i])
    requires exists i :: 0 <= i < 17 && !cs[i].Nil?
    ensures Shrink(db, cs, prefix).Ok?
    ensures var n := Shrink(db, cs, prefix).value; Canon(n) && !n.Nil?
  {
    SolePositionMeaning(cs);
    var pos := SolePosition(cs);
    if 0 <= pos < 16 && cs[pos].Short? {
      var k := cs[pos].key;
      ConsKey(pos, k);
    }
  }

  lemma ConsKey(pos: Nib, k: seq<Nib>)
    requires pos < 16
    ensures |k| > 0 ==> (HasTerm([pos] + k) <==> HasTerm(k))
    ensures IsTerminated(k) ==> IsTerminated([pos] + k)
    ensures IsPlain(k) ==> IsPlain([pos] + k)
  {
    if IsTerminated(k) {
      var a := [pos] + k;
      assert a[..|a| - 1] == [pos] + k[..|k| - 1];
    }
  }

  /** Shrinking keeps every answer. */
  lemma ShrinkFind(db: Store, cs: seq<Node>, prefix: seq<Nib>, probe: seq<Nib>)
    requires ShapeStore(db) && |cs| == 17 && CanonValue(cs[16]) && IsTerminated(probe)
    requires forall i :: 0 <= i < 16 ==> Canon(cs[i])
    requires Shrink(db, cs, prefix).Ok?
    ensures Find(Shrink(db, cs, prefix).value, probe) == Find(Full(cs), probe)
  {
    SolePositionMeaning(cs);
    var pos := SolePosition(cs);
    if pos >= 0 {
      TermTail(probe);
      if probe[0] == pos && cs[pos].Short? {
        MergeFind([pos], cs[pos].key, cs[pos].val, probe);
      } else if probe[0] != pos && cs[pos].Short? {
        assert ([pos] + cs[pos].key)[0] == pos;
      }
    }
  }

  /** Two short nodes in a row answer as the merged one. */
  lemma MergeFind(k: seq<Nib>, k2: seq<Nib>, v: Node, probe: seq<Nib>)
    ensures Find(Short(k + k2, v), probe) == Find(Short(k, Short(k2, v)), probe)
  {
    PrefixSplit(k + k2, probe, |k|);
    assert (k + k2)[..|k|] == k && (k + k2)[|k|..] == k2;
  }

  lemma MergeCanon(k: seq<Nib>, k2: seq<Nib>, v: Node)
    requires IsPlain(k) && Canon(Short(k2, v))
    ensures Canon(Short(k + k2, v))
  {
    var a := k + k2;
    assert HasTerm(a) <==> HasTerm(k2);
    if IsTerminated(k2) {
      assert a[..|a| - 1] == k + k2[..|k2| - 1];
    }
  }

  /** Deletion keeps the canonical form; a full node never vanishes. */
  lemma {:induction false} DeleteCanon(db: Store, t: Node, prefix: seq<Nib>, key: seq<Nib>)
    requires ShapeStore(db) && CanonAt(t, key)
    ensures ShapeAt(t, key)
    ensures var r := Delete(db, t, prefix, key);
            && r.Ok?
            && CanonAt(r.value.node, key)
            && (t.Full? ==> !r.value.node.Nil?)
            && (r.value.dirty || r.value.node == t)
    decreases |key|
  {
    CanonShapeAt(t, key);
    match t
    case Short(k, val) =>
      var m := CommonPrefix(key, k);
      if m == |k| < |key| {
        TermPrefix(k, key);
        CanonBelow(k, val, key);
        DeleteCanon(db, val, prefix + k, key[|k|..]);
        var r := Delete(db, val, prefix + k, key[|k|..]).value;
        if r.node.Short? {
          MergeCanon(k, r.node.key, r.node.val);
        }
      }
    case Full(cs) =>
      CanonChild(cs, key);
      var i := key[0];
      DeleteCanon(db, cs[i], prefix + [i], key[1..]);
      var r := Delete(db, cs[i], prefix + [i], key[1..]).value;
      RemoveChildCanon(db, cs, prefix, key, r.node);
    case _ =>
  }

  lemma RemoveChildCanon(db: Store, cs: seq<Node>, prefix: seq<Nib>, key: seq<Nib>, child: Node)
    requires ShapeStore(db) && Canon(Full(cs)) && IsTerminated(key) && CanonAt(child, key[1..])
    ensures var cs' := cs[key[0] := child];
            && CanonValue(cs'[16]) && (forall i :: 0 <= i < 16 ==> Canon(cs'[i]))
            && Shrink(db, cs', prefix).Ok?
            && Canon(Shrink(db, cs', prefix).value) && !Shrink(db, cs', prefix).value.Nil?
  {
    TermTail(key);
    var cs' := cs[key[0] := child];
    var i, j :| 0 <= i < j < |cs| && !cs[i].Nil? && !cs[j].Nil?;
    var other := if i == key[0] then j else i;
    assert !cs'[other].Nil?;
    ShrinkCanon(db, cs', prefix);
  }

  /** Deletion removes its key from the map and nothing else. */
  lemma {:induction false} DeleteFind(db: Store, t: Node, prefix: seq<Nib>, key: seq<Nib>, probe: seq<Nib>)
    requires ShapeStore(db) && CanonAt(t, key) && Aligned(key, probe)
    ensures ShapeAt(t, key) && Delete(db, t, prefix, key).Ok?
    ensures Find(Delete(db, t, prefix, key).value.node, probe) == if probe == key then None else Find(t, probe)
    decreases |key|, 1
  {
    DeleteCanon(db, t, prefix, key);
    match t
    case Short(k, val) =>
      var m := CommonPrefix(key, k);
      if m == |k| == |key| {
        assert key == k;
        if k <= probe {
          TermPrefix(k, probe);
        }
      } else if m == |k| {
        DeleteFindBelow(db, k, val, prefix, key, probe);
      }
    case Full(cs) =>
      CanonChild(cs, key);
      var i := key[0];
      DeleteCanon(db, cs[i], prefix + [i], key[1..]);
      var r := Delete(db, cs[i], prefix + [i], key[1..]).value;
      RemoveChildCanon(db, cs, prefix, key, r.node);
      if probe[0] == i {
        AlignedTail(key, probe);
        DeleteFind(db, cs[i], prefix + [i], key[1..], probe[1..]);
      }
      if r.dirty {
        ShrinkFind(db, cs[i := r.node], prefix, probe);
      }
    case _ =>
  }

  lemma {:induction false} DeleteFindBelow(db: Store, k: seq<Nib>, val: Node, prefix: seq<Nib>, key: seq<Nib>, probe: seq<Nib>)
    requires ShapeStore(db) && CanonAt(Short(k, val), key) && IsTerminated(key) && IsTerminated(probe)
    requires k <= key && |k| < |key|
    ensures ShapeAt(Short(k, val), key) && Delete(db, Short(k, val), prefix, key).Ok?
    ensures Find(Delete(db, Short(k, val), prefix, key).value.node, probe) == if probe == key then None else Find(Short(k, val), probe)
    decreases |key|, 0
  {
    CommonPrefixUnique(key, k, |k|);
    CanonBelow(k, val, key);
    DeleteCanon(db, Short(k, val), prefix, key);
    DeleteCanon(db, val, prefix + k, key[|k|..]);
    var r := Delete(db, val, prefix + k, key[|k|..]).value;
    if r.node.Short? {
      MergeFind(k, r.node.key, r.node.val, probe);
    }
    if k <= probe {
      AlignedDrop(key, probe, k);
      DeleteFind(db, val, prefix + k, key[|k|..], probe[|k|..]);
    }
  }

  // ----- the map determines the trie -----

  ghost predicate SameAnswers(t1: Node, t2: Node) {
    forall key: seq<Nib> :: IsTerminated(key) ==> Find(t1, key) == Find(t2, key)
  }

  lemma TermAppend(k: seq<Nib>, key: seq<Nib>)
    requires IsPlain(k) && IsTerminated(key)
    ensures IsTerminated(k + key) && (k + key)[|k|..] == key
  {
    var a := k + key;
    assert a[..|a| - 1] == k + key[..|key| - 1];
  }

  /** A non-empty canonical trie holds some key. */
  lemma {:induction false} Witness(t: Node) returns (key: seq<Nib>)
    requires Canon(t) && !t.Nil?
    ensures IsTerminated(key) && Find(t, key).Some?
    decreases t, 1
  {
    match t
    case Short(k, v) =>
      if HasTerm(k) {
        key := k;
      } else {
        var rest := Witness(v);
        TermAppend(k, rest);
        key := k + rest;
      }
    case Full(cs) =>
      var i, j :| 0 <= i < j < |cs| && !cs[i].Nil? && !cs[j].Nil?;
      key := WitnessBelow(cs, i);
  }

  /** Every non-empty child of a full node leads to a key. */
  lemma {:induction false} WitnessBelow(cs: seq<Node>, i: Nib) returns (key: seq<Nib>)
    requires Canon(Full(cs)) && !cs[i].Nil?
    ensures IsTerminated(key) && key[0] == i && Find(Full(cs), key).Some?
    decreases Full(cs), 0
  {
    if i == 16 {
      key := [i];
    } else {
      var rest := Witness(cs[i]);
      TermAppend([i], rest);
      key := [i] + rest;
    }
  }

  /** A short node's key is a prefix of every short key with the same answers. */
  lemma ShortKeyBound(k1: seq<Nib>, v1: Node, k2: seq<Nib>, v2: Node)
    requires Canon(Short(k1, v1)) && Canon(Short(k2, v2)) && SameAnswers(Short(k1, v1), Short(k2, v2))
    ensures k2 <= k1
  {
    if HasTerm(k1) {
      assert Find(Short(k1, v1), k1).Some?;
    } else {
      var cs := v1.children;
      var i, j :| 0 <= i < j < |cs| && !cs[i].Nil? && !cs[j].Nil?;
      var a := WitnessBelow(cs, i);
      var b := WitnessBelow(cs, j);
      TermAppend(k1, a);
      TermAppend(k1, b);
      assert Find(Short(k1, v1), k1 + a).Some? && Find(Short(k1, v1), k1 + b).Some?;
      assert k2 <= k1 + a && k2 <= k1 + b;
      assert (k1 + a)[|k1|] != (k1 + b)[|k1|];
      assert |k2| <= |k1|;
      assert k1 == (k1 + a)[..|k1|];
    }
  }

  lemma ShortIsNotFull(k: seq<Nib>, v: Node, cs: seq<Node>)
    requires Canon(Short(k, v)) && Canon(Full(cs))
    ensures !SameAnswers(Short(k, v), Full(cs))
  {
    var i, j :| 0 <= i < j < |cs| && !cs[i].Nil? && !cs[j].Nil?;
    var a := WitnessBelow(cs, i);
    var b := WitnessBelow(cs, j);
    assert !(k <= a) || !(k <= b);
    assert Find(Short(k, v), a) != Find(Full(cs), a) || Find(Short(k, v), b) != Find(Full(cs), b);
  }

  lemma SameBelowFull(cs1: seq<Node>, cs2: seq<Node>, i: Nib)
    requires Canon(Full(cs1)) && Canon(Full(cs2)) && SameAnswers(Full(cs1), Full(cs2)) && i < 16
    ensures SameAnswers(cs1[i], cs2[i])
  {
    forall key: seq<Nib> | IsTerminated(key)
      ensures Find(cs1[i], key) == Find(cs2[i], key)
    {
      TermAppend([i], key);
      assert Find(Full(cs1), [i] + key) == Find(Full(cs2), [i] + key);
    }
  }

  lemma SameBelowShort(k: seq<Nib>, v1: Node, v2: Node)
    requires IsPlain(k) && SameAnswers(Short(k, v1), Short(k, v2))
    ensures SameAnswers(v1, v2)
  {
    forall key: seq<Nib> | IsTerminated(key)
      ensures Find(v1, key) == Find(v2, key)
    {
      TermAppend(k, key);
      assert Find(Short(k, v1), k + key) == Find(Short(k, v2), k + key);
    }
  }

  lemma SameEnd(k: seq<Nib>, v1: Node, v2: Node)
    requires Canon(Short(k, v1)) && Canon(Short(k, v2)) && SameAnswers(Short(k, v1), Short(k, v2)) && HasTerm(k)
    ensures v1 == v2
  {
    assert k <= k && k[|k|..] == [];
    assert Find(Short(k, v1), k) == Find(v1, []) == Some(v1.v);
    assert Find(Short(k, v2), k) == Find(v2, []) == Some(v2.v);
  }

  lemma SameValue(cs1: seq<Node>, cs2: seq<Node>)
    requires Canon(Full(cs1)) && Canon(Full(cs2)) && SameAnswers(Full(cs1), Full(cs2))
    ensures cs1[16] == cs2[16]
  {
    var stop: seq<Nib> := [TERMINATOR];
    assert IsTerminated(stop) && stop[1..] == [];
    assert Find(Full(cs1), stop) == Find(Full(cs2), stop);
  }

  /** Canonical tries that answer alike are the same tree. */
  lemma {:induction false} CanonUnique(t1: Node, t2: Node)
    requires Canon(t1) && Canon(t2) && SameAnswers(t1, t2)
    ensures t1 == t2
    decreases t1
  {
    if t1.Nil? || t2.Nil? {
      if !t1.Nil? {
        var key := Witness(t1);
      } else if !t2.Nil? {
        var key := Witness(t2);
      }
    } else if t1.Short? && t2.Short? {
      ShortKeyBound(t1.key, t1.val, t2.key, t2.val);
      ShortKeyBound(t2.key, t2.val, t1.key, t1.val);
      var k := t1.key;
      assert k == t2.key;
      if HasTerm(k) {
        SameEnd(k, t1.val, t2.val);
      } else {
        SameBelowShort(k, t1.val, t2.val);
        CanonUnique(t1.val, t2.val);
      }
      assert t1.val == t2.val;
    } else if t1.Full? && t2.Full? {
      var cs1, cs2 := t1.children, t2.children;
      forall i | 0 <= i < 17
        ensures cs1[i] == cs2[i]
      {
        if i < 16 {
          SameBelowFull(cs1, cs2, i);
          CanonUnique(cs1[i], cs2[i]);
        } else {
          SameValue(cs1, cs2);
        }
      }
      assert cs1 == cs2;
    } else if t1.Short? {
      ShortIsNotFull(t1.key, t1.val, t2.children);
    } else {
      ShortIsNotFull(t2.key, t2.val, t1.children);
    }
  }

  // ----- runs of updates -----

  datatype Op = Update(key: Bytes, value: Bytes) | Remove(key: Bytes)

  /** TryUpdate and TryDelete on a root, for any node store. */
  function ApplyOp(db: Store, t: Node, op: Op): (n: Node)
    requires ShapeStore(db) && Canon(t)
    ensures Canon(n)
  {
    var key := KeyHex(op.key);
    KeyHexInjective(op.key, op.key);
    if op.Update? && |op.value| != 0 then
      InsertCanon(db, t, [], key, op.value);
      Insert(db, t, [], key, op.value).value.node
    else
      DeleteCanon(db, t, [], key);
      Delete(db, t, [], key).value.node
  }

  function Run(db: Store, t: Node, ops: seq<Op>): (n: Node)
    requires ShapeStore(db) && Canon(t)
    ensures Canon(n)
    decreases |ops|
  {
    if |ops| == 0 then t else Run(db, ApplyOp(db, t, ops[0]), ops[1..])
  }

  function ApplyModel(m: map<Bytes, Bytes>, op: Op): map<Bytes, Bytes> {
    if op.Update? && |op.value| != 0 then m[op.key := op.value] else m - {op.key}
  }

  function RunModel(m: map<Bytes, Bytes>, ops: seq<Op>): map<Bytes, Bytes>
    decreases |ops|
  {
    if |ops| == 0 then m else RunModel(ApplyModel(m, ops[0]), ops[1..])
  }

  /** A trie holds exactly a map: every byte key is answered by the map, and no path
      that is not a byte key holds anything. */
  ghost predicate Holds(t: Node, m: map<Bytes, Bytes>) {
    && Canon(t)
    && (forall key: Bytes :: Find(t, KeyHex(key)) == Lookup(m, key))
    && (forall path: seq<Nib> :: IsTerminated(path) && |path| % 2 == 0 ==> Find(t, path).None?)
  }

  lemma ApplyOpHolds(db: Store, t: Node, m: map<Bytes, Bytes>, op: Op)
    requires ShapeStore(db) && Holds(t, m)
    ensures Holds(ApplyOp(db, t, op), ApplyModel(m, op))
  {
    hide ApplyOp, KeyHex, Find, Canon;
    var n := ApplyOp(db, t, op);
    forall key: Bytes
      ensures Find(n, KeyHex(key)) == Lookup(ApplyModel(m, op), key)
    {
      KeyHexInjective(key, op.key);
      ApplyOpFind(db, t, op, KeyHex(key));
    }
    forall path: seq<Nib> | IsTerminated(path) && |path| % 2 == 0
      ensures Find(n, path).None?
    {
      KeyHexOdd(op.key);
      ApplyOpFind(db, t, op, path);
    }
  }

  lemma KeyHexOdd(key: Bytes)
    ensures |KeyHex(key)| % 2 == 1
  {
  }

  /** One operation changes one answer. */
  lemma ApplyOpFind(db: Store, t: Node, op: Op, probe: seq<Nib>)
    requires ShapeStore(db) && Canon(t) && IsTerminated(probe)
    ensures Find(ApplyOp(db, t, op), probe) ==
            if probe != KeyHex(op.key) then Find(t, probe)
            else if op.Update? && |op.value| != 0 then Some(op.value) else None
  {
    KeyHexInjective(op.key, op.key);
    hide KeyHex, Find, Insert, Delete;
    if op.Update? && |op.value| != 0 {
      InsertFind(db, t, [], KeyHex(op.key), op.value, probe);
    } else {
      DeleteFind(db, t, [], KeyHex(op.key), probe);
    }
  }

  /** After any sequence of updates and deletions the trie answers as the map does. */
  lemma {:induction false} RunHolds(db: Store, t: Node, m: map<Bytes, Bytes>, ops: seq<Op>)
    requires ShapeStore(db) && Holds(t, m)
    ensures Holds(Run(db, t, ops), RunModel(m, ops))
    decreases |ops|
  {
    if |ops| > 0 {
      ApplyOpHolds(db, t, m, ops[0]);
      RunHolds(db, ApplyOp(db, t, ops[0]), ApplyModel(m, ops[0]), ops[1..]);
    }
  }

  lemma HoldsUnique(t1: Node, t2: Node, m: map<Bytes, Bytes>)
    requires Holds(t1, m) && Holds(t2, m)
    ensures t1 == t2
  {
    forall path: seq<Nib> | IsTerminated(path)
      ensures Find(t1, path) == Find(t2, path)
    {
      if |path| % 2 == 1 {
        var body := path[..|path| - 1];
        NibblesPack(body);
        assert path == KeyHex(Pack(body));
      }
    }
    CanonUnique(t1, t2);
  }

  /** History independence: two runs that end with the same contents end with the same
      tree, whatever their operations and their stores were. */
  lemma HistoryIndependence(db1: Store, db2: Store, ops1: seq<Op>, ops2: seq<Op>)
    requires ShapeStore(db1) && ShapeStore(db2)
    requires RunModel(map[], ops1) == RunModel(map[], ops2)
    ensures Run(db1, Nil, ops1) == Run(db2, Nil, ops2)
  {
    RunHolds(db1, Nil, map[], ops1);
    RunHolds(db2, Nil, map[], ops2);
    HoldsUnique(Run(db1, Nil, ops1), Run(db2, Nil, ops2), RunModel(map[], ops1));
  }
}
