/** The mutable trie object over a node store, and the proof that a partly loaded
    trie behaves as its full expansion. */
module Trie {
  import opened Wrappers
  import opened Encoding
  import opened Patricia
  import opened TrieMap

  // ----- the shape survives every operation, whatever the store holds -----

  lemma {:induction false} GetShape(db: Store, n: Node, prefix: seq<Nib>, key: seq<Nib>)
    requires ShapeStore(db) && ShapeAt(n, key)
    ensures var r := Get(db, n, prefix, key);
            if r.Ok? then ShapeAt(r.value.node, key) && (!r.value.resolved ==> r.value.node == n) else r.hash !in db
    decreases |key|, n.HashRef?
  {
    match n
    case Short(k, val) =>
      if k <= key {
        TermPrefix(k, key);
        GetShape(db, val, prefix + k, key[|k|..]);
      }
    case Full(cs) =>
      TermTail(key);
      GetShape(db, cs[key[0]], prefix + [key[0]], key[1..]);
    case HashRef(h) =>
      if h in db {
        GetShape(db, db[h], prefix, key);
      }
    case _ =>
  }

  lemma {:induction false} InsertShape(db: Store, n: Node, prefix: seq<Nib>, key: seq<Nib>, v: Bytes)
    requires ShapeStore(db) && ShapeAt(n, key)
    ensures var r := Insert(db, n, prefix, key, v);
            if r.Ok? then ShapeAt(r.value.node, key) else r.hash !in db
    decreases |key|, n.HashRef?
  {
    if |key| > 0 {
      match n
      case Short(k, val) =>
        var m := CommonPrefix(key, k);
        TermSplit(key, k);
        if m == |k| {
          TermPrefix(k, key);
          InsertShape(db, val, prefix + key[..m], key[m..], v);
        } else {
          SplitShape(k, val, key, m, v);
        }
      case Full(cs) =>
        TermTail(key);
        InsertShape(db, cs[key[0]], prefix + [key[0]], key[1..], v);
      case Nil =>
      case HashRef(h) =>
        if h in db {
          InsertShape(db, db[h], prefix, key, v);
        }
    }
  }

  lemma LeafShape(k: seq<Nib>, val: Node)
    requires Shape(Short(k, val))
    ensures if k[0] == TERMINATOR then Leaf(k[1..], val).Value? else Shape(Leaf(k[1..], val))
  {
    if HasTerm(k) {
      TermTail(k);
    }
  }

  lemma SuffixShape(k: seq<Nib>, val: Node, m: nat)
    requires Shape(Short(k, val)) && m < |k|
    ensures Shape(Short(k[m..], val))
  {
    if HasTerm(k) {
      TermSuffix(k, m);
    }
  }

  lemma BranchShape(k: seq<Nib>, val: Node, key: seq<Nib>, v: Bytes)
    requires Shape(Short(k, val)) && IsTerminated(key) && CommonPrefix(key, k) == 0
    ensures Shape(Branch(k, val, key, Value(v)))
  {
    LeafShape(k, val);
    LeafShape(key, Value(v));
  }

  lemma SplitShape(k: seq<Nib>, val: Node, key: seq<Nib>, m: nat, v: Bytes)
    requires Shape(Short(k, val)) && IsTerminated(key)
    requires m == CommonPrefix(key, k) < |k| && m < |key|
    ensures Shape(Split(k, val, key, m, Value(v)))
  {
    hide Branch;
    TermSuffix(key, m);
    SuffixShape(k, val, m);
    BranchShape(k[m..], val, key[m..], v);
    if m > 0 {
      PlainPrefix(key, m);
    }
  }

  lemma {:induction false} DeleteShape(db: Store, n: Node, prefix: seq<Nib>, key: seq<Nib>)
    requires ShapeStore(db) && ShapeAt(n, key)
    ensures var r := Delete(db, n, prefix, key);
            if r.Ok? then ShapeAt(r.value.node, key) else r.hash !in db
    decreases |key|, n.HashRef?
  {
    match n
    case Short(k, val) =>
      var m := CommonPrefix(key, k);
      if m == |k| < |key| {
        TermPrefix(k, key);
        DeleteShape(db, val, prefix + k, key[|k|..]);
        var r := Delete(db, val, prefix + k, key[|k|..]);
        if r.Ok? && r.value.node.Short? {
          MergeShape(k, r.value.node);
        }
      }
    case Full(cs) =>
      TermTail(key);
      DeleteShape(db, cs[key[0]], prefix + [key[0]], key[1..]);
      var r := Delete(db, cs[key[0]], prefix + [key[0]], key[1..]);
      if r.Ok? {
        ShrinkShape(db, cs[key[0] := r.value.node], prefix);
      }
    case HashRef(h) =>
      if h in db {
        DeleteShape(db, db[h], prefix, key);
      }
    case _ =>
  }

  lemma MergeShape(k: seq<Nib>, n: Node)
    requires IsPlain(k) && n.Short? && Shape(n)
    ensures Shape(Short(k + n.key, n.val))
  {
    var a := k + n.key;
    assert HasTerm(a) <==> HasTerm(n.key);
    if HasTerm(a) {
      assert a[..|a| - 1] == k + n.key[..|n.key| - 1];
    }
  }

  lemma ShrinkShape(db: Store, cs: seq<Node>, prefix: seq<Nib>)
    requires ShapeStore(db) && Shape(Full(cs))
    ensures var r := Shrink(db, cs, prefix);
            if r.Ok? then Shape(r.value) else r.hash !in db
  {
    SolePositionMeaning(cs);
    var pos := SolePosition(cs);
    if 0 <= pos < 16 {
      var c := Resolve(db, cs[pos], prefix);
      if c.Ok? && c.value.Short? {
        MergeShape([pos], c.value);
      }
    }
  }

  // ----- a partly loaded trie and its expansion -----

  function Loaded(db: Store, n: Node): Node {
    if n.HashRef? && n.h in db then db[n.h] else n
  }

  /** Following hash references through the store turns n into the loaded trie t. */
  ghost predicate Expands(db: Store, n: Node, t: Node)
    decreases t
  {
    match t
    case Nil => n.Nil?
    case Value(_) => n == t
    case HashRef(_) => false
    case Short(k, v) => var m := Loaded(db, n); m.Short? && m.key == k && Expands(db, m.val, v)
    case Full(cs) =>
      var m := Loaded(db, n);
      m.Full? && |m.children| == |cs| && forall i :: 0 <= i < |cs| ==> Expands(db, m.children[i], cs[i])
  }

  lemma {:induction false} ExpandsShape(db: Store, n: Node, t: Node)
    requires ShapeStore(db) && Canon(t) && Expands(db, n, t)
    ensures Shape(n)
  {
    if !n.HashRef? {
      match t
      case Short(k, v) =>
        if !HasTerm(k) {
          ExpandsShape(db, n.val, v);
        }
      case Full(cs) =>
        forall i | 0 <= i < 16 ensures Shape(n.children[i]) {
          ExpandsShape(db, n.children[i], cs[i]);
        }
      case _ =>
    }
  }

  lemma ExpandsShapeAt(db: Store, n: Node, t: Node, key: seq<Nib>)
    requires ShapeStore(db) && CanonAt(t, key) && Expands(db, n, t)
    ensures ShapeAt(n, key)
  {
    if |key| > 0 {
      ExpandsShape(db, n, t);
    }
  }

  lemma ReplaceChild(db: Store, cs: seq<Node>, ts: seq<Node>, i: nat, n: Node, t: Node)
    requires Expands(db, Full(cs), Full(ts)) && i < |cs| && Expands(db, n, t)
    ensures Expands(db, Full(cs[i := n]), Full(ts[i := t]))
  {
  }

  /** Looking up in a partly loaded trie answers as its expansion, and what it loads on
      the way still expands to the same trie. */
  lemma {:induction false} GetExpands(db: Store, n: Node, t: Node, prefix: seq<Nib>, key: seq<Nib>)
    requires ShapeStore(db) && CanonAt(t, key) && Expands(db, n, t)
    ensures ShapeAt(n, key)
    ensures var r := Get(db, n, prefix, key);
            r.Ok? && r.value.value == Find(t, key) && Expands(db, r.value.node, t)
    decreases |key|, n.HashRef?
  {
    ExpandsShapeAt(db, n, t, key);
    match n
    case Short(k, val) =>
      if k <= key {
        CanonBelow(k, t.val, key);
        GetExpands(db, val, t.val, prefix + k, key[|k|..]);
      }
    case Full(cs) =>
      CanonChild(t.children, key);
      var i := key[0];
      GetExpands(db, cs[i], t.children[i], prefix + [i], key[1..]);
      var r := Get(db, cs[i], prefix + [i], key[1..]);
      ReplaceChild(db, cs, t.children, i, r.value.node, t.children[i]);
      assert t.children[i := t.children[i]] == t.children;
    case HashRef(h) =>
      GetExpands(db, db[h], t, prefix, key);
    case _ =>
  }

  /** Inserting into a partly loaded trie commutes with expansion. */
  lemma {:induction false} InsertExpands(db: Store, n: Node, t: Node, prefix: seq<Nib>, key: seq<Nib>, v: Bytes)
    requires ShapeStore(db) && CanonAt(t, key) && Expands(db, n, t) && v != []
    ensures ShapeAt(n, key) && ShapeAt(t, key)
    ensures var r, s := Insert(db, n, prefix, key, v), Insert(db, t, prefix, key, v);
            r.Ok? && s.Ok? && r.value.dirty == s.value.dirty && Expands(db, r.value.node, s.value.node)
    decreases |key|, n.HashRef?
  {
    ExpandsShapeAt(db, n, t, key);
    InsertCanon(db, t, prefix, key, v);
    if |key| > 0 {
      match n
      case Short(k, val) =>
        var m := CommonPrefix(key, k);
        TermSplit(key, k);
        if m == |k| {
          CanonBelow(k, t.val, key);
          InsertExpands(db, val, t.val, prefix + key[..m], key[m..], v);
        } else {
          SplitExpands(db, k, val, t.val, key, m, v);
        }
      case Full(cs) =>
        CanonChild(t.children, key);
        var i := key[0];
        InsertExpands(db, cs[i], t.children[i], prefix + [i], key[1..], v);
        ReplaceChild(db, cs, t.children, i, Insert(db, cs[i], prefix + [i], key[1..], v).value.node,
                     Insert(db, t.children[i], prefix + [i], key[1..], v).value.node);
      case HashRef(h) =>
        InsertExpands(db, db[h], t, prefix, key, v);
      case Nil =>
    }
  }

  lemma SplitExpands(db: Store, k: seq<Nib>, n: Node, t: Node, key: seq<Nib>, m: nat, v: Bytes)
    requires Expands(db, n, t) && m < |k| && m < |key|
    ensures Expands(db, Split(k, n, key, m, Value(v)), Split(k, t, key, m, Value(v)))
  {
    var k', key' := k[m..], key[m..];
    assert Expands(db, Leaf(k'[1..], n), Leaf(k'[1..], t));
    assert Expands(db, Leaf(key'[1..], Value(v)), Leaf(key'[1..], Value(v)));
    var cs, ts := Branch(k', n, key', Value(v)).children, Branch(k', t, key', Value(v)).children;
    assert forall i :: 0 <= i < 17 ==> Expands(db, cs[i], ts[i]);
  }

  /** Deleting from a partly loaded trie commutes with expansion; the one extra node it
      resolves is there because the expansion is. */
  lemma {:induction false} DeleteExpands(db: Store, n: Node, t: Node, prefix: seq<Nib>, key: seq<Nib>)
    requires ShapeStore(db) && CanonAt(t, key) && Expands(db, n, t)
    ensures ShapeAt(n, key) && ShapeAt(t, key)
    ensures var r, s := Delete(db, n, prefix, key), Delete(db, t, prefix, key);
            r.Ok? && s.Ok? && r.value.dirty == s.value.dirty && Expands(db, r.value.node, s.value.node)
    decreases |key|, n.HashRef?, 1
  {
    ExpandsShapeAt(db, n, t, key);
    DeleteCanon(db, t, prefix, key);
    match n
    case Short(k, val) =>
      DeleteExpandsShort(db, k, val, t.val, prefix, key);
    case Full(cs) =>
      DeleteExpandsFull(db, cs, t.children, prefix, key);
    case HashRef(h) =>
      DeleteExpands(db, db[h], t, prefix, key);
    case _ =>
  }

  lemma {:induction false} DeleteExpandsShort(db: Store, k: seq<Nib>, n: Node, t: Node, prefix: seq<Nib>, key: seq<Nib>)
    requires ShapeStore(db) && Canon(Short(k, t)) && IsTerminated(key) && Expands(db, n, t)
    requires ShapeAt(Short(k, n), key) && ShapeAt(Short(k, t), key)
    ensures var r, s := Delete(db, Short(k, n), prefix, key), Delete(db, Short(k, t), prefix, key);
            r.Ok? && s.Ok? && r.value.dirty == s.value.dirty && Expands(db, r.value.node, s.value.node)
    decreases |key|, false, 0
  {
    if CommonPrefix(key, k) == |k| < |key| {
      CanonBelow(k, t, key);
      DeleteExpands(db, n, t, prefix + k, key[|k|..]);
      DeletedIsLoaded(db, n, prefix + k, key[|k|..]);
    }
  }

  /** What a deletion puts in place of a node is never a bare hash. */
  lemma {:induction false} DeletedIsLoaded(db: Store, n: Node, prefix: seq<Nib>, key: seq<Nib>)
    requires ShapeStore(db) && ShapeAt(n, key)
    ensures var r := Delete(db, n, prefix, key); r.Ok? ==> !r.value.node.HashRef?
    decreases |key|, n.HashRef?
  {
    if n.HashRef? && n.h in db {
      DeletedIsLoaded(db, db[n.h], prefix, key);
    }
  }

  lemma {:induction false} DeleteExpandsFull(db: Store, cs: seq<Node>, ts: seq<Node>, prefix: seq<Nib>, key: seq<Nib>)
    requires ShapeStore(db) && Canon(Full(ts)) && IsTerminated(key) && Expands(db, Full(cs), Full(ts))
    requires ShapeAt(Full(cs), key) && ShapeAt(Full(ts), key)
    ensures var r, s := Delete(db, Full(cs), prefix, key), Delete(db, Full(ts), prefix, key);
            r.Ok? && s.Ok? && r.value.dirty == s.value.dirty && Expands(db, r.value.node, s.value.node)
    decreases |key|, false, 0
  {
    CanonChild(ts, key);
    var i := key[0];
    DeleteExpands(db, cs[i], ts[i], prefix + [i], key[1..]);
    DeleteCanon(db, ts[i], prefix + [i], key[1..]);
    var r := Delete(db, cs[i], prefix + [i], key[1..]).value.node;
    var s := Delete(db, ts[i], prefix + [i], key[1..]).value.node;
    RemoveChildCanon(db, ts, prefix, key, s);
    ShrinkExpands(db, cs[i := r], ts[i := s], prefix);
  }

  lemma {:induction false} SoleSame(cs: seq<Node>, ts: seq<Node>)
    requires |cs| == |ts| && forall i :: 0 <= i < |cs| ==> (cs[i].Nil? <==> ts[i].Nil?)
    ensures SolePosition(cs) == SolePosition(ts)
  {
    if |cs| > 0 {
      SoleSame(cs[..|cs| - 1], ts[..|cs| - 1]);
    }
  }

  lemma ShrinkExpands(db: Store, cs: seq<Node>, ts: seq<Node>, prefix: seq<Nib>)
    requires ShapeStore(db) && |cs| == |ts| == 17 && Shrink(db, ts, prefix).Ok?
    requires forall i :: 0 <= i < 17 ==> Expands(db, cs[i], ts[i])
    ensures Shrink(db, cs, prefix).Ok?
    ensures Expands(db, Shrink(db, cs, prefix).value, Shrink(db, ts, prefix).value)
  {
    forall i | 0 <= i < 17 ensures cs[i].Nil? <==> ts[i].Nil? {
      assert Expands(db, cs[i], ts[i]);
    }
    SoleSame(cs, ts);
    SolePositionMeaning(ts);
    var pos := SolePosition(ts);
    if pos >= 0 {
      assert Expands(db, cs[pos], ts[pos]);
    }
  }

  // ----- the object -----

  const ZERO_HASH: Hash := 0
  /** The hash of the empty trie. */
  const EMPTY_ROOT: Hash := 1

  /** New: a trie from its root hash. Only the root node is loaded. */
  method New(h: Hash, db: Store, ghost full: Node) returns (r: Result<Trie>)
    requires ShapeStore(db)
    ensures r == MissingNode(h, []) <==> h != ZERO_HASH && h != EMPTY_ROOT && h !in db
    ensures r.Ok? <==> h == ZERO_HASH || h == EMPTY_ROOT || h in db
    ensures r.Ok? ==> fresh(r.value) && r.value.Sound() && r.value.db == db
    ensures r.Ok? && (h == ZERO_HASH || h == EMPTY_ROOT) ==> r.value.Valid() && r.value.full == Nil
    ensures r.Ok? && h != ZERO_HASH && h != EMPTY_ROOT && Canon(full) && Expands(db, HashRef(h), full) ==>
      r.value.Valid() && r.value.full == full
  {
    if h == ZERO_HASH || h == EMPTY_ROOT {
      var empty := new Trie(db);
      return Ok(empty);
    }
    if h !in db {
      return MissingNode(h, []);
    }
    var t := new Trie.Stored(db, h, full);
    return Ok(t);
  }

  class Trie {
    const db: Store
    var root: Node
    ghost var full: Node  // the expansion of root

    /** The root can be walked without leaving an array. */
    predicate Sound()
      reads this
    {
      ShapeStore(db) && Shape(root)
    }

    /** Moreover every node of the trie can be resolved. */
    ghost predicate Valid()
      reads this
    {
      ShapeStore(db) && Canon(full) && Expands(db, root, full)
    }

    constructor (db: Store)
      requires ShapeStore(db)
      ensures this.db == db && Valid() && Sound() && full == Nil
    {
      this.db := db;
      root, full := Nil, Nil;
    }

    constructor Stored(db: Store, h: Hash, ghost full: Node)
      requires ShapeStore(db) && h in db
      ensures this.db == db && Sound() && root == db[h] && this.full == full
      ensures Canon(full) && Expands(db, HashRef(h), full) ==> Valid()
    {
      this.db := db;
      root := db[h];
      this.full := full;
    }

    method TryGet(key: Bytes) returns (r: Result<Option<Bytes>>)
      requires Sound()
      modifies this
      ensures Sound() && full == old(full)
      ensures old(Valid()) ==> Valid() && r == Ok(Find(full, KeyHex(key)))
      ensures r.MissingNode? ==> r.hash !in db && root == old(root)
    {
      var hex := KeyHex(key);
      KeyHexInjective(key, key);
      GetShape(db, root, [], hex);
      if Valid() {
        GetExpands(db, root, full, [], hex);
      }
      var f := Get(db, root, [], hex);
      if f.MissingNode? {
        return MissingNode(f.hash, f.path);
      }
      if f.value.resolved {
        root := f.value.node;
      }
      return Ok(f.value.value);
    }

    /** An empty value deletes the key. */
    method TryUpdate(key: Bytes, value: Bytes) returns (r: Result<()>)
      requires Sound()
      modifies this
      ensures Sound()
      ensures old(Valid()) ==> r == Ok(()) && Valid() && full == ApplyOp(db, old(full), Update(key, value))
      ensures r.MissingNode? ==> r.hash !in db && root == old(root) && full == old(full)
    {
      var hex := KeyHex(key);
      KeyHexInjective(key, key);
      if |value| != 0 {
        InsertShape(db, root, [], hex, value);
        if Valid() {
          InsertExpands(db, root, full, [], hex, value);
        }
        var n := Insert(db, root, [], hex, value);
        if n.MissingNode? {
          return MissingNode(n.hash, n.path);
        }
        full := if Valid() then ApplyOp(db, full, Update(key, value)) else full;
        root := n.value.node;
        return Ok(());
      } else {
        r := TryDelete(key);
      }
    }

    method TryDelete(key: Bytes) returns (r: Result<()>)
      requires Sound()
      modifies this
      ensures Sound()
      ensures old(Valid()) ==> r == Ok(()) && Valid() && full == ApplyOp(db, old(full), Remove(key))
      ensures r.MissingNode? ==> r.hash !in db && root == old(root) && full == old(full)
    {
      var hex := KeyHex(key);
      KeyHexInjective(key, key);
      DeleteShape(db, root, [], hex);
      if Valid() {
        DeleteExpands(db, root, full, [], hex);
      }
      var n := Delete(db, root, [], hex);
      if n.MissingNode? {
        return MissingNode(n.hash, n.path);
      }
      full := if Valid() then ApplyOp(db, full, Remove(key)) else full;
      root := n.value.node;
      return Ok(());
    }
  }
}
