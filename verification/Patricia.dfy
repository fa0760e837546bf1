/** The Merkle Patricia trie: lookup, insertion and deletion over nodes that may
    be loaded or still be hash references into the node store. */
module Patricia {
  import opened Wrappers
  import opened Encoding

  type Hash = nat
  type Bytes = seq<Byte>

  datatype Node =
    | Nil
    | Value(v: Bytes)
    | Short(key: seq<Nib>, val: Node)
    | Full(children: seq<Node>)
    | HashRef(h: Hash)

  /** What the trie database answers for a hash: the stored node, one level decoded. */
  type Store = map<Hash, Node>

  /** A result, or the MissingNodeError of an unresolvable hash. */
  datatype Result<+T> = Ok(value: T) | MissingNode(hash: Hash, path: seq<Nib>) {
    predicate IsFailure() {
      MissingNode?
    }
    function PropagateFailure<U>(): Result<U>
      requires MissingNode?
    {
      MissingNode(hash, path)
    }
    function Extract(): T
      requires Ok?
    {
      value
    }
  }

  datatype Found = Found(value: Option<Bytes>, node: Node, resolved: bool)
  datatype Changed = Changed(dirty: bool, node: Node)

  function NoChildren(): (cs: seq<Node>)
    ensures |cs| == 17 && forall i :: 0 <= i < 17 ==> cs[i].Nil?
  {
    [Nil, Nil, Nil, Nil, Nil, Nil, Nil, Nil, Nil, Nil, Nil, Nil, Nil, Nil, Nil, Nil, Nil]
  }

  /** The shape that keeps every operation inside its arrays: keys of short nodes
      are nonempty and terminated exactly above values. */
  predicate Shape(n: Node) {
    match n
    case Nil => true
    case HashRef(_) => true
    case Value(_) => false
    case Short(k, v) => |k| > 0 && if HasTerm(k) then IsTerminated(k) && v.Value? else IsPlain(k) && Shape(v)
    case Full(cs) => |cs| == 17 && (cs[16].Nil? || cs[16].Value?) && forall i :: 0 <= i < 16 ==> Shape(cs[i])
  }

  /** Shape at the place where `key` is what remains of the path. */
  predicate ShapeAt(n: Node, key: seq<Nib>) {
    if |key| == 0 then n.Nil? || n.Value? else IsTerminated(key) && Shape(n)
  }

  predicate ShapeStore(db: Store) {
    forall h :: h in db ==> Shape(db[h]) && (db[h].Short? || db[h].Full?)
  }

  lemma TermSuffix(key: seq<Nib>, i: nat)
    requires IsTerminated(key) && i < |key|
    ensures IsTerminated(key[i..])
    ensures i == |key| - 1 <==> key[i] == TERMINATOR
  {
    var plain := key[..|key| - 1];
    assert forall j :: 0 <= j < |plain| ==> plain[j] == key[j];
  }

  /** A step below a full node. */
  lemma TermTail(key: seq<Nib>)
    requires IsTerminated(key)
    ensures key[0] == TERMINATOR <==> |key| == 1
    ensures |key| > 1 ==> IsTerminated(key[1..])
  {
    TermSuffix(key, 0);
    if |key| > 1 {
      TermSuffix(key, 1);
    }
  }

  /** A step below a short node whose key is a prefix of the path. */
  lemma TermPrefix(k: seq<Nib>, key: seq<Nib>)
    requires IsTerminated(key) && 0 < |k| && k <= key
    ensures HasTerm(k) ==> k == key
    ensures IsPlain(k) ==> |k| < |key| && IsTerminated(key[|k|..])
  {
    TermSuffix(key, |k| - 1);
    if IsPlain(k) {
      assert |k| < |key|;
      TermSuffix(key, |k|);
    }
  }

  /** Where a terminated path and a short node's key part ways, neither is exhausted. */
  lemma TermSplit(key: seq<Nib>, k: seq<Nib>)
    requires IsTerminated(key) && (IsTerminated(k) || IsPlain(k))
    ensures CommonPrefix(key, k) < |k| ==> CommonPrefix(key, k) < |key|
  {
    var m := CommonPrefix(key, k);
    if m == |key| < |k| {
      TermSuffix(key, |key| - 1);
      assert k[|key| - 1] == key[|key| - 1] == TERMINATOR;
      if IsTerminated(k) {
        TermSuffix(k, |key| - 1);
      }
    }
  }

  function Get(db: Store, n: Node, prefix: seq<Nib>, key: seq<Nib>): Result<Found>
    requires ShapeStore(db) && ShapeAt(n, key)
    decreases |key|, n.HashRef?
  {
    match n
    case Nil => Ok(Found(None, Nil, false))
    case Value(v) => Ok(Found(Some(v), n, false))
    case Short(k, val) =>
      if |key| < |k| || key[..|k|] != k then Ok(Found(None, n, false))
      else
        TermPrefix(k, key);
        var f :- Get(db, val, prefix + k, key[|k|..]);
        Ok(Found(f.value, if f.resolved then Short(k, f.node) else n, f.resolved))
    case Full(cs) =>
      TermTail(key);
      var f :- Get(db, cs[key[0]], prefix + [key[0]], key[1..]);
      Ok(Found(f.value, if f.resolved then Full(cs[key[0] := f.node]) else n, f.resolved))
    case HashRef(h) =>
      var child :- ResolveHash(db, h, prefix);
      var f :- Get(db, child, prefix, key);
      Ok(Found(f.value, f.node, true))
  }

  function ResolveHash(db: Store, h: Hash, prefix: seq<Nib>): (r: Result<Node>)
    requires ShapeStore(db)
    ensures r.Ok? ==> Shape(r.value) && (r.value.Short? || r.value.Full?)
  {
    if h in db then Ok(db[h]) else MissingNode(h, prefix)
  }

  function Resolve(db: Store, n: Node, prefix: seq<Nib>): Result<Node>
    requires ShapeStore(db)
  {
    if n.HashRef? then ResolveHash(db, n.h, prefix) else Ok(n)
  }

  /** Insertion below an empty slot. */
  function Leaf(key: seq<Nib>, val: Node): Node {
    if |key| == 0 then val else Short(key, val)
  }

  /** The full node where a short node's key and the inserted key part ways. */
  function Branch(k: seq<Nib>, val: Node, key: seq<Nib>, value: Node): Node
    requires 0 < |k| && 0 < |key|
  {
    Full(NoChildren()[k[0] := Leaf(k[1..], val)][key[0] := Leaf(key[1..], value)])
  }

  /** A branch in place of a short node, below a short node for the common prefix. */
  function Split(k: seq<Nib>, val: Node, key: seq<Nib>, m: nat, value: Node): Node
    requires m < |k| && m < |key|
  {
    var branch := Branch(k[m..], val, key[m..], value);
    if m == 0 then branch else Short(key[..m], branch)
  }

  function Insert(db: Store, n: Node, prefix: seq<Nib>, key: seq<Nib>, value: Bytes): Result<Changed>
    requires ShapeStore(db) && ShapeAt(n, key)
    decreases |key|, n.HashRef?
  {
    if |key| == 0 then Ok(Changed(n != Value(value), Value(value)))
    else match n
      case Short(k, val) =>
        var m := CommonPrefix(key, k);
        TermSplit(key, k);
        if m == |k| then
          TermPrefix(k, key);
          var r :- Insert(db, val, prefix + key[..m], key[m..], value);
          Ok(if r.dirty then Changed(true, Short(k, r.node)) else Changed(false, n))
        else
          Ok(Changed(true, Split(k, val, key, m, Value(value))))
      case Full(cs) =>
        TermTail(key);
        var r :- Insert(db, cs[key[0]], prefix + [key[0]], key[1..], value);
        Ok(if r.dirty then Changed(true, Full(cs[key[0] := r.node])) else Changed(false, n))
      case Nil => Ok(Changed(true, Short(key, Value(value))))
      case HashRef(h) =>
        var rn :- ResolveHash(db, h, prefix);
        var r :- Insert(db, rn, prefix, key, value);
        Ok(if r.dirty then r else Changed(false, rn))
  }

  predicate OnlyChild(cs: seq<Node>, p: nat) {
    p < |cs| && !cs[p].Nil? && forall i :: 0 <= i < |cs| && i != p ==> cs[i].Nil?
  }

  predicate TwoChildren(cs: seq<Node>) {
    exists i, j :: 0 <= i < j < |cs| && !cs[i].Nil? && !cs[j].Nil?
  }

  /** The position of the single non-empty child, -2 if there are several, -1 if none. */
  function SolePosition(cs: seq<Node>): (pos: int)
    ensures pos == -2 || pos == -1 || 0 <= pos < |cs|
  {
    if |cs| == 0 then -1
    else
      var rest := SolePosition(cs[..|cs| - 1]);
      if cs[|cs| - 1].Nil? then rest
      else if rest == -1 then |cs| - 1
      else -2
  }

  lemma {:induction false} SolePositionMeaning(cs: seq<Node>)
    ensures var pos := SolePosition(cs);
            && (pos >= 0 ==> OnlyChild(cs, pos))
            && (pos == -2 ==> TwoChildren(cs))
            && (pos == -1 ==> forall i :: 0 <= i < |cs| ==> cs[i].Nil?)
  {
    if |cs| > 0 {
      var front, last := cs[..|cs| - 1], |cs| - 1;
      SolePositionMeaning(front);
      var rest := SolePosition(front);
      if TwoChildren(front) {
        var i, j :| 0 <= i < j < |front| && !front[i].Nil? && !front[j].Nil?;
        assert !cs[i].Nil? && !cs[j].Nil?;
      } else if rest >= 0 && !cs[last].Nil? {
        assert !cs[rest].Nil? && !cs[last].Nil?;
      }
    }
  }

  /** The counting loop of delete. */
  method FindSole(cs: seq<Node>) returns (pos: int)
    ensures pos == SolePosition(cs)
  {
    pos := -1;
    for i := 0 to |cs|
      invariant -1 <= pos < i
      invariant pos >= 0 ==> !cs[pos].Nil?
      invariant forall k :: 0 <= k < i && k != pos ==> cs[k].Nil?
    {
      if !cs[i].Nil? {
        if pos == -1 {
          pos := i;
        } else {
          assert !cs[pos].Nil?;
          pos := -2;
          SolePositionMeaning(cs);
          return;
        }
      }
    }
    SolePositionMeaning(cs);
  }

  /** A full node with one entry left becomes a short node, absorbing a short child. */
  function Shrink(db: Store, cs: seq<Node>, prefix: seq<Nib>): Result<Node>
    requires ShapeStore(db) && |cs| == 17
  {
    var pos := SolePosition(cs);
    if pos < 0 then Ok(Full(cs))
    else if pos == 16 then Ok(Short([pos], cs[pos]))
    else
      var cnode :- Resolve(db, cs[pos], prefix);
      Ok(if cnode.Short? then Short([pos] + cnode.key, cnode.val) else Short([pos], cs[pos]))
  }

  function Delete(db: Store, n: Node, prefix: seq<Nib>, key: seq<Nib>): Result<Changed>
    requires ShapeStore(db) && ShapeAt(n, key)
    decreases |key|, n.HashRef?
  {
    match n
    case Short(k, val) =>
      var m := CommonPrefix(key, k);
      if m < |k| then Ok(Changed(false, n))
      else if m == |key| then Ok(Changed(true, Nil))
      else
        TermPrefix(k, key);
        var r :- Delete(db, val, prefix + k, key[|k|..]);
        if !r.dirty then Ok(Changed(false, n))
        else if r.node.Short? then Ok(Changed(true, Short(k + r.node.key, r.node.val)))
        else Ok(Changed(true, Short(k, r.node)))
    case Full(cs) =>
      TermTail(key);
      var r :- Delete(db, cs[key[0]], prefix + [key[0]], key[1..]);
      if !r.dirty then Ok(Changed(false, n))
      else
        var shrunk :- Shrink(db, cs[key[0] := r.node], prefix);
        Ok(Changed(true, shrunk))
    case Value(_) => Ok(Changed(true, Nil))
    case Nil => Ok(Changed(false, Nil))
    case HashRef(h) =>
      var rn :- ResolveHash(db, h, prefix);
      var r :- Delete(db, rn, prefix, key);
      Ok(if r.dirty then r else Changed(false, rn))
  }
}
