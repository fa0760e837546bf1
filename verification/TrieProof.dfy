/** Merkle proofs: what Prove writes for a key, and what VerifyProof concludes from any
    database whose nodes are stored under their own hashes. */
module TrieProof {
  import opened Wrappers
  import opened Encoding
  import opened Patricia
  import opened TrieMap
  import opened Trie

  /** The node hash, and which encodings are short enough to be embedded in their parent. */
  datatype Hasher = Hasher(hash: Node -> Hash, small: Node -> bool) {
    ghost predicate Injective() {
      forall a, b :: hash(a) == hash(b) ==> a == b
    }
  }

  // ----- collapsed nodes -----

  /** The stored form of a node: its children by reference, or embedded if small. */
  function Collapse(c: Hasher, n: Node): Node
    decreases n, 0
  {
    match n
    case Short(k, v) => Short(k, Reference(c, v))
    case Full(cs) => Full(seq(|cs|, i requires 0 <= i < |cs| => Reference(c, cs[i])))
    case _ => n
  }

  function Reference(c: Hasher, n: Node): Node
    decreases n, 1
  {
    if n.Short? || n.Full? then
      var k := Collapse(c, n);
      if c.small(k) then k else HashRef(c.hash(k))
    else n
  }

  ghost predicate ContentAddressed(c: Hasher, db: Store) {
    forall h :: h in db ==> c.hash(db[h]) == h
  }

  /** No reference to a small node, at any depth. */
  ghost predicate RefsLarge(c: Hasher, all: Store, n: Node) {
    match n
    case Short(_, v) => RefLarge(c, all, v) && RefsLarge(c, all, v)
    case Full(cs) => forall i :: 0 <= i < |cs| ==> RefLarge(c, all, cs[i]) && RefsLarge(c, all, cs[i])
    case _ => true
  }

  ghost predicate RefLarge(c: Hasher, all: Store, n: Node) {
    n.HashRef? && n.h in all ==> !c.small(all[n.h])
  }

  /** A node store as committing tries fills it. */
  ghost predicate Committed(c: Hasher, all: Store) {
    && ShapeStore(all)
    && ContentAddressed(c, all)
    && forall h :: h in all ==> Collapse(c, all[h]) == all[h] && RefsLarge(c, all, all[h])
  }

  /** A partly loaded node has the same stored form as its expansion. */
  lemma {:induction false} ExpandsCollapse(c: Hasher, all: Store, n: Node, t: Node)
    requires Committed(c, all) && Expands(all, n, t) && (Canon(t) || t.Value?) && RefsLarge(c, all, n)
    ensures !n.HashRef? ==> Collapse(c, n) == Collapse(c, t)
    ensures n.HashRef? ==> n.h in all && all[n.h] == Collapse(c, t) && c.hash(Collapse(c, t)) == n.h
    decreases t, n.HashRef?, 0
  {
    if n.HashRef? {
      ExpandsCollapse(c, all, all[n.h], t);
    } else {
      match t
      case Short(_, v) => ExpandsReference(c, all, n.val, v);
      case Full(cs) =>
        forall i | 0 <= i < |cs|
          ensures Reference(c, n.children[i]) == Reference(c, cs[i])
        {
          assert Canon(cs[i]) || cs[i].Value?;
          ExpandsReference(c, all, n.children[i], cs[i]);
        }
        assert Collapse(c, n).children == Collapse(c, t).children;
      case _ =>
    }
  }

  lemma {:induction false} ExpandsReference(c: Hasher, all: Store, n: Node, t: Node)
    requires Committed(c, all) && Expands(all, n, t) && (Canon(t) || t.Value?)
    requires RefLarge(c, all, n) && RefsLarge(c, all, n)
    ensures Reference(c, n) == Reference(c, t)
    decreases t, true, 1
  {
    ExpandsCollapse(c, all, n, t);
  }

  // ----- the nodes on the way to a key -----

  /** All nodes on the path to the key, ending with the one that settles it. */
  function PathNodes(t: Node, key: seq<Nib>): seq<Node> {
    if |key| == 0 then []
    else match t
      case Short(k, v) => [t] + if k <= key then PathNodes(v, key[|k|..]) else []
      case Full(cs) => [t] + if key[0] < |cs| then PathNodes(cs[key[0]], key[1..]) else []
      case _ => []
  }

  /** The proof elements among path nodes, from a level on: the first, and every node that
      is referred to by its hash. */
  function Elements(c: Hasher, nodes: seq<Node>, first: bool, level: nat): seq<Node>
    decreases |nodes|
  {
    if |nodes| == 0 then []
    else
      var k := Collapse(c, nodes[0]);
      if first || !c.small(k) then
        if level > 0 then Elements(c, nodes[1..], false, level - 1)
        else [k] + Elements(c, nodes[1..], false, 0)
      else Elements(c, nodes[1..], false, level)
  }

  function PutAll(c: Hasher, db: Store, nodes: seq<Node>): Store
    decreases |nodes|
  {
    if |nodes| == 0 then db else PutAll(c, db[c.hash(nodes[0]) := nodes[0]], nodes[1..])
  }

  /** The path through a node as stored: the rest of the key, and the value, reference or
      gap it runs into. */
  function Walk(n: Node, key: seq<Nib>): (seq<Nib>, Node) {
    match n
    case Short(k, v) => if k <= key then Walk(v, key[|k|..]) else ([], Nil)
    case Full(cs) => if |key| > 0 && key[0] < |cs| then Walk(cs[key[0]], key[1..]) else ([], Nil)
    case HashRef(_) => (key, n)
    case Nil => (key, Nil)
    case Value(_) => ([], n)
  }

  predicate IsSuffix<T(==)>(a: seq<T>, b: seq<T>) {
    |a| <= |b| && b[|b| - |a|..] == a
  }

  lemma SuffixCons<T>(a: seq<T>, b: seq<T>, x: T)
    requires IsSuffix(a, b)
    ensures IsSuffix(a, [x] + b)
  {
  }

  /** Subtrie s is reached by reference on the way to the key, with `rest` still to go. */
  ghost predicate Reached(c: Hasher, t: Node, key: seq<Nib>, s: Node, rest: seq<Nib>) {
    && CanonAt(s, rest) && |rest| > 0 && !s.Nil? && |rest| <= |key|
    && !c.small(Collapse(c, s))
    && Find(t, key) == Find(s, rest)
    && IsSuffix(PathNodes(s, rest), PathNodes(t, key))
  }

  /** What a walk that ended at n concludes about the key. */
  ghost predicate Concludes(c: Hasher, t: Node, key: seq<Nib>, n: Node, s: Node, rest: seq<Nib>) {
    match n
    case Nil => Find(t, key) == None
    case Value(v) => Find(t, key) == Some(v)
    case HashRef(h) => h == c.hash(Collapse(c, s)) && Reached(c, t, key, s, rest)
    case _ => false
  }

  /** Walking the stored form of a trie: a settled walk gives its answer, a reference is to
      the stored form of a subtrie on the path that gives it. */
  lemma {:induction false} WalkCollapsed(c: Hasher, t: Node, key: seq<Nib>) returns (s: Node)
    requires CanonAt(t, key)
    ensures var (rest, n) := Walk(Collapse(c, t), key);
            Concludes(c, t, key, n, s, rest) && (n.HashRef? ==> |rest| < |key|)
    decreases |key|, 1
  {
    s := t;
    match t
    case Short(k, v) =>
      if k <= key {
        CanonBelow(k, v, key);
        s := WalkReference(c, v, key[|k|..]);
        Deeper(c, t, key, v, key[|k|..], s);
      }
    case Full(cs) =>
      CanonChild(cs, key);
      s := WalkReference(c, cs[key[0]], key[1..]);
      Deeper(c, t, key, cs[key[0]], key[1..], s);
    case _ =>
  }

  /** What holds of the next subtrie on the path holds from one node up. */
  lemma Deeper(c: Hasher, t: Node, key: seq<Nib>, t': Node, key': seq<Nib>, s: Node)
    requires |key'| < |key| && Find(t, key) == Find(t', key')
    requires PathNodes(t, key) == [t] + PathNodes(t', key')
    requires var (rest, n) := Walk(Reference(c, t'), key'); Concludes(c, t', key', n, s, rest)
    ensures var (rest, n) := Walk(Reference(c, t'), key');
            Concludes(c, t, key, n, s, rest) && (n.HashRef? ==> |rest| < |key|)
  {
    var (rest, n) := Walk(Reference(c, t'), key');
    if n.HashRef? {
      SuffixCons(PathNodes(s, rest), PathNodes(t', key'), t);
    }
  }

  lemma {:induction false} WalkReference(c: Hasher, t: Node, key: seq<Nib>) returns (s: Node)
    requires CanonAt(t, key)
    ensures var (rest, n) := Walk(Reference(c, t), key); Concludes(c, t, key, n, s, rest)
    decreases |key|, 2
  {
    s := t;
    if t.Short? || t.Full? {
      if c.small(Collapse(c, t)) {
        s := WalkCollapsed(c, t, key);
      }
    }
  }

  // ----- verification -----

  datatype Verdict = Verified(value: Option<Bytes>) | Missing(hash: Hash) | Bad(hash: Hash)

  /** What decodeNode makes of stored bytes; others it refuses. */
  predicate Decodes(n: Node) {
    (n.Short? || n.Full?) && Shape(n)
  }

  /** Follows a key through one stored node with what is embedded in it. */
  method Get(n: Node, key: seq<Nib>) returns (rest: seq<Nib>, tn: Node)
    requires ShapeAt(n, key)
    ensures (rest, tn) == Walk(n, key) && !tn.Short? && !tn.Full?
    ensures tn.HashRef? ==> IsTerminated(rest) && |rest| <= |key| && (!n.HashRef? ==> |rest| < |key|)
  {
    rest, tn := key, n;
    while true
      invariant ShapeAt(tn, rest) && |rest| <= |key| && Walk(tn, rest) == Walk(n, key)
      invariant tn == n || |rest| < |key|
      decreases tn
    {
      match tn
      case Short(k, v) =>
        if |rest| < |k| || k != rest[..|k|] {
          return [], Nil;
        }
        TermPrefix(k, rest);
        tn, rest := v, rest[|k|..];
      case Full(cs) =>
        TermTail(rest);
        tn, rest := cs[rest[0]], rest[1..];
      case HashRef(_) => return rest, tn;
      case Nil => return rest, Nil;
      case Value(_) => return [], tn;
    }
  }

  /** The database has the first node and every other one that is not embedded. */
  ghost predicate Covers(c: Hasher, db: Store, nodes: seq<Node>) {
    forall i :: 0 <= i < |nodes| && (i == 0 || !c.small(Collapse(c, nodes[i]))) ==> c.hash(Collapse(c, nodes[i])) in db
  }

  lemma CoversSuffix(c: Hasher, db: Store, nodes: seq<Node>, suffix: seq<Node>)
    requires Covers(c, db, nodes) && IsSuffix(suffix, nodes)
    requires |suffix| > 0 ==> !c.small(Collapse(c, suffix[0]))
    ensures Covers(c, db, suffix)
  {
    forall i | 0 <= i < |suffix| && (i == 0 || !c.small(Collapse(c, suffix[i])))
      ensures c.hash(Collapse(c, suffix[i])) in db
    {
      var j := |nodes| - |suffix| + i;
      assert suffix[i] == nodes[j];
    }
  }

  /** The non-empty trie whose root hash a proof is checked against. */
  ghost predicate ProofOf(c: Hasher, db: Store, t: Node, rootHash: Hash) {
    c.Injective() && ContentAddressed(c, db) && Canon(t) && !t.Nil? && rootHash == c.hash(Collapse(c, t))
  }

  /** From a database that keeps every node under its own hash, no answer but the trie's own
      can be had, and it is had whenever the nodes on the path are there, whatever else is. */
  method VerifyProof(rootHash: Hash, key: Bytes, proofDb: Store, ghost c: Hasher, ghost t: Node) returns (r: Verdict)
    ensures ProofOf(c, proofDb, t, rootHash) && r.Verified? ==> r.value == Find(t, KeyHex(key))
    ensures ProofOf(c, proofDb, t, rootHash) && Covers(c, proofDb, PathNodes(t, KeyHex(key))) ==> r.Verified?
    ensures r.Missing? ==> r.hash !in proofDb
    ensures r.Bad? ==> r.hash in proofDb && !Decodes(proofDb[r.hash]) && !ProofOf(c, proofDb, t, rootHash)
  {
    hide Shape, Canon, Find, Collapse, Covers, ContentAddressed;
    KeyHexInjective(key, key);
    var hex, wantHash := KeyHex(key), rootHash;
    ghost var s, proper := t, ProofOf(c, proofDb, t, rootHash);
    ghost var covered := proper && Covers(c, proofDb, PathNodes(t, hex));
    while true
      invariant IsTerminated(hex)
      invariant proper ==> ProofOf(c, proofDb, s, wantHash) && Find(s, hex) == Find(t, KeyHex(key))
      invariant covered ==> proper && Covers(c, proofDb, PathNodes(s, hex))
      decreases |hex|
    {
      if covered {
        RootCovered(c, proofDb, s, hex);
      }
      if wantHash !in proofDb {
        return Missing(wantHash);
      }
      var n := proofDb[wantHash];
      if proper {
        ProofDecodes(c, proofDb, s, wantHash);
      }
      if !Decodes(n) {
        return Bad(wantHash);
      }
      var rest, child := Get(n, hex);
      ghost var s' := s;
      if proper {
        s' := VerifyStep(c, proofDb, s, wantHash, hex);
      }
      match child
      case Nil => return Verified(None);
      case HashRef(h) =>
        if covered {
          CoversSuffix(c, proofDb, PathNodes(s, hex), PathNodes(s', rest));
        }
        s, hex, wantHash := s', rest, h;
      case Value(v) => return Verified(Some(v));
    }
  }

  /** Under a trie's root hash there is nothing but its own node. */
  lemma ProofDecodes(c: Hasher, db: Store, t: Node, h: Hash)
    requires ProofOf(c, db, t, h) && h in db
    ensures Decodes(db[h])
  {
    assert db[h] == Collapse(c, t);
    CollapseShape(c, t);
  }

  lemma RootCovered(c: Hasher, db: Store, t: Node, key: seq<Nib>)
    requires Canon(t) && !t.Nil? && |key| > 0 && Covers(c, db, PathNodes(t, key))
    ensures c.hash(Collapse(c, t)) in db
  {
    assert PathNodes(t, key)[0] == t;
  }

  lemma VerifyStep(c: Hasher, db: Store, t: Node, h: Hash, key: seq<Nib>) returns (s: Node)
    requires ProofOf(c, db, t, h) && h in db && IsTerminated(key)
    ensures var (rest, n) := Walk(db[h], key);
            && (n.Nil? ==> Find(t, key) == None)
            && (n.Value? ==> Find(t, key) == Some(n.v))
            && (n.HashRef? && |rest| > 0 ==>
              && ProofOf(c, db, s, n.h) && Find(s, rest) == Find(t, key)
              && IsSuffix(PathNodes(s, rest), PathNodes(t, key))
              && (|PathNodes(s, rest)| > 0 ==> !c.small(Collapse(c, PathNodes(s, rest)[0]))))
  {
    assert db[h] == Collapse(c, t);
    s := WalkCollapsed(c, t, key);
  }

  // ----- proving -----

  /** Loaded path nodes and their expansions have the same stored forms. */
  ghost predicate SameForms(c: Hasher, ns: seq<Node>, ts: seq<Node>) {
    |ns| == |ts| && forall i :: 0 <= i < |ns| ==> Collapse(c, ns[i]) == Collapse(c, ts[i])
  }

  lemma {:induction false} SameElements(c: Hasher, ns: seq<Node>, ts: seq<Node>, first: bool, level: nat)
    requires SameForms(c, ns, ts)
    ensures Elements(c, ns, first, level) == Elements(c, ts, first, level)
    decreases |ns|
  {
    if |ns| > 0 {
      assert ns[0] in ns;
      SameElements(c, ns[1..], ts[1..], false, level);
      if level > 0 {
        SameElements(c, ns[1..], ts[1..], false, level - 1);
      }
    }
  }

  /** The trie object's view: db is the store with holes, all the store without. */
  ghost predicate Provable(c: Hasher, db: Store, all: Store, n: Node, t: Node) {
    && Committed(c, all)
    && (forall h :: h in db ==> h in all && db[h] == all[h])
    && Expands(all, n, t) && RefsLarge(c, all, n)
  }

  /** Collects the nodes on the path to the key, resolving references on the way. */
  method CollectPath(db: Store, root: Node, key: seq<Nib>, ghost c: Hasher, ghost all: Store, ghost full: Node)
    returns (r: Result<seq<Node>>)
    requires Provable(c, db, all, root, full) && Canon(full) && IsTerminated(key)
    ensures r.Ok? ==> SameForms(c, r.value, PathNodes(full, key))
    ensures r.MissingNode? ==> r.hash !in db
  {
    hide Canon, Shape, Committed, RefsLarge, Collapse, Expands, Along;
    AlongStart(full, key);
    var nodes, tn, rest := [], root, key;
    ghost var t, ts := full, [];
    while |rest| > 0 && !tn.Nil?
      invariant CanonAt(t, rest) && Provable(c, db, all, tn, t)
      invariant SameForms(c, nodes, ts) && Along(full, key, ts, t, rest)
      decreases |rest|, !tn.Nil?, tn.HashRef?
    {
      if tn.HashRef? {
        if tn.h !in db {
          return MissingNode(tn.h, []);
        }
        ResolveProvable(c, db, all, tn, t);
        tn := db[tn.h];
      } else {
        ExpandsCollapse(c, all, tn, t);
        StepProvable(c, db, all, tn, t, rest);
        ghost var t0, rest0 := t, rest;
        var n := tn;
        match n {
          case Short(k, v) =>
            if |rest| < |k| || k != rest[..|k|] {
              t, tn := Nil, Nil;
            } else {
              t, tn, rest := t.val, v, rest[|k|..];
            }
          case Full(cs) =>
            t, tn, rest := t.children[rest[0]], cs[rest[0]], rest[1..];
        }
        AlongNext(full, key, ts, t0, rest0, t, rest);
        nodes, ts := nodes + [n], ts + [t0];
      }
    }
    NilExpands(all, tn, t);
    AlongEnd(full, key, ts, t, rest);
    return Ok(nodes);
  }

  lemma NilExpands(all: Store, n: Node, t: Node)
    requires Expands(all, n, t)
    ensures n.Nil? ==> t.Nil?
  {
  }

  /** Having passed ts on the way to the key, what is left is the path from t. */
  ghost predicate Along(full: Node, key: seq<Nib>, ts: seq<Node>, t: Node, rest: seq<Nib>) {
    PathNodes(full, key) == ts + PathNodes(t, rest)
  }

  lemma AlongStart(full: Node, key: seq<Nib>)
    ensures Along(full, key, [], full, key)
  {
  }

  lemma AlongNext(full: Node, key: seq<Nib>, ts: seq<Node>, t: Node, rest: seq<Nib>, t': Node, rest': seq<Nib>)
    requires Along(full, key, ts, t, rest) && |rest| > 0
    requires || (t.Short? && t.key <= rest && t' == t.val && rest' == rest[|t.key|..])
             || (t.Short? && !(t.key <= rest) && t' == Nil)
             || (t.Full? && rest[0] < |t.children| && t' == t.children[rest[0]] && rest' == rest[1..])
    ensures Along(full, key, ts + [t], t', rest')
  {
    assert PathNodes(t, rest) == [t] + PathNodes(t', rest');
    assert ts + [t] + PathNodes(t', rest') == ts + ([t] + PathNodes(t', rest'));
  }

  lemma AlongEnd(full: Node, key: seq<Nib>, ts: seq<Node>, t: Node, rest: seq<Nib>)
    requires Along(full, key, ts, t, rest) && (t.Nil? || |rest| == 0)
    ensures PathNodes(full, key) == ts
  {
  }

  lemma ResolveProvable(c: Hasher, db: Store, all: Store, n: Node, t: Node)
    requires Provable(c, db, all, n, t) && n.HashRef? && n.h in db
    ensures Provable(c, db, all, db[n.h], t) && !db[n.h].HashRef?
  {
  }

  lemma StepProvable(c: Hasher, db: Store, all: Store, n: Node, t: Node, key: seq<Nib>)
    requires Provable(c, db, all, n, t) && Canon(t) && IsTerminated(key) && !n.HashRef? && !n.Nil?
    ensures n.Short? || n.Full?
    ensures n.Short? ==>
      && t.Short? && n.key == t.key && 0 < |n.key|
      && (n.key <= key ==> Provable(c, db, all, n.val, t.val) && CanonAt(t.val, key[|n.key|..]))
    ensures n.Full? ==>
      && t.Full? && |n.children| == |t.children| == 17
      && Provable(c, db, all, n.children[key[0]], t.children[key[0]]) && CanonAt(t.children[key[0]], key[1..])
    ensures Provable(c, db, all, Nil, Nil) && Canon(Nil)
  {
    if n.Short? {
      if n.key <= key {
        CanonBelow(t.key, t.val, key);
      }
    } else {
      CanonChild(t.children, key);
    }
  }

  /** One round of Prove's writing loop. */
  lemma WriteStep(c: Hasher, out: Store, nodes: seq<Node>, i: nat, level: nat)
    requires i < |nodes|
    ensures var n := Collapse(c, nodes[i]);
            PutAll(c, out, Elements(c, nodes[i..], i == 0, level)) ==
            if i != 0 && c.small(n) then PutAll(c, out, Elements(c, nodes[i + 1..], false, level))
            else if level > 0 then PutAll(c, out, Elements(c, nodes[i + 1..], false, level - 1))
            else PutAll(c, out[c.hash(n) := n], Elements(c, nodes[i + 1..], false, 0))
  {
    var n, rest := Collapse(c, nodes[i]), Elements(c, nodes[i + 1..], false, 0);
    assert nodes[i..][1..] == nodes[i + 1..] && nodes[i..][0] == nodes[i];
    assert ([n] + rest)[1..] == rest;
  }

  /** Writes the proof of a key, from a level on, and nothing if a node is missing. */
  method Prove(c: Hasher, db: Store, root: Node, key: Bytes, fromLevel: nat, proofDb: Store, ghost all: Store, ghost full: Node)
    returns (r: Result<Store>)
    requires Provable(c, db, all, root, full) && Canon(full)
    ensures r.Ok? ==> r.value == PutAll(c, proofDb, Elements(c, PathNodes(full, KeyHex(key)), true, fromLevel))
    ensures r.MissingNode? ==> r.hash !in db
  {
    hide Provable, Canon, Collapse, Elements, PutAll, PathNodes;
    KeyHexInjective(key, key);
    var path := CollectPath(db, root, KeyHex(key), c, all, full);
    if path.MissingNode? {
      return MissingNode(path.hash, path.path);
    }
    var nodes, level := path.value, fromLevel;
    var out: Store := proofDb;
    SameElements(c, nodes, PathNodes(full, KeyHex(key)), true, fromLevel);
    for i := 0 to |nodes|
      invariant PutAll(c, out, Elements(c, nodes[i..], i == 0, level)) == PutAll(c, proofDb, Elements(c, nodes, true, fromLevel))
    {
      WriteStep(c, out, nodes, i, level);
      var n := Collapse(c, nodes[i]);
      if i == 0 || !c.small(n) {
        if level > 0 {
          level := level - 1;
        } else {
          out := out[c.hash(n) := n];
        }
      }
    }
    NothingLeft(c, out, nodes, level);
    return Ok(out);
  }

  lemma NothingLeft(c: Hasher, out: Store, nodes: seq<Node>, level: nat)
    ensures PutAll(c, out, Elements(c, nodes[|nodes|..], |nodes| == 0, level)) == out
  {
  }

  // ----- what is proved verifies -----

  lemma {:induction false} PutAllHas(c: Hasher, db: Store, nodes: seq<Node>, n: Node)
    requires c.Injective() && (n in nodes || (c.hash(n) in db && db[c.hash(n)] == n))
    ensures var r := PutAll(c, db, nodes); c.hash(n) in r && r[c.hash(n)] == n
    decreases |nodes|
  {
    if |nodes| > 0 {
      PutAllHas(c, db[c.hash(nodes[0]) := nodes[0]], nodes[1..], n);
    }
  }

  lemma {:induction false} PutAllKeeps(c: Hasher, db: Store, nodes: seq<Node>)
    requires ContentAddressed(c, db)
    ensures ContentAddressed(c, PutAll(c, db, nodes))
    decreases |nodes|
  {
    if |nodes| > 0 {
      PutAllKeeps(c, db[c.hash(nodes[0]) := nodes[0]], nodes[1..]);
    }
  }

  lemma {:induction false} ElementHas(c: Hasher, nodes: seq<Node>, first: bool, i: nat)
    requires i < |nodes| && ((i == 0 && first) || !c.small(Collapse(c, nodes[i])))
    ensures Collapse(c, nodes[i]) in Elements(c, nodes, first, 0)
    decreases |nodes|
  {
    if i > 0 {
      ElementHas(c, nodes[1..], false, i - 1);
    }
  }

  lemma {:induction false} CollapseShape(c: Hasher, t: Node)
    requires Canon(t)
    ensures Shape(Collapse(c, t)) && (Collapse(c, t).Short? <==> t.Short?) && (Collapse(c, t).Full? <==> t.Full?)
    ensures Shape(Reference(c, t))
    decreases t
  {
    match t
    case Short(k, v) =>
      if !HasTerm(k) {
        CollapseShape(c, v);
      }
    case Full(cs) =>
      forall i | 0 <= i < 16 ensures Shape(Reference(c, cs[i])) {
        CollapseShape(c, cs[i]);
      }
    case _ =>
  }

  /** What Prove writes keeps a content-addressed database one, and covers the path. */
  lemma ProofCovers(c: Hasher, db: Store, t: Node, key: seq<Nib>)
    requires c.Injective() && ContentAddressed(c, db) && Canon(t) && IsTerminated(key)
    ensures var r := PutAll(c, db, Elements(c, PathNodes(t, key), true, 0));
            ContentAddressed(c, r) && Covers(c, r, PathNodes(t, key))
  {
    var nodes := PathNodes(t, key);
    var els := Elements(c, nodes, true, 0);
    PutAllKeeps(c, db, els);
    forall i | 0 <= i < |nodes| && (i == 0 || !c.small(Collapse(c, nodes[i])))
      ensures c.hash(Collapse(c, nodes[i])) in PutAll(c, db, els)
    {
      ElementHas(c, nodes, true, i);
      PutAllHas(c, db, els, Collapse(c, nodes[i]));
    }
  }

  /** A full proof of any key of a non-empty trie verifies against the trie's root hash, to
      what lookup answers. */
  method ProveThenVerify(c: Hasher, db: Store, root: Node, key: Bytes, proofDb: Store, ghost all: Store, ghost full: Node)
    returns (r: Result<Verdict>)
    requires Provable(c, db, all, root, full) && Canon(full) && c.Injective()
    requires ContentAddressed(c, proofDb) && !root.Nil?
    ensures r.Ok? ==> r.value == Verified(Find(full, KeyHex(key)))
    ensures r.MissingNode? ==> r.hash !in db
  {
    KeyHexInjective(key, key);
    var proof := Prove(c, db, root, key, 0, proofDb, all, full);
    if proof.MissingNode? {
      return MissingNode(proof.hash, proof.path);
    }
    ProofCovers(c, proofDb, full, KeyHex(key));
    ExpandsCollapse(c, all, root, full);
    var rootHash := if root.HashRef? then root.h else c.hash(Collapse(c, root));
    var verdict := VerifyProof(rootHash, key, proof.value, c, full);
    return Ok(verdict);
  }
}
