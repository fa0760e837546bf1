/** What the trie node cache keeps true, and why each elementary step keeps it:
    counting a reference down, taking a dead node off, forgetting a flushed one. */
module CacheInvariant {
  import opened FlushList

  const CACHED_NODE_SIZE := 160

  /** The hash graph. Keccak is injective, so a hash fixes the node stored under it, the
      nodes it refers to from inside (kids of the content) and from outside (storage roots
      and contract codes of account leaves), and the graph has no cycles. */
  datatype World = World(content: Hash -> Blob, exts: Hash -> set<Hash>, rank: Hash -> nat)

  predicate IsDep(w: World, h: Hash, dep: Hash) {
    dep in w.content(h).kids || dep in w.exts(h)
  }

  ghost predicate Acyclic(w: World) {
    forall h, dep :: IsDep(w, h, dep) ==> dep != META && w.rank(dep) < w.rank(h)
  }

  datatype Cache = Cache(
    dirties: Dirties,
    disk: map<Hash, Blob>,
    oldest: Hash,
    newest: Hash,
    dirtiesSize: int,
    childrenSize: int)

  /** The dirty map holds the meta-root, the listed nodes and the nodes being torn down. */
  ghost predicate Covers(d: Dirties, order: seq<Hash>, dying: seq<Hash>) {
    && META in d
    && Distinct(dying)
    && (forall h :: h in dying ==> h != META && h !in order)
    && (forall h :: h in d <==> h == META || h in order || h in dying)
  }

  /** Entries hold the content of their hash and only its external children, once each. */
  ghost predicate Faithful(w: World, d: Dirties) {
    && META in d && d[META].tracked
    && (forall h :: h in d && h != META ==> d[h].node == w.content(h) && d[h].children.Keys <= w.exts(h))
    && (forall h, c :: h in d && h != META && c in d[h].children ==> d[h].children[c] == 1 && d[h].tracked)
    && (forall c :: c in d[META].children ==> d[META].children[c] > 0 && c != META)
  }

  /** Nothing on disk refers to a node that is not. */
  ghost predicate DiskClosed(w: World, disk: map<Hash, Blob>) {
    && (forall h :: h in disk ==> disk[h] == w.content(h))
    && (forall h, dep :: h in disk && IsDep(w, h, dep) ==> dep in disk)
  }

  ghost predicate RootsKept(d: Dirties, disk: map<Hash, Blob>, order: seq<Hash>) {
    META in d && forall r :: r in d[META].children ==> r in order || r in disk
  }

  /** All a node needs is on disk or listed before it, and then counted. */
  ghost predicate Supported(w: World, n: CachedNode, disk: map<Hash, Blob>, before: seq<Hash>, h: Hash) {
    && (forall dep :: dep in w.content(h).kids ==> dep in disk || dep in before)
    && (forall dep :: dep in w.exts(h) ==> dep in disk || (dep in n.children && dep in before))
    && (forall dep :: dep in n.children ==> dep in disk || dep in before)
  }

  ghost predicate AllSupported(w: World, d: Dirties, disk: map<Hash, Blob>, order: seq<Hash>) {
    forall i :: 0 <= i < |order| ==> order[i] in d && Supported(w, d[order[i]], disk, order[..i], order[i])
  }

  function MetaCount(d: Dirties, n: Hash): nat {
    if META in d && n in d[META].children then d[META].children[n] else 0
  }

  /** Parent counts are exact for the listed nodes that are not on disk; `owed` are the
      references counted but not, or no longer, held by a listed node. */
  ghost predicate Exact(d: Dirties, disk: map<Hash, Blob>, order: seq<Hash>, owed: multiset<Hash>) {
    forall n :: n in order && n !in disk ==> n in d && d[n].parents == Bag(d, order)[n] + MetaCount(d, n) + owed[n]
  }

  function MetaSize(d: Dirties): nat {
    if META in d then |d[META].children| * (HASH_LENGTH + 2) else 0
  }

  ghost predicate Sized(d: Dirties, order: seq<Hash>, dying: seq<Hash>, total: int) {
    total == Weight(d, order) + Weight(d, dying) + MetaSize(d)
  }

  /** Everything in the invariant but the list links. */
  ghost predicate Kept(w: World, d: Dirties, disk: map<Hash, Blob>, order: seq<Hash>, dying: seq<Hash>, owed: multiset<Hash>, total: int) {
    && Acyclic(w)
    && Covers(d, order, dying)
    && Faithful(w, d)
    && DiskClosed(w, disk)
    && RootsKept(d, disk, order)
    && AllSupported(w, d, disk, order)
    && Exact(d, disk, order, owed)
    && Sized(d, order, dying, total)
  }

  ghost predicate Inv(w: World, c: Cache, order: seq<Hash>, dying: seq<Hash>, owed: multiset<Hash>) {
    && IsList(c.dirties, order, c.oldest, c.newest)
    && Kept(w, c.dirties, c.disk, order, dying, owed, c.dirtiesSize + c.childrenSize)
  }

  // ----- the two sizes apart -----

  /** What the listed nodes themselves add to dirtiesSize. */
  function Bytes(w: World, s: seq<Hash>): nat {
    if |s| == 0 then 0 else Bytes(w, s[..|s| - 1]) + HASH_LENGTH + w.content(s[|s| - 1]).size
  }

  function ChildrenWeight(n: CachedNode): nat {
    if n.tracked then CACHED_NODE_CHILDREN_SIZE + |n.children| * (HASH_LENGTH + 2) else 0
  }

  /** What the external children of all nodes ever cleaned have been charged to the wrong
      size. */
  function Charge(cleaned: seq<CachedNode>): nat {
    if |cleaned| == 0 then 0 else Charge(cleaned[..|cleaned| - 1]) + ChildrenWeight(cleaned[|cleaned| - 1])
  }

  /** The size of the dirty nodes is short by exactly that. */
  ghost predicate Charged(w: World, dirtiesSize: int, order: seq<Hash>, dying: seq<Hash>, cleaned: seq<CachedNode>) {
    dirtiesSize == Bytes(w, order) + Bytes(w, dying) - Charge(cleaned)
  }

  lemma {:induction false} BytesAppend(w: World, a: seq<Hash>, b: seq<Hash>)
    ensures Bytes(w, a + b) == Bytes(w, a) + Bytes(w, b)
  {
    if |b| == 0 {
      assert a + b == a;
    } else {
      assert (a + b)[..|a + b| - 1] == a + b[..|b| - 1];
      BytesAppend(w, a, b[..|b| - 1]);
    }
  }

  lemma BytesSnoc(w: World, s: seq<Hash>, h: Hash)
    ensures Bytes(w, s + [h]) == Bytes(w, s) + HASH_LENGTH + w.content(h).size
  {
    assert (s + [h])[..|s|] == s;
  }

  lemma BytesWithout(w: World, s: seq<Hash>, i: nat)
    requires i < |s|
    ensures Bytes(w, s) == Bytes(w, Without(s, i)) + HASH_LENGTH + w.content(s[i]).size
  {
    BytesAppend(w, s[..i], s[i + 1..]);
    BytesSnoc(w, s[..i], s[i]);
    BytesAppend(w, s[..i] + [s[i]], s[i + 1..]);
    assert s == s[..i] + [s[i]] + s[i + 1..];
  }

  lemma ChargedJoin(w: World, size: int, order: seq<Hash>, cleaned: seq<CachedNode>, h: Hash)
    requires Charged(w, size, order, [], cleaned)
    ensures Charged(w, size + (HASH_LENGTH + w.content(h).size), order + [h], [], cleaned)
  {
    BytesSnoc(w, order, h);
  }

  lemma ChargedDetach(w: World, size: int, order: seq<Hash>, dying: seq<Hash>, cleaned: seq<CachedNode>, i: nat)
    requires Charged(w, size, order, dying, cleaned) && i < |order|
    ensures Charged(w, size, Without(order, i), dying + [order[i]], cleaned)
  {
    BytesWithout(w, order, i);
    BytesSnoc(w, dying, order[i]);
  }

  lemma ChargedBury(w: World, size: int, order: seq<Hash>, dying: seq<Hash>, cleaned: seq<CachedNode>, h: Hash)
    requires Charged(w, size, order, dying + [h], cleaned)
    ensures Charged(w, size - (HASH_LENGTH + w.content(h).size), order, dying, cleaned)
  {
    BytesSnoc(w, dying, h);
  }

  lemma ChargedForget(w: World, size: int, order: seq<Hash>, cleaned: seq<CachedNode>)
    requires Charged(w, size, order, [], cleaned) && |order| > 0
    ensures Charged(w, size - (HASH_LENGTH + w.content(order[0]).size), order[1..], [], cleaned)
  {
    BytesWithout(w, order, 0);
    assert Without(order, 0) == order[1..];
  }

  lemma ChargedClean(w: World, size: int, order: seq<Hash>, cleaned: seq<CachedNode>, i: nat, n: CachedNode)
    requires Charged(w, size, order, [], cleaned) && i < |order| && n.node == w.content(order[i])
    ensures Charged(w, size - NodeWeight(n), Without(order, i), [], cleaned + [n])
  {
    BytesWithout(w, order, i);
    assert (cleaned + [n])[..|cleaned|] == cleaned;
  }

  /** Nothing was charged to the wrong size exactly if no node with external children was
      ever cleaned. */
  lemma {:induction false} ChargeIsNone(cleaned: seq<CachedNode>)
    ensures Charge(cleaned) == 0 <==> forall n :: n in cleaned ==> !n.tracked
  {
    if |cleaned| > 0 {
      ChargeIsNone(cleaned[..|cleaned| - 1]);
      assert cleaned == cleaned[..|cleaned| - 1] + [cleaned[|cleaned| - 1]];
    }
  }

  function ChildrenLoad(d: Dirties, s: seq<Hash>): nat {
    if |s| == 0 then 0
    else ChildrenLoad(d, s[..|s| - 1]) + if s[|s| - 1] in d then ChildrenWeight(d[s[|s| - 1]]) else 0
  }

  lemma {:induction false} WeightParts(w: World, d: Dirties, s: seq<Hash>)
    requires forall h :: h in s ==> h in d && d[h].node == w.content(h)
    ensures Weight(d, s) == Bytes(w, s) + ChildrenLoad(d, s)
  {
    if |s| > 0 {
      var front, last := s[..|s| - 1], s[|s| - 1];
      assert last in s && forall h :: h in front ==> h in s;
      WeightParts(w, d, front);
    }
  }

  lemma CachedContent(w: World, c: Cache, order: seq<Hash>, dying: seq<Hash>, owed: multiset<Hash>)
    requires Inv(w, c, order, dying, owed)
    ensures forall h :: h in c.dirties && h != META ==> c.dirties[h].node == w.content(h)
  {
  }

  /** Each size by itself: the one is short, and the other over, by what has been charged. */
  lemma SizesApart(w: World, c: Cache, order: seq<Hash>, cleaned: seq<CachedNode>)
    requires Inv(w, c, order, [], multiset{}) && Charged(w, c.dirtiesSize, order, [], cleaned)
    ensures c.dirtiesSize == Bytes(w, order) - Charge(cleaned)
    ensures c.childrenSize == ChildrenLoad(c.dirties, order) + MetaSize(c.dirties) + Charge(cleaned)
  {
    CachedContent(w, c, order, [], multiset{});
    MetaCached(w, c, order, [], multiset{});
    WeightParts(w, c.dirties, order);
  }

  /** What has left the cache is among what was cleaned, the rest is as it was. */
  ghost predicate Accounted(was: Dirties, now: Dirties, cleaned: seq<CachedNode>) {
    && (forall h :: h in now ==> h in was && SameNode(was[h], now[h]))
    && (forall h :: h in was && h !in now ==> IsAmong(was[h], cleaned))
  }

  predicate IsAmong(n: CachedNode, cleaned: seq<CachedNode>) {
    exists i :: 0 <= i < |cleaned| && SameNode(n, cleaned[i])
  }

  lemma NothingAccounted(d: Dirties, cleaned: seq<CachedNode>)
    ensures Accounted(d, d, cleaned)
  {
  }

  lemma AccountedTwice(was: Dirties, mid: Dirties, now: Dirties, cleaned: seq<CachedNode>, cleaned': seq<CachedNode>)
    requires Accounted(was, mid, cleaned) && Accounted(mid, now, cleaned') && cleaned <= cleaned'
    ensures Accounted(was, now, cleaned')
  {
    forall h | h in was && h !in now
      ensures IsAmong(was[h], cleaned')
    {
      if h in mid {
        var i :| 0 <= i < |cleaned'| && SameNode(mid[h], cleaned'[i]);
        assert SameNode(was[h], cleaned'[i]);
      } else {
        var i :| 0 <= i < |cleaned| && SameNode(was[h], cleaned[i]);
        assert cleaned'[i] == cleaned[i];
      }
    }
  }

  lemma OneAccounted(was: Dirties, unlinked: Dirties, hash: Hash, cleaned: seq<CachedNode>)
    requires SameNodes(was, unlinked) && hash in was
    ensures Accounted(was, unlinked - {hash}, cleaned + [was[hash]])
  {
    var all := cleaned + [was[hash]];
    assert SameNode(was[hash], all[|cleaned|]);
  }

  /** A node with an external child that is not on disk has its own map of children. */
  lemma ExternalIsTracked(w: World, c: Cache, order: seq<Hash>, h: Hash, e: Hash)
    requires Inv(w, c, order, [], multiset{}) && h in order && e in w.exts(h) && e !in c.disk
    ensures h in c.dirties && c.dirties[h].tracked
  {
    MetaCached(w, c, order, [], multiset{});
    var i :| 0 <= i < |order| && order[i] == h;
    assert Supported(w, c.dirties[order[i]], c.disk, order[..i], order[i]);
  }

  lemma SameRoots(d: Dirties, d': Dirties)
    requires SameNodes(d, d')
    ensures d.Keys == d'.Keys && (META in d ==> d'[META].children == d[META].children)
  {
  }

  lemma TrackedIsCleaned(was: Dirties, now: Dirties, cleaned: seq<CachedNode>, h: Hash)
    requires Accounted(was, now, cleaned) && h in was && h !in now && was[h].tracked
    ensures exists n :: n in cleaned && n.tracked
  {
    var i :| 0 <= i < |cleaned| && SameNode(was[h], cleaned[i]);
    assert cleaned[i] in cleaned;
  }

  // ----- the consequence: nothing live is lost -----

  ghost predicate IsPath(w: World, p: seq<Hash>) {
    |p| > 0 && forall i :: 0 <= i < |p| - 1 ==> IsDep(w, p[i], p[i + 1])
  }

  /** The blob Node returns for a hash, from the dirty cache or else from disk. */
  function NodeOf(c: Cache, h: Hash): (r: Blob)
    requires h in c.dirties || h in c.disk
  {
    if h in c.dirties then c.dirties[h].node else c.disk[h]
  }

  lemma {:induction false} ReachableIsStored(w: World, d: Dirties, disk: map<Hash, Blob>, order: seq<Hash>, p: seq<Hash>)
    requires DiskClosed(w, disk) && AllSupported(w, d, disk, order)
    requires IsPath(w, p) && (p[0] in order || p[0] in disk)
    ensures p[|p| - 1] in order || p[|p| - 1] in disk
  {
    if |p| > 1 {
      var q := p[..|p| - 1];
      assert IsPath(w, q);
      ReachableIsStored(w, d, disk, order, q);
      var h := q[|q| - 1];
      assert IsDep(w, h, p[|p| - 1]);
      if h !in disk {
        var i :| 0 <= i < |order| && order[i] == h;
        assert Supported(w, d[order[i]], disk, order[..i], order[i]);
      }
    }
  }

  /** Every node reachable from a root the meta-root holds can still be retrieved, with
      the content its hash promises. */
  lemma LiveNodesSurvive(w: World, c: Cache, order: seq<Hash>, p: seq<Hash>)
    requires Inv(w, c, order, [], multiset{})
    requires IsPath(w, p) && p[0] in c.dirties[META].children
    ensures var h := p[|p| - 1];
            (h in c.dirties || h in c.disk) && (h != META ==> NodeOf(c, h) == w.content(h))
  {
    ReachableIsStored(w, c.dirties, c.disk, order, p);
  }

  // ----- frames -----

  /** A change of one entry that leaves its links alone. */
  predicate KeepsLinks(d: Dirties, h: Hash, n: CachedNode) {
    h in d && n.flushPrev == d[h].flushPrev && n.flushNext == d[h].flushNext
  }

  lemma TouchList(d: Dirties, order: seq<Hash>, oldest: Hash, newest: Hash, h: Hash, n: CachedNode)
    requires IsList(d, order, oldest, newest) && KeepsLinks(d, h, n)
    ensures IsList(d[h := n], order, oldest, newest)
  {
  }

  lemma TouchCovers(d: Dirties, order: seq<Hash>, dying: seq<Hash>, h: Hash, n: CachedNode)
    requires Covers(d, order, dying) && h in d
    ensures Covers(d[h := n], order, dying)
  {
  }

  lemma TouchSupported(w: World, d: Dirties, disk: map<Hash, Blob>, order: seq<Hash>, h: Hash, n: CachedNode)
    requires AllSupported(w, d, disk, order)
    requires h in order ==> h in d && n.children.Keys == d[h].children.Keys
    ensures AllSupported(w, d[h := n], disk, order)
  {
    var d' := d[h := n];
    forall i | 0 <= i < |order|
      ensures order[i] in d' && Supported(w, d'[order[i]], disk, order[..i], order[i])
    {
      assert Supported(w, d[order[i]], disk, order[..i], order[i]);
      assert order[i] in order;
    }
  }

  // ----- a dying node gives up one external child -----

  function DropExternal(n: CachedNode, child: Hash): CachedNode {
    n.(children := n.children - {child})
  }

  lemma DropExternalExact(d: Dirties, disk: map<Hash, Blob>, order: seq<Hash>, owed: multiset<Hash>, p: Hash, n: CachedNode)
    requires Exact(d, disk, order, owed) && p !in order && p != META
    ensures Exact(d[p := n], disk, order, owed)
  {
    BagSame(d, d[p := n], order);
  }

  lemma DropExternalSized(d: Dirties, order: seq<Hash>, dying: seq<Hash>, total: int, child: Hash)
    requires Sized(d, order, dying, total) && Covers(d, order, dying) && |dying| > 0
    requires var p := dying[|dying| - 1]; p in d && d[p].tracked && child in d[p].children
    ensures var p := dying[|dying| - 1];
            Sized(d[p := DropExternal(d[p], child)], order, dying, total - (HASH_LENGTH + 2))
  {
    var p := dying[|dying| - 1];
    var d' := d[p := DropExternal(d[p], child)];
    assert d[p].children.Keys == d'[p].children.Keys + {child};
    WeightSame(d, d', order);
    WeightSame(d, d', dying[..|dying| - 1]);
  }

  lemma DropExternalFaithful(w: World, d: Dirties, p: Hash, child: Hash)
    requires Faithful(w, d) && p in d && p != META
    ensures Faithful(w, d[p := DropExternal(d[p], child)])
  {
  }

  lemma TopIsDying(w: World, d: Dirties, order: seq<Hash>, dying: seq<Hash>, child: Hash)
    requires Covers(d, order, dying) && Faithful(w, d) && |dying| > 0
    ensures var p := dying[|dying| - 1]; p in d && p != META && p !in order && (child in d[p].children ==> d[p].tracked)
  {
    assert dying[|dying| - 1] in dying;
  }

  lemma DropExternalInv(w: World, c: Cache, order: seq<Hash>, dying: seq<Hash>, owed: multiset<Hash>, child: Hash)
    requires Inv(w, c, order, dying, owed) && |dying| > 0
    requires var p := dying[|dying| - 1]; p in c.dirties && child in c.dirties[p].children
    ensures var p := dying[|dying| - 1];
            Inv(w, c.(dirties := c.dirties[p := DropExternal(c.dirties[p], child)],
                      childrenSize := c.childrenSize - (HASH_LENGTH + 2)), order, dying, owed)
  {
    hide Acyclic, IsList, Covers, Faithful, DiskClosed, AllSupported, Exact, Sized;
    var p := dying[|dying| - 1];
    var d := c.dirties;
    var n := DropExternal(d[p], child);
    TopIsDying(w, d, order, dying, child);
    TouchList(d, order, c.oldest, c.newest, p, n);
    TouchCovers(d, order, dying, p, n);
    TouchSupported(w, d, c.disk, order, p, n);
    DropExternalFaithful(w, d, p, child);
    DropExternalExact(d, c.disk, order, owed, p, n);
    DropExternalSized(d, order, dying, c.dirtiesSize + c.childrenSize, child);
  }

  /** A children map after one reference is taken out. */
  function Without1(m: map<Hash, nat>, child: Hash): map<Hash, nat> {
    if child !in m || m[child] == 0 then m
    else if m[child] == 1 then m - {child}
    else m[child := m[child] - 1]
  }

  // ----- the meta-root gives up one reference to a root -----

  function DropRoot(n: CachedNode, child: Hash): CachedNode
    requires child in n.children && n.children[child] > 0
  {
    if n.children[child] == 1 then n.(children := n.children - {child})
    else n.(children := n.children[child := n.children[child] - 1])
  }

  lemma DropRootExact(d: Dirties, disk: map<Hash, Blob>, order: seq<Hash>, owed: multiset<Hash>, child: Hash)
    requires Exact(d, disk, order, owed) && META !in order
    requires META in d && child in d[META].children && d[META].children[child] > 0
    ensures Exact(d[META := DropRoot(d[META], child)], disk, order, owed + multiset{child})
  {
    BagSame(d, d[META := DropRoot(d[META], child)], order);
  }

  lemma DropRootSized(d: Dirties, order: seq<Hash>, dying: seq<Hash>, total: int, child: Hash)
    requires Sized(d, order, dying, total) && META !in order && META !in dying
    requires META in d && child in d[META].children && d[META].children[child] > 0
    ensures var d' := d[META := DropRoot(d[META], child)];
            Sized(d', order, dying, total - if d[META].children[child] == 1 then HASH_LENGTH + 2 else 0)
  {
    var d' := d[META := DropRoot(d[META], child)];
    if d[META].children[child] == 1 {
      assert d[META].children.Keys == d'[META].children.Keys + {child};
    } else {
      assert d[META].children.Keys == d'[META].children.Keys;
    }
    WeightSame(d, d', order);
    WeightSame(d, d', dying);
  }

  lemma DropRootFaithful(w: World, d: Dirties, disk: map<Hash, Blob>, order: seq<Hash>, child: Hash)
    requires Faithful(w, d) && RootsKept(d, disk, order) && child in d[META].children
    ensures d[META].children[child] > 0
    ensures var d' := d[META := DropRoot(d[META], child)]; Faithful(w, d') && RootsKept(d', disk, order)
  {
  }

  lemma MetaUnlisted(d: Dirties, order: seq<Hash>, oldest: Hash, newest: Hash, dying: seq<Hash>)
    requires IsList(d, order, oldest, newest) && Covers(d, order, dying)
    ensures META in d && META !in order && META !in dying
  {
  }

  lemma DropRootInv(w: World, c: Cache, order: seq<Hash>, dying: seq<Hash>, owed: multiset<Hash>, child: Hash)
    requires Inv(w, c, order, dying, owed)
    requires META in c.dirties && child in c.dirties[META].children
    ensures c.dirties[META].children[child] > 0
    ensures var gone := if c.dirties[META].children[child] == 1 then HASH_LENGTH + 2 else 0;
            Inv(w, c.(dirties := c.dirties[META := DropRoot(c.dirties[META], child)],
                      childrenSize := c.childrenSize - gone), order, dying, owed + multiset{child})
  {
    hide Acyclic, IsList, Covers, Faithful, DiskClosed, RootsKept, AllSupported, Exact, Sized;
    var d := c.dirties;
    MetaUnlisted(d, order, c.oldest, c.newest, dying);
    DropRootFaithful(w, d, c.disk, order, child);
    var n := DropRoot(d[META], child);
    TouchList(d, order, c.oldest, c.newest, META, n);
    TouchCovers(d, order, dying, META, n);
    TouchSupported(w, d, c.disk, order, META, n);
    DropRootExact(d, c.disk, order, owed, child);
    DropRootSized(d, order, dying, c.dirtiesSize + c.childrenSize, child);
  }

  // ----- a parent count goes down by one owed reference -----

  function Released(n: CachedNode): CachedNode {
    if n.parents > 0 then n.(parents := n.parents - 1) else n
  }

  /** Exactness carries over when each parent count moves with what is owed. */
  lemma RecountExact(d: Dirties, d': Dirties, disk: map<Hash, Blob>, order: seq<Hash>, owed: multiset<Hash>, owed': multiset<Hash>)
    requires Exact(d, disk, order, owed) && Bag(d, order) == Bag(d', order)
    requires forall n :: n in order && n !in disk ==>
      n in d && n in d' && MetaCount(d, n) == MetaCount(d', n) && d'[n].parents - owed'[n] == d[n].parents - owed[n]
    ensures Exact(d', disk, order, owed')
  {
  }

  lemma ReleaseExact(d: Dirties, disk: map<Hash, Blob>, order: seq<Hash>, owed: multiset<Hash>, child: Hash)
    requires Exact(d, disk, order, owed) && child in d && child != META && child in owed
    ensures Exact(d[child := Released(d[child])], disk, order, owed - multiset{child})
  {
    var d' := d[child := Released(d[child])];
    assert Bag(d, order) == Bag(d', order) by {
      BagSame(d, d', order);
    }
    var owed' := owed - multiset{child};
    forall n | n in order && n !in disk
      ensures n in d && n in d' && MetaCount(d, n) == MetaCount(d', n) && d'[n].parents - owed'[n] == d[n].parents - owed[n]
    {
      ReleaseCount(d, disk, order, owed, child, n);
    }
    RecountExact(d, d', disk, order, owed, owed');
  }

  lemma ReleaseCount(d: Dirties, disk: map<Hash, Blob>, order: seq<Hash>, owed: multiset<Hash>, child: Hash, n: Hash)
    requires Exact(d, disk, order, owed) && child in d && child != META && child in owed
    requires n in order && n !in disk
    ensures var d' := d[child := Released(d[child])];
            n in d && n in d' && MetaCount(d, n) == MetaCount(d', n)
            && d'[n].parents - (owed - multiset{child})[n] == d[n].parents - owed[n]
  {
    assert d[n].parents >= owed[n];
  }

  lemma ReleaseSized(d: Dirties, order: seq<Hash>, dying: seq<Hash>, total: int, child: Hash)
    requires Sized(d, order, dying, total) && child in d
    ensures Sized(d[child := Released(d[child])], order, dying, total)
  {
    var d' := d[child := Released(d[child])];
    WeightSame(d, d', order);
    WeightSame(d, d', dying);
  }

  lemma ReleaseFaithful(w: World, d: Dirties, disk: map<Hash, Blob>, order: seq<Hash>, child: Hash)
    requires Faithful(w, d) && RootsKept(d, disk, order) && child in d
    ensures var d' := d[child := Released(d[child])]; Faithful(w, d') && RootsKept(d', disk, order)
  {
  }

  lemma ReleaseInv(w: World, c: Cache, order: seq<Hash>, dying: seq<Hash>, owed: multiset<Hash>, child: Hash)
    requires Inv(w, c, order, dying, owed) && child in c.dirties && child != META && child in owed
    ensures Inv(w, c.(dirties := c.dirties[child := Released(c.dirties[child])]), order, dying, owed - multiset{child})
  {
    hide IsList, Acyclic, Covers, Faithful, DiskClosed, RootsKept, AllSupported, Exact, Sized;
    var d := c.dirties;
    var n := Released(d[child]);
    TouchList(d, order, c.oldest, c.newest, child, n);
    TouchCovers(d, order, dying, child, n);
    TouchSupported(w, d, c.disk, order, child, n);
    ReleaseFaithful(w, d, c.disk, order, child);
    ReleaseExact(d, c.disk, order, owed, child);
    ReleaseSized(d, order, dying, c.dirtiesSize + c.childrenSize, child);
  }

  /** A reference owed to a node that is no longer cached is settled for free. */
  lemma SettleInv(w: World, c: Cache, order: seq<Hash>, dying: seq<Hash>, owed: multiset<Hash>, child: Hash)
    requires Inv(w, c, order, dying, owed) && (child !in order || child in c.disk)
    ensures Inv(w, c, order, dying, owed - multiset{child})
    ensures Inv(w, c, order, dying, owed + multiset{child})
  {
  }

  // ----- taking a node off the list -----

  /** No listed node refers to x. */
  ghost predicate Unheld(w: World, d: Dirties, order: seq<Hash>, x: Hash) {
    forall h :: h in order ==> h in d && x !in w.content(h).kids && x !in d[h].children
  }

  lemma WithoutSupported(w: World, d: Dirties, d': Dirties, disk: map<Hash, Blob>, order: seq<Hash>, i: nat)
    requires AllSupported(w, d, disk, order) && Distinct(order) && i < |order|
    requires order[i] in disk || Unheld(w, d, order, order[i])
    requires forall h :: h in order && h != order[i] ==> h in d && h in d' && d'[h].children.Keys == d[h].children.Keys
    ensures AllSupported(w, d', disk, Without(order, i))
  {
    var r := Without(order, i);
    forall j | 0 <= j < |r|
      ensures r[j] in d' && Supported(w, d'[r[j]], disk, r[..j], r[j])
    {
      var k := if j < i then j else j + 1;
      assert r[j] == order[k] && order[k] in order;
      assert Supported(w, d[order[k]], disk, order[..k], order[k]);
      BeforeWithout(order, i, j);
    }
  }

  lemma BeforeWithout(order: seq<Hash>, i: nat, j: nat)
    requires i < |order| && j < |order| - 1
    ensures forall x :: x in order[..if j < i then j else j + 1] && x != order[i] ==> x in Without(order, i)[..j]
  {
    var r := Without(order, i);
    var k := if j < i then j else j + 1;
    forall x | x in order[..k] && x != order[i]
      ensures x in r[..j]
    {
      var m :| 0 <= m < k && order[..k][m] == x;
      if m < i {
        assert r[..j][m] == x;
      } else {
        assert r[..j][m - 1] == x;
      }
    }
  }

  lemma SameWeight(d: Dirties, d': Dirties, x: Hash)
    requires SameNodes(d, d') && x in d
    ensures x in d' && NodeWeight(d'[x]) == NodeWeight(d[x])
  {
  }

  lemma SameFaithful(w: World, d: Dirties, d': Dirties)
    requires Faithful(w, d) && SameNodes(d, d')
    ensures Faithful(w, d')
  {
  }

  lemma SameSupported(w: World, d: Dirties, d': Dirties, disk: map<Hash, Blob>, order: seq<Hash>)
    requires AllSupported(w, d, disk, order) && SameNodes(d, d')
    ensures AllSupported(w, d', disk, order)
  {
    forall i | 0 <= i < |order|
      ensures order[i] in d' && Supported(w, d'[order[i]], disk, order[..i], order[i])
    {
      assert Supported(w, d[order[i]], disk, order[..i], order[i]);
    }
  }

  lemma SameExact(d: Dirties, d': Dirties, disk: map<Hash, Blob>, order: seq<Hash>, owed: multiset<Hash>)
    requires Exact(d, disk, order, owed) && SameNodes(d, d')
    ensures Exact(d', disk, order, owed)
  {
    BagSame(d, d', order);
  }

  lemma SameSized(d: Dirties, d': Dirties, order: seq<Hash>, dying: seq<Hash>, total: int)
    requires Sized(d, order, dying, total) && SameNodes(d, d')
    ensures Sized(d', order, dying, total)
  {
    WeightSame(d, d', order);
    WeightSame(d, d', dying);
  }

  // ----- a dead node leaves the list and owes its own references -----

  /** A node with no parents that is not on disk is held by nothing. */
  lemma DeadIsUnheld(w: World, d: Dirties, disk: map<Hash, Blob>, order: seq<Hash>, owed: multiset<Hash>, x: Hash)
    requires Exact(d, disk, order, owed) && Faithful(w, d) && META !in order && forall h :: h in order ==> h in d
    requires x in order && x !in disk && d[x].parents == 0
    ensures Unheld(w, d, order, x) && x !in d[META].children && owed[x] == 0
  {
    forall h | h in order
      ensures h in d && x !in w.content(h).kids && x !in d[h].children
    {
      var k :| 0 <= k < |order| && order[k] == h;
      BagCounts(d, order, k, x);
      assert BagOf(d, h)[x] == 0;
    }
  }

  lemma DetachExact(d: Dirties, disk: map<Hash, Blob>, order: seq<Hash>, owed: multiset<Hash>, i: nat)
    requires Exact(d, disk, order, owed) && Distinct(order) && i < |order|
    ensures Exact(d, disk, Without(order, i), owed + BagOf(d, order[i]))
  {
    BagWithout(d, order, i);
    WithoutMember(order, i);
  }

  lemma DetachSized(d: Dirties, order: seq<Hash>, dying: seq<Hash>, total: int, i: nat)
    requires Sized(d, order, dying, total) && i < |order|
    ensures Sized(d, Without(order, i), dying + [order[i]], total)
  {
    WeightWithout(d, order, i);
    assert (dying + [order[i]])[..|dying|] == dying;
  }

  lemma DetachCovers(d: Dirties, order: seq<Hash>, dying: seq<Hash>, i: nat)
    requires Covers(d, order, dying) && Distinct(order) && i < |order| && META !in order
    ensures Covers(d, Without(order, i), dying + [order[i]])
  {
    WithoutMember(order, i);
    assert order[i] in order;
  }

  lemma DetachRoots(d: Dirties, disk: map<Hash, Blob>, order: seq<Hash>, i: nat)
    requires RootsKept(d, disk, order) && Distinct(order) && i < |order|
    requires order[i] in disk || order[i] !in d[META].children
    ensures RootsKept(d, disk, Without(order, i))
  {
    WithoutMember(order, i);
  }

  lemma SameCovers(d: Dirties, d': Dirties, order: seq<Hash>, dying: seq<Hash>, disk: map<Hash, Blob>)
    requires Covers(d, order, dying) && RootsKept(d, disk, order) && SameNodes(d, d')
    ensures Covers(d', order, dying) && RootsKept(d', disk, order)
  {
  }

  lemma ListedIsCached(d: Dirties, order: seq<Hash>, oldest: Hash, newest: Hash)
    requires IsList(d, order, oldest, newest)
    ensures Distinct(order) && META !in order && forall h :: h in order ==> h in d
  {
  }

  /** Changing links alone keeps all of it. */
  lemma RelinkKept(w: World, d: Dirties, d': Dirties, disk: map<Hash, Blob>, order: seq<Hash>, dying: seq<Hash>,
                   owed: multiset<Hash>, total: int)
    requires Kept(w, d, disk, order, dying, owed, total) && SameNodes(d, d')
    ensures Kept(w, d', disk, order, dying, owed, total)
  {
    hide Acyclic, SameNodes, Covers, Faithful, DiskClosed, RootsKept, AllSupported, Exact, Sized;
    SameFaithful(w, d, d');
    SameCovers(d, d', order, dying, disk);
    SameSupported(w, d, d', disk, order);
    SameExact(d, d', disk, order, owed);
    SameSized(d, d', order, dying, total);
  }

  lemma DetachKept(w: World, d: Dirties, disk: map<Hash, Blob>, order: seq<Hash>, dying: seq<Hash>, owed: multiset<Hash>,
                   total: int, i: nat)
    requires Kept(w, d, disk, order, dying, owed, total) && i < |order|
    requires Distinct(order) && META !in order && forall h :: h in order ==> h in d
    requires d[order[i]].parents == 0
    ensures Kept(w, d, disk, Without(order, i), dying + [order[i]], owed + ChildBag(d[order[i]]), total)
  {
    hide Acyclic, Covers, Faithful, DiskClosed, RootsKept, AllSupported, Exact, Sized, Unheld;
    var x := order[i];
    assert x in order;
    if x !in disk {
      DeadIsUnheld(w, d, disk, order, owed, x);
    }
    WithoutSupported(w, d, d, disk, order, i);
    DetachExact(d, disk, order, owed, i);
    DetachSized(d, order, dying, total, i);
    DetachCovers(d, order, dying, i);
    DetachRoots(d, disk, order, i);
  }

  /** A cached node without parents moves from the list to the nodes being torn down; the
      references it holds are now owed. */
  lemma DetachInv(w: World, c: Cache, order: seq<Hash>, dying: seq<Hash>, owed: multiset<Hash>, i: nat, u: Links)
    requires Inv(w, c, order, dying, owed) && i < |order|
    requires order[i] in c.dirties && c.dirties[order[i]].parents == 0
    requires SameNodes(c.dirties, u.dirties) && IsList(u.dirties, Without(order, i), u.oldest, u.newest)
    ensures Inv(w, c.(dirties := u.dirties, oldest := u.oldest, newest := u.newest),
                Without(order, i), dying + [order[i]], owed + ChildBag(c.dirties[order[i]]))
  {
    hide IsList, SameNodes, Kept;
    var d, x, total := c.dirties, order[i], c.dirtiesSize + c.childrenSize;
    ListedIsCached(d, order, c.oldest, c.newest);
    DetachKept(w, d, c.disk, order, dying, owed, total, i);
    RelinkKept(w, d, u.dirties, c.disk, Without(order, i), dying + [x], owed + ChildBag(d[x]), total);
  }

  // ----- a torn down node is deleted -----

  lemma BuryParts(w: World, d: Dirties, disk: map<Hash, Blob>, order: seq<Hash>, dying: seq<Hash>)
    requires |dying| > 0 && Covers(d, order, dying) && Faithful(w, d) && RootsKept(d, disk, order)
    requires AllSupported(w, d, disk, order)
    ensures var d' := d - {dying[|dying| - 1]};
            Covers(d', order, dying[..|dying| - 1]) && Faithful(w, d') && RootsKept(d', disk, order) && AllSupported(w, d', disk, order)
  {
    var x := dying[|dying| - 1];
    var d' := d - {x};
    var rest := dying[..|dying| - 1];
    assert x in dying;
    assert forall h :: h in dying <==> h in rest || h == x;
    forall i | 0 <= i < |order|
      ensures order[i] in d' && Supported(w, d'[order[i]], disk, order[..i], order[i])
    {
      assert order[i] in order && Supported(w, d[order[i]], disk, order[..i], order[i]);
    }
  }

  lemma BuryCounts(d: Dirties, disk: map<Hash, Blob>, order: seq<Hash>, dying: seq<Hash>, owed: multiset<Hash>, total: int)
    requires |dying| > 0 && Covers(d, order, dying) && Exact(d, disk, order, owed) && Sized(d, order, dying, total)
    ensures var x := dying[|dying| - 1];
            x in d && Exact(d - {x}, disk, order, owed) && Sized(d - {x}, order, dying[..|dying| - 1], total - NodeWeight(d[x]))
  {
    var x := dying[|dying| - 1];
    assert x in dying;
    var rest := dying[..|dying| - 1];
    assert forall h :: h in rest ==> h in dying && h != x;
    BagSame(d, d - {x}, order);
    WeightSame(d, d - {x}, order);
    WeightSame(d, d - {x}, rest);
    assert (d - {x})[META] == d[META];
  }

  lemma BuryInv(w: World, c: Cache, order: seq<Hash>, dying: seq<Hash>, owed: multiset<Hash>, ds: int, cs: int)
    requires Inv(w, c, order, dying, owed) && |dying| > 0
    requires dying[|dying| - 1] in c.dirties
    requires ds + cs == c.dirtiesSize + c.childrenSize - NodeWeight(c.dirties[dying[|dying| - 1]])
    ensures Inv(w, c.(dirties := c.dirties - {dying[|dying| - 1]}, dirtiesSize := ds, childrenSize := cs),
                order, dying[..|dying| - 1], owed)
  {
    hide Acyclic, IsList, Covers, Faithful, DiskClosed, RootsKept, AllSupported, Exact, Sized;
    var x := dying[|dying| - 1];
    TopIsDying(w, c.dirties, order, dying, META);
    ForgetList(c.dirties, order, c.oldest, c.newest, x);
    BuryParts(w, c.dirties, c.disk, order, dying);
    BuryCounts(c.dirties, c.disk, order, dying, owed, c.dirtiesSize + c.childrenSize);
  }

  /** The node last taken down is gone, with its size. */
  lemma BuryLast(w: World, c: Cache, order: seq<Hash>, dying: seq<Hash>, x: Hash, owed: multiset<Hash>, ds: int, cs: int)
    requires Inv(w, c, order, dying + [x], owed) && x in c.dirties
    requires ds + cs == c.dirtiesSize + c.childrenSize - NodeWeight(c.dirties[x])
    ensures Inv(w, c.(dirties := c.dirties - {x}, dirtiesSize := ds, childrenSize := cs), order, dying, owed)
    ensures c.dirties[x].node == w.content(x)
  {
    hide Inv;
    var below := dying + [x];
    assert below[..|below| - 1] == dying && x in below;
    DyingCached(w, c, order, below, owed);
    CachedContent(w, c, order, below, owed);
    BuryInv(w, c, order, below, owed, ds, cs);
  }

  // ----- the disk grows, and flushed nodes are forgotten -----

  lemma GrowDiskSupported(w: World, d: Dirties, disk: map<Hash, Blob>, disk': map<Hash, Blob>, order: seq<Hash>)
    requires AllSupported(w, d, disk, order) && disk.Keys <= disk'.Keys
    ensures AllSupported(w, d, disk', order)
  {
    forall i | 0 <= i < |order|
      ensures order[i] in d && Supported(w, d[order[i]], disk', order[..i], order[i])
    {
      assert Supported(w, d[order[i]], disk, order[..i], order[i]);
    }
  }

  lemma GrowDiskInv(w: World, c: Cache, order: seq<Hash>, dying: seq<Hash>, owed: multiset<Hash>, disk': map<Hash, Blob>)
    requires Inv(w, c, order, dying, owed) && DiskClosed(w, disk') && c.disk.Keys <= disk'.Keys
    ensures Inv(w, c.(disk := disk'), order, dying, owed)
  {
    hide Acyclic, IsList, Covers, Faithful, DiskClosed, AllSupported, Sized;
    GrowDiskSupported(w, c.dirties, c.disk, disk', order);
  }

  /** A flushed node refers to nothing that is not on disk itself. */
  lemma FlushedHoldsFlushed(w: World, d: Dirties, disk: map<Hash, Blob>, x: Hash, n: Hash)
    requires DiskClosed(w, disk) && Faithful(w, d) && x in d && x != META && x in disk && n !in disk
    ensures BagOf(d, x)[n] == 0
  {
    assert !IsDep(w, x, n);
  }

  lemma ForgetExact(w: World, d: Dirties, disk: map<Hash, Blob>, order: seq<Hash>, owed: multiset<Hash>, i: nat)
    requires Exact(d, disk, order, owed) && Distinct(order) && i < |order|
    requires DiskClosed(w, disk) && Faithful(w, d) && META !in order && order[i] in d && order[i] in disk
    ensures Exact(d - {order[i]}, disk, Without(order, i), owed)
  {
    hide DiskClosed, Faithful, Bag, BagOf;
    var x, r := order[i], Without(order, i);
    assert x in order;
    WithoutMember(order, i);
    BagWithout(d, order, i);
    forall n | n in r && n !in disk
      ensures BagOf(d, x)[n] == 0 && MetaCount(d - {x}, n) == MetaCount(d, n)
    {
      FlushedHoldsFlushed(w, d, disk, x, n);
    }
    ForgetBag(d, r, x);
  }

  lemma ForgetBag(d: Dirties, r: seq<Hash>, x: Hash)
    requires x !in r
    ensures Bag(d, r) == Bag(d - {x}, r)
  {
    BagSame(d, d - {x}, r);
  }

  lemma ForgetSized(d: Dirties, order: seq<Hash>, total: int, i: nat)
    requires Sized(d, order, [], total) && Distinct(order) && i < |order| && META !in order && order[i] in d
    ensures Sized(d - {order[i]}, Without(order, i), [], total - NodeWeight(d[order[i]]))
  {
    WithoutMember(order, i);
    WeightWithout(d, order, i);
    WeightSame(d, d - {order[i]}, Without(order, i));
    assert order[i] in order;
  }

  lemma ForgetParts(w: World, d: Dirties, disk: map<Hash, Blob>, order: seq<Hash>, i: nat)
    requires Distinct(order) && i < |order| && order[i] in d && order[i] in disk && META !in order
    requires Covers(d, order, []) && Faithful(w, d) && RootsKept(d, disk, order)
    ensures var d', r := d - {order[i]}, Without(order, i);
            Covers(d', r, []) && Faithful(w, d') && RootsKept(d', disk, r)
  {
    WithoutMember(order, i);
    assert order[i] in order;
  }

  lemma ForgetSupported(w: World, d: Dirties, disk: map<Hash, Blob>, order: seq<Hash>, i: nat)
    requires AllSupported(w, d, disk, order) && Distinct(order) && i < |order| && order[i] in disk
    ensures AllSupported(w, d - {order[i]}, disk, Without(order, i))
  {
    forall h | h in order
      ensures h in d
    {
      var k :| 0 <= k < |order| && order[k] == h;
    }
    WithoutSupported(w, d, d - {order[i]}, disk, order, i);
  }

  lemma ForgetKept(w: World, d: Dirties, disk: map<Hash, Blob>, order: seq<Hash>, owed: multiset<Hash>, total: int, i: nat)
    requires Kept(w, d, disk, order, [], owed, total) && i < |order| && order[i] in d && order[i] in disk
    requires Distinct(order) && META !in order
    ensures Kept(w, d - {order[i]}, disk, Without(order, i), [], owed, total - NodeWeight(d[order[i]]))
  {
    hide Acyclic, Covers, Faithful, DiskClosed, RootsKept, AllSupported, Exact, Sized;
    ForgetExact(w, d, disk, order, owed, i);
    ForgetSized(d, order, total, i);
    ForgetParts(w, d, disk, order, i);
    ForgetSupported(w, d, disk, order, i);
  }

  /** A node that is safely on disk may be dropped from the cache without touching the
      parent counts of its children: those are on disk too. */
  lemma ForgetInv(w: World, c: Cache, order: seq<Hash>, owed: multiset<Hash>, i: nat, u: Links, ds: int, cs: int)
    requires Inv(w, c, order, [], owed) && i < |order| && order[i] in c.disk
    requires SameNodes(c.dirties, u.dirties)
    requires IsList(u.dirties - {order[i]}, Without(order, i), u.oldest, u.newest)
    requires order[i] in c.dirties && ds + cs == c.dirtiesSize + c.childrenSize - NodeWeight(c.dirties[order[i]])
    ensures Inv(w, Cache(u.dirties - {order[i]}, c.disk, u.oldest, u.newest, ds, cs), Without(order, i), [], owed)
  {
    hide IsList, SameNodes, Kept;
    var d, x, total := u.dirties, order[i], c.dirtiesSize + c.childrenSize;
    ListedIsCached(c.dirties, order, c.oldest, c.newest);
    SameWeight(c.dirties, d, x);
    RelinkKept(w, c.dirties, d, c.disk, order, [], owed, total);
    ForgetKept(w, d, c.disk, order, owed, total, i);
  }

  // ----- a parent count goes up before the reference is recorded -----

  function Counted(n: CachedNode): CachedNode {
    n.(parents := n.parents + 1)
  }

  lemma CountExact(d: Dirties, disk: map<Hash, Blob>, order: seq<Hash>, owed: multiset<Hash>, child: Hash)
    requires Exact(d, disk, order, owed) && child in d && child != META
    ensures Exact(d[child := Counted(d[child])], disk, order, owed + multiset{child})
  {
    var d' := d[child := Counted(d[child])];
    assert Bag(d, order) == Bag(d', order) by {
      BagSame(d, d', order);
    }
    forall n | n in order && n !in disk
      ensures n in d && n in d' && MetaCount(d, n) == MetaCount(d', n)
           && d'[n].parents - (owed + multiset{child})[n] == d[n].parents - owed[n]
    {
      CountOne(d, disk, order, owed, child, n);
    }
    RecountExact(d, d', disk, order, owed, owed + multiset{child});
  }

  lemma CountOne(d: Dirties, disk: map<Hash, Blob>, order: seq<Hash>, owed: multiset<Hash>, child: Hash, n: Hash)
    requires Exact(d, disk, order, owed) && child in d && child != META && n in order && n !in disk
    ensures var d' := d[child := Counted(d[child])];
            n in d && n in d' && MetaCount(d, n) == MetaCount(d', n)
            && d'[n].parents - (owed + multiset{child})[n] == d[n].parents - owed[n]
  {
  }

  lemma CountSized(d: Dirties, order: seq<Hash>, dying: seq<Hash>, total: int, child: Hash)
    requires Sized(d, order, dying, total) && child in d
    ensures Sized(d[child := Counted(d[child])], order, dying, total)
  {
    var d' := d[child := Counted(d[child])];
    WeightSame(d, d', order);
    WeightSame(d, d', dying);
  }

  lemma CountFaithful(w: World, d: Dirties, disk: map<Hash, Blob>, order: seq<Hash>, child: Hash)
    requires Faithful(w, d) && RootsKept(d, disk, order) && child in d
    ensures var d' := d[child := Counted(d[child])]; Faithful(w, d') && RootsKept(d', disk, order)
  {
  }

  lemma CountInv(w: World, c: Cache, order: seq<Hash>, dying: seq<Hash>, owed: multiset<Hash>, child: Hash)
    requires Inv(w, c, order, dying, owed) && child in c.dirties && child != META
    ensures Inv(w, c.(dirties := c.dirties[child := Counted(c.dirties[child])]), order, dying, owed + multiset{child})
  {
    hide Acyclic, IsList, Covers, Faithful, DiskClosed, RootsKept, AllSupported, Exact, Sized;
    var d := c.dirties;
    var n := Counted(d[child]);
    TouchList(d, order, c.oldest, c.newest, child, n);
    TouchCovers(d, order, dying, child, n);
    TouchSupported(w, d, c.disk, order, child, n);
    CountFaithful(w, d, c.disk, order, child);
    CountExact(d, c.disk, order, owed, child);
    CountSized(d, order, dying, c.dirtiesSize + c.childrenSize, child);
  }

  // ----- a fresh node joins the list -----

  /** The same hash graph, before the external children of h are all known. */
  function WithExts(w: World, h: Hash, e: set<Hash>): World {
    w.(exts := (x: Hash) => if x == h then e else w.exts(x))
  }

  /** The entry insert creates. */
  function Entry(blob: Blob, prev: Hash): CachedNode {
    CachedNode(blob, 0, false, map[], prev, META)
  }

  /** Everything the blob refers to from inside can be found. */
  ghost predicate KidsStored(d: Dirties, disk: map<Hash, Blob>, blob: Blob) {
    forall k :: k in blob.kids ==> (k in d && k != META) || k in disk
  }

  lemma JoinBag(d: Dirties, order: seq<Hash>, h: Hash, e: CachedNode)
    requires h !in d
    requires forall x :: x in order ==> x in d
    ensures Bag(d[h := e], order + [h]) == Bag(d, order) + ChildBag(e)
  {
    var d' := d[h := e];
    BagSame(d, d', order);
    assert (order + [h])[..|order|] == order;
  }

  lemma JoinExact(w: World, d: Dirties, disk: map<Hash, Blob>, order: seq<Hash>, h: Hash, e: CachedNode)
    requires Exact(d, disk, order, multiset(e.node.kids)) && Covers(d, order, []) && Faithful(w, d)
    requires RootsKept(d, disk, order) && AllSupported(w, d, disk, order) && META !in order
    requires h !in d && h !in e.node.kids && e.parents == 0 && e.children == map[]
    ensures Exact(d[h := e], disk, order + [h], multiset{})
  {
    hide AllSupported, Faithful, Exact, RootsKept;
    assert forall x :: x in order ==> x in d;
    JoinBag(d, order, h, e);
    if h !in disk {
      FreshIsUnheld(w, d, disk, order, h);
    }
    assert ChildBag(e) == multiset(e.node.kids);
    JoinExactFrom(d, disk, order, h, e);
  }

  lemma JoinExactFrom(d: Dirties, disk: map<Hash, Blob>, order: seq<Hash>, h: Hash, e: CachedNode)
    requires Exact(d, disk, order, multiset(e.node.kids))
    requires META in d && h !in d && h !in e.node.kids && e.parents == 0
    requires Bag(d[h := e], order + [h]) == Bag(d, order) + multiset(e.node.kids)
    requires h !in disk ==> Bag(d, order)[h] == 0 && MetaCount(d, h) == 0
    ensures Exact(d[h := e], disk, order + [h], multiset{})
  {
    hide Bag;
    var d' := d[h := e];
    forall n | n in order + [h] && n !in disk
      ensures n in d' && d'[n].parents == Bag(d', order + [h])[n] + MetaCount(d', n)
    {
      JoinedMeta(d, h, e, n);
      if n != h {
        assert d[n].parents == Bag(d, order)[n] + MetaCount(d, n) + multiset(e.node.kids)[n];
      }
    }
  }

  lemma JoinedMeta(d: Dirties, h: Hash, e: CachedNode, n: Hash)
    requires META in d && h !in d
    ensures MetaCount(d[h := e], n) == MetaCount(d, n)
  {
  }

  lemma FreshIsUnheld(w: World, d: Dirties, disk: map<Hash, Blob>, order: seq<Hash>, h: Hash)
    requires Covers(d, order, []) && Faithful(w, d) && RootsKept(d, disk, order) && AllSupported(w, d, disk, order)
    requires h !in d && h !in disk && META !in order
    ensures Bag(d, order)[h] == 0 && MetaCount(d, h) == 0
  {
    if Bag(d, order)[h] > 0 {
      var k := BagSource(d, order, h);
    }
  }

  lemma JoinParts(w: World, d: Dirties, disk: map<Hash, Blob>, order: seq<Hash>, h: Hash, e: CachedNode)
    requires Covers(d, order, []) && Faithful(w, d) && RootsKept(d, disk, order) && h !in d && h != META
    requires e.node == w.content(h) && e.children == map[]
    ensures var d', r := d[h := e], order + [h]; Covers(d', r, []) && Faithful(w, d') && RootsKept(d', disk, r)
  {
  }

  lemma JoinSupported(w: World, d: Dirties, disk: map<Hash, Blob>, order: seq<Hash>, h: Hash, e: CachedNode)
    requires AllSupported(w, d, disk, order) && h !in d && w.exts(h) == {} && e.children == map[]
    requires forall k :: k in w.content(h).kids ==> k in disk || k in order
    ensures AllSupported(w, d[h := e], disk, order + [h])
  {
    var d', r := d[h := e], order + [h];
    forall i | 0 <= i < |r|
      ensures r[i] in d' && Supported(w, d'[r[i]], disk, r[..i], r[i])
    {
      assert r[..i] == order[..i];
      if i < |order| {
        assert r[i] == order[i] && Supported(w, d[order[i]], disk, order[..i], order[i]);
      } else {
        assert order[..i] == order;
      }
    }
  }

  lemma JoinSized(d: Dirties, order: seq<Hash>, total: int, h: Hash, e: CachedNode)
    requires Sized(d, order, [], total) && h !in d && h != META && META in d && h !in order
    ensures Sized(d[h := e], order + [h], [], total + NodeWeight(e))
  {
    WeightSame(d, d[h := e], order);
    assert (order + [h])[..|order|] == order;
  }

  lemma KidsListed(w: World, d: Dirties, disk: map<Hash, Blob>, order: seq<Hash>, h: Hash, e: CachedNode)
    requires Acyclic(w) && Covers(d, order, []) && KidsStored(d, disk, e.node) && e.node == w.content(h) && h !in d
    ensures h !in e.node.kids && h !in order && META in d
    ensures forall k :: k in w.content(h).kids ==> k in disk || k in order
  {
    assert IsDep(w, h, h) <==> h in w.content(h).kids || h in w.exts(h);
  }

  /** A new entry whose children have been counted completes the invariant, before any
      external child is known. */
  lemma JoinKept(w: World, d: Dirties, disk: map<Hash, Blob>, order: seq<Hash>, total: int, h: Hash, e: CachedNode)
    requires Kept(w, d, disk, order, [], multiset(e.node.kids), total) && META !in order
    requires h !in d && h != META && w.exts(h) == {} && KidsStored(d, disk, e.node)
    requires e.node == w.content(h) && e.parents == 0 && e.children == map[]
    ensures Kept(w, d[h := e], disk, order + [h], [], multiset{}, total + NodeWeight(e))
  {
    hide Acyclic, Covers, Faithful, DiskClosed, RootsKept, AllSupported, Exact, Sized, KidsStored;
    KidsListed(w, d, disk, order, h, e);
    JoinParts(w, d, disk, order, h, e);
    JoinSupported(w, d, disk, order, h, e);
    JoinExact(w, d, disk, order, h, e);
    JoinSized(d, order, total, h, e);
  }

  lemma JoinInv(w: World, c: Cache, order: seq<Hash>, h: Hash, e: CachedNode, u: Links)
    requires Inv(w, c, order, [], multiset(e.node.kids))
    requires h !in c.dirties && h != META && w.exts(h) == {} && KidsStored(c.dirties, c.disk, e.node)
    requires e.node == w.content(h) && e.parents == 0 && e.children == map[]
    requires SameNodes(c.dirties[h := e], u.dirties) && IsList(u.dirties, order + [h], u.oldest, u.newest)
    ensures Inv(w, Cache(u.dirties, c.disk, u.oldest, u.newest, c.dirtiesSize + NodeWeight(e), c.childrenSize), order + [h], [], multiset{})
  {
    hide IsList, SameNodes, Kept, KidsStored;
    var total := c.dirtiesSize + c.childrenSize;
    ListedIsCached(c.dirties, order, c.oldest, c.newest);
    JoinKept(w, c.dirties, c.disk, order, total, h, e);
    RelinkKept(w, c.dirties[h := e], u.dirties, c.disk, order + [h], [], multiset{}, total + NodeWeight(e));
  }

  // ----- external references -----

  /** The smaller graph keeps the invariant, as long as no entry tracks what it leaves out. */
  ghost predicate Narrower(w: World, w': World, d: Dirties) {
    && (forall h :: w'.content(h) == w.content(h))
    && (forall h :: w'.exts(h) <= w.exts(h))
    && (forall h :: w'.rank(h) == w.rank(h))
    && (forall h :: h in d && h != META ==> w'.exts(h) == w.exts(h))
  }

  lemma NarrowerGraph(w: World, w': World, d: Dirties, disk: map<Hash, Blob>)
    requires Narrower(w, w', d) && Acyclic(w) && DiskClosed(w, disk)
    ensures Acyclic(w') && DiskClosed(w', disk)
  {
    forall h, dep | IsDep(w', h, dep)
      ensures IsDep(w, h, dep) && dep != META && w'.rank(dep) < w'.rank(h)
    {
      assert w'.exts(h) <= w.exts(h) && w'.content(h) == w.content(h);
      assert IsDep(w, h, dep);
    }
  }

  lemma NarrowerFaithful(w: World, w': World, d: Dirties)
    requires Narrower(w, w', d) && Faithful(w, d)
    ensures Faithful(w', d)
  {
  }

  lemma NarrowerSupported(w: World, w': World, d: Dirties, disk: map<Hash, Blob>, order: seq<Hash>)
    requires Narrower(w, w', d) && AllSupported(w, d, disk, order)
    ensures AllSupported(w', d, disk, order)
  {
    forall i | 0 <= i < |order|
      ensures order[i] in d && Supported(w', d[order[i]], disk, order[..i], order[i])
    {
      assert Supported(w, d[order[i]], disk, order[..i], order[i]);
      assert w'.exts(order[i]) <= w.exts(order[i]);
    }
  }

  lemma NarrowerKept(w: World, w': World, d: Dirties, disk: map<Hash, Blob>, order: seq<Hash>, total: int)
    requires Kept(w, d, disk, order, [], multiset{}, total) && Narrower(w, w', d)
    ensures Kept(w', d, disk, order, [], multiset{}, total)
  {
    hide Acyclic, Covers, Faithful, DiskClosed, RootsKept, AllSupported, Exact, Sized, Narrower;
    NarrowerGraph(w, w', d, disk);
    NarrowerFaithful(w, w', d);
    NarrowerSupported(w, w', d, disk, order);
  }

  function More(w: World, h: Hash, e: Hash): World {
    WithExts(w, h, w.exts(h) + {e})
  }

  lemma MoreGraph(w: World, disk: map<Hash, Blob>, h: Hash, e: Hash)
    requires Acyclic(w) && DiskClosed(w, disk) && e != META && w.rank(e) < w.rank(h) && (h in disk ==> e in disk)
    ensures Acyclic(More(w, h, e)) && DiskClosed(More(w, h, e), disk)
  {
    var w' := More(w, h, e);
    forall x, dep | IsDep(w', x, dep)
      ensures IsDep(w, x, dep) || (x == h && dep == e)
      ensures dep != META && w'.rank(dep) < w'.rank(x)
    {
      assert IsDep(w, x, dep) || (x == h && dep == e);
    }
  }

  lemma MoreFaithful(w: World, d: Dirties, h: Hash, e: Hash)
    requires Faithful(w, d)
    ensures Faithful(More(w, h, e), d)
  {
  }

  lemma MoreSupported(w: World, d: Dirties, disk: map<Hash, Blob>, order: seq<Hash>, i: nat, e: Hash)
    requires AllSupported(w, d, disk, order) && Distinct(order) && i < |order|
    requires e in disk || (order[i] in d && e in d[order[i]].children && e in order[..i])
    ensures AllSupported(More(w, order[i], e), d, disk, order)
  {
    var w' := More(w, order[i], e);
    forall k | 0 <= k < |order|
      ensures order[k] in d && Supported(w', d[order[k]], disk, order[..k], order[k])
    {
      assert Supported(w, d[order[k]], disk, order[..k], order[k]);
    }
  }

  /** An external child that is on disk, or tracked already, is simply acknowledged. */
  lemma AcknowledgeInv(w: World, c: Cache, order: seq<Hash>, i: nat, e: Hash)
    requires Inv(w, c, order, [], multiset{}) && i < |order|
    requires e != META && w.rank(e) < w.rank(order[i]) && (order[i] in c.disk ==> e in c.disk)
    requires e in c.disk || (order[i] in c.dirties && e in c.dirties[order[i]].children && e in order[..i])
    ensures Inv(More(w, order[i], e), c, order, [], multiset{})
  {
    hide Acyclic, IsList, Covers, Faithful, DiskClosed, RootsKept, AllSupported, Exact, Sized, More;
    ListedIsCached(c.dirties, order, c.oldest, c.newest);
    MoreGraph(w, c.disk, order[i], e);
    MoreFaithful(w, c.dirties, order[i], e);
    MoreSupported(w, c.dirties, c.disk, order, i, e);
  }

  /** The entry with one more external child. */
  function Track(n: CachedNode, e: Hash): CachedNode {
    n.(tracked := true, children := n.children[e := 1])
  }

  lemma TrackFaithful(w: World, d: Dirties, disk: map<Hash, Blob>, order: seq<Hash>, h: Hash, e: Hash)
    requires Faithful(w, d) && RootsKept(d, disk, order) && h in d && h != META
    ensures var d' := d[h := Track(d[h], e)]; Faithful(More(w, h, e), d') && RootsKept(d', disk, order)
  {
  }

  lemma TrackSupported(w: World, d: Dirties, disk: map<Hash, Blob>, order: seq<Hash>, i: nat, e: Hash)
    requires AllSupported(w, d, disk, order) && Distinct(order) && i < |order| && order[i] in d
    requires e in order[..i] || e in disk
    ensures AllSupported(More(w, order[i], e), d[order[i] := Track(d[order[i]], e)], disk, order)
  {
    var h := order[i];
    var d' := d[h := Track(d[h], e)];
    forall k | 0 <= k < |order|
      ensures order[k] in d' && Supported(More(w, h, e), d'[order[k]], disk, order[..k], order[k])
    {
      assert Supported(w, d[order[k]], disk, order[..k], order[k]);
    }
  }

  lemma TrackBag(d: Dirties, order: seq<Hash>, i: nat, e: Hash)
    requires Distinct(order) && i < |order| && order[i] in d && e !in d[order[i]].children
    ensures Bag(d[order[i] := Track(d[order[i]], e)], order) == Bag(d, order) + multiset{e}
  {
    hide Bag;
    var h := order[i];
    var d' := d[h := Track(d[h], e)];
    var r := Without(order, i);
    assert Bag(d, order) == Bag(d, r) + ChildBag(d[h]) by {
      BagWithout(d, order, i);
    }
    assert Bag(d', order) == Bag(d', r) + ChildBag(d'[h]) by {
      BagWithout(d', order, i);
    }
    assert Bag(d, r) == Bag(d', r) by {
      WithoutMember(order, i);
      BagSame(d, d', r);
    }
    TrackChildBag(d[h], e);
  }

  lemma TrackChildBag(n: CachedNode, e: Hash)
    requires e !in n.children
    ensures ChildBag(Track(n, e)) == ChildBag(n) + multiset{e}
  {
    assert Track(n, e).children.Keys == n.children.Keys + {e};
    assert multiset(n.children.Keys + {e}) == multiset(n.children.Keys) + multiset{e};
  }

  lemma TrackExact(d: Dirties, disk: map<Hash, Blob>, order: seq<Hash>, i: nat, e: Hash)
    requires Exact(d, disk, order, multiset{e}) && Distinct(order) && META !in order
    requires i < |order| && order[i] in d && e !in d[order[i]].children
    ensures Exact(d[order[i] := Track(d[order[i]], e)], disk, order, multiset{})
  {
    hide Bag;
    TrackBag(d, order, i, e);
    assert order[i] in order;
  }

  lemma TrackSized(d: Dirties, order: seq<Hash>, total: int, i: nat, e: Hash)
    requires Sized(d, order, [], total) && Distinct(order) && META !in order
    requires i < |order| && order[i] in d && e !in d[order[i]].children && (!d[order[i]].tracked ==> d[order[i]].children == map[])
    ensures Sized(d[order[i] := Track(d[order[i]], e)], order, [],
                  total + (HASH_LENGTH + 2) + if d[order[i]].tracked then 0 else CACHED_NODE_CHILDREN_SIZE)
  {
    var h := order[i];
    var d' := d[h := Track(d[h], e)];
    WeightWithout(d, order, i);
    WeightWithout(d', order, i);
    WithoutMember(order, i);
    WeightSame(d, d', Without(order, i));
    assert d'[h].children.Keys == d[h].children.Keys + {e};
    assert h in order;
  }

  lemma TrackInv(w: World, c: Cache, order: seq<Hash>, i: nat, e: Hash)
    requires Inv(w, c, order, [], multiset{e}) && i < |order| && order[i] in c.dirties
    requires e != META && w.rank(e) < w.rank(order[i]) && (order[i] in c.disk ==> e in c.disk)
    requires (e in c.disk || e in order[..i]) && e !in c.dirties[order[i]].children
    requires !c.dirties[order[i]].tracked ==> c.dirties[order[i]].children == map[]
    ensures var grown := HASH_LENGTH + 2 + if c.dirties[order[i]].tracked then 0 else CACHED_NODE_CHILDREN_SIZE;
            Inv(More(w, order[i], e), c.(dirties := c.dirties[order[i] := Track(c.dirties[order[i]], e)],
                                         childrenSize := c.childrenSize + grown), order, [], multiset{})
  {
    hide Acyclic, IsList, Covers, Faithful, DiskClosed, RootsKept, AllSupported, Exact, Sized, More;
    var d, h := c.dirties, order[i];
    ListedIsCached(d, order, c.oldest, c.newest);
    assert h in order;
    MoreGraph(w, c.disk, h, e);
    TouchList(d, order, c.oldest, c.newest, h, Track(d[h], e));
    TouchCovers(d, order, [], h, Track(d[h], e));
    TrackFaithful(w, d, c.disk, order, h, e);
    TrackSupported(w, d, c.disk, order, i, e);
    TrackExact(d, c.disk, order, i, e);
    TrackSized(d, order, c.dirtiesSize + c.childrenSize, i, e);
  }

  // ----- references from the meta-root -----

  function AddRoot(n: CachedNode, r: Hash): CachedNode {
    n.(children := n.children[r := (if r in n.children then n.children[r] else 0) + 1])
  }

  lemma AddRootParts(w: World, d: Dirties, disk: map<Hash, Blob>, order: seq<Hash>, r: Hash)
    requires Faithful(w, d) && RootsKept(d, disk, order) && r in order && r != META
    ensures var d' := d[META := AddRoot(d[META], r)]; Faithful(w, d') && RootsKept(d', disk, order)
  {
  }

  lemma AddRootExact(d: Dirties, disk: map<Hash, Blob>, order: seq<Hash>, r: Hash)
    requires Exact(d, disk, order, multiset{r}) && META in d && META !in order
    ensures Exact(d[META := AddRoot(d[META], r)], disk, order, multiset{})
  {
    BagSame(d, d[META := AddRoot(d[META], r)], order);
  }

  lemma AddRootSized(d: Dirties, order: seq<Hash>, total: int, r: Hash)
    requires Sized(d, order, [], total) && META in d && META !in order
    ensures Sized(d[META := AddRoot(d[META], r)], order, [],
                  total + if r in d[META].children then 0 else HASH_LENGTH + 2)
  {
    var d' := d[META := AddRoot(d[META], r)];
    WeightSame(d, d', order);
    assert d'[META].children.Keys == d[META].children.Keys + {r};
  }

  lemma AddRootInv(w: World, c: Cache, order: seq<Hash>, r: Hash)
    requires Inv(w, c, order, [], multiset{r}) && r in order && r != META && META in c.dirties
    ensures var grown := if r in c.dirties[META].children then 0 else HASH_LENGTH + 2;
            Inv(w, c.(dirties := c.dirties[META := AddRoot(c.dirties[META], r)],
                      childrenSize := c.childrenSize + grown), order, [], multiset{})
  {
    hide Acyclic, IsList, Covers, Faithful, DiskClosed, RootsKept, AllSupported, Exact, Sized;
    var d := c.dirties;
    MetaUnlisted(d, order, c.oldest, c.newest, []);
    TouchList(d, order, c.oldest, c.newest, META, AddRoot(d[META], r));
    TouchCovers(d, order, [], META, AddRoot(d[META], r));
    TouchSupported(w, d, c.disk, order, META, AddRoot(d[META], r));
    AddRootParts(w, d, c.disk, order, r);
    AddRootExact(d, c.disk, order, r);
    AddRootSized(d, order, c.dirtiesSize + c.childrenSize, r);
  }

  // ----- facts read off the invariant -----

  lemma MetaCached(w: World, c: Cache, order: seq<Hash>, dying: seq<Hash>, owed: multiset<Hash>)
    requires Inv(w, c, order, dying, owed)
    ensures META in c.dirties && META !in order && META !in dying && c.dirties[META].tracked
    ensures forall r :: r in c.dirties[META].children ==> c.dirties[META].children[r] > 0
    ensures Distinct(order) && forall h :: h in order ==> h in c.dirties
    ensures forall h :: h in c.dirties && h != META && h !in dying ==> h in order
    ensures |order| == 0 <==> c.oldest == META
    ensures |order| > 0 ==> c.oldest == order[0] && c.newest == order[|order| - 1] && c.newest in c.dirties
  {
    MetaUnlisted(c.dirties, order, c.oldest, c.newest, dying);
  }

  lemma KidsKept(d: Dirties, d': Dirties, disk: map<Hash, Blob>, blob: Blob)
    requires KidsStored(d, disk, blob) && d.Keys == d'.Keys
    ensures KidsStored(d', disk, blob)
  {
  }

  lemma KidStored(d: Dirties, d': Dirties, disk: map<Hash, Blob>, blob: Blob, i: nat)
    requires KidsStored(d, disk, blob) && d.Keys == d'.Keys && i < |blob.kids|
    ensures blob.kids[i] in d' || blob.kids[i] in disk
    ensures KidsStored(d', disk, blob)
  {
    assert blob.kids[i] in blob.kids;
  }

  lemma DepBelow(w: World, h: Hash, dep: Hash)
    requires Acyclic(w) && (dep in w.content(h).kids || dep in w.exts(h))
    ensures dep != META && w.rank(dep) < w.rank(h)
  {
    assert IsDep(w, h, dep);
  }

  lemma InvAcyclic(w: World, c: Cache, order: seq<Hash>, dying: seq<Hash>, owed: multiset<Hash>)
    requires Inv(w, c, order, dying, owed)
    ensures Acyclic(w)
  {
  }

  lemma UntrackedIsEmpty(w: World, c: Cache, order: seq<Hash>, dying: seq<Hash>, owed: multiset<Hash>, h: Hash)
    requires Inv(w, c, order, dying, owed) && h in c.dirties && h != META
    ensures !c.dirties[h].tracked ==> c.dirties[h].children == map[]
    ensures forall e :: e in c.dirties[h].children ==> c.dirties[h].children[e] == 1 && IsDep(w, h, e)
    ensures forall e :: e in ChildBag(c.dirties[h]) ==> IsDep(w, h, e)
  {
    assert forall e :: e in c.dirties[h].children ==> c.dirties[h].tracked;
  }

  lemma NotBefore(order: seq<Hash>, at: nat, child: Hash)
    requires at <= |order| && child !in order
    ensures child !in order[..at]
  {
  }

  lemma TrackedIsBefore(w: World, c: Cache, order: seq<Hash>, at: nat, e: Hash)
    requires Inv(w, c, order, [], multiset{}) && at < |order| && order[at] in c.dirties && e in c.dirties[order[at]].children
    ensures e in c.disk || e in order[..at]
  {
    assert Supported(w, c.dirties[order[at]], c.disk, order[..at], order[at]);
  }

  lemma InvDiskClosed(w: World, c: Cache, order: seq<Hash>, dying: seq<Hash>, owed: multiset<Hash>)
    requires Inv(w, c, order, dying, owed)
    ensures DiskClosed(w, c.disk)
  {
  }

  lemma InvDiskDep(w: World, disk: map<Hash, Blob>, h: Hash, dep: Hash)
    requires DiskClosed(w, disk) && dep in w.exts(h)
    ensures h in disk ==> dep in disk
  {
    assert IsDep(w, h, dep);
  }

  lemma PositionOf(order: seq<Hash>, h: Hash) returns (at: nat)
    requires h in order
    ensures at < |order| && order[at] == h
  {
    at :| 0 <= at < |order| && order[at] == h;
  }

  /** The graph as known while the external children of h are being referenced one by one. */
  ghost predicate WidensTo(w: World, world: World, h: Hash) {
    && (forall x :: w.content(x) == world.content(x))
    && (forall x :: w.rank(x) == world.rank(x))
    && (forall x :: x != h ==> w.exts(x) == world.exts(x))
    && w.exts(h) <= world.exts(h)
  }

  lemma NarrowWorld(world: World, d: Dirties, h: Hash) returns (w: World)
    ensures Narrower(world, w, d) && WidensTo(w, world, h) && w.content(h) == world.content(h)
    ensures w.exts(h) == if h in d then world.exts(h) else {}
  {
    w := WithExts(world, h, if h in d then world.exts(h) else {});
  }

  /** Acknowledging one more external child. */
  lemma WidenStep(w: World, world: World, disk: map<Hash, Blob>, h: Hash, r: Hash)
    requires WidensTo(w, world, h) && Acyclic(world) && DiskClosed(world, disk) && r in world.exts(h)
    ensures r != META && w.rank(r) < w.rank(h) && (h in disk ==> r in disk)
    ensures WidensTo(More(w, h, r), world, h) && More(w, h, r).exts(h) == w.exts(h) + {r}
  {
    DepBelow(world, h, r);
    InvDiskDep(world, disk, h, r);
  }

  /** The first k references are counted among the external children. */
  ghost predicate Acknowledged(w: World, h: Hash, refs: seq<Hash>, k: nat) {
    k <= |refs| && forall r :: r in refs[..k] ==> r in w.exts(h)
  }

  lemma NothingAcknowledged(w: World, h: Hash, refs: seq<Hash>)
    ensures Acknowledged(w, h, refs, 0)
  {
  }

  lemma AcknowledgeNext(w: World, h: Hash, refs: seq<Hash>, k: nat)
    requires Acknowledged(w, h, refs, k) && k < |refs|
    ensures Acknowledged(More(w, h, refs[k]), h, refs, k + 1)
  {
    assert refs[..k + 1] == refs[..k] + [refs[k]];
  }

  lemma WidenedWorld(w: World, world: World, d: Dirties, h: Hash, refs: seq<Hash>)
    requires WidensTo(w, world, h)
    requires forall r :: r in refs <==> r in world.exts(h)
    requires Acknowledged(w, h, refs, |refs|)
    ensures Narrower(w, world, d)
  {
    assert refs[..|refs|] == refs;
    assert w.exts(h) == world.exts(h);
  }

  /** What the leaves of a node refer to is on disk or listed before it. */
  lemma ExtsBefore(w: World, c: Cache, order: seq<Hash>, order': seq<Hash>, h: Hash, at: nat, refs: seq<Hash>)
    requires Inv(w, c, order, [], multiset{}) && h != META && at < |order'| && order'[at] == h
    requires order' == if h in c.dirties then order else order + [h]
    requires forall r :: r in refs ==> r in w.exts(h) && (r in c.dirties || r in c.disk)
    ensures forall r :: r in refs ==> r in c.disk || r in order'[..at]
  {
    if h in c.dirties {
      assert Supported(w, c.dirties[order[at]], c.disk, order[..at], order[at]);
    } else {
      assert h !in order;
      assert order'[..at] == order;
      forall r | r in refs
        ensures r in c.disk || r in order
      {
        DepBelow(w, h, r);
      }
    }
  }

  lemma TopIsCached(w: World, c: Cache, order: seq<Hash>, dying: seq<Hash>, owed: multiset<Hash>)
    requires Inv(w, c, order, dying, owed) && |dying| > 0
    ensures var p := dying[|dying| - 1]; p in c.dirties && p != META && p !in order
  {
    TopIsDying(w, c.dirties, order, dying, META);
  }

  lemma DyingCached(w: World, c: Cache, order: seq<Hash>, dying: seq<Hash>, owed: multiset<Hash>)
    requires Inv(w, c, order, dying, owed)
    ensures forall x :: x in dying ==> x in c.dirties && x != META && x !in order
  {
  }

  lemma ChildrenBelow(w: World, c: Cache, order: seq<Hash>, dying: seq<Hash>, owed: multiset<Hash>, h: Hash)
    requires Inv(w, c, order, dying, owed) && h in c.dirties && h != META
    ensures forall e :: e in ChildBag(c.dirties[h]) ==> e != META && w.rank(e) < w.rank(h) && IsDep(w, h, e)
    ensures forall e :: e in c.dirties[h].children ==> c.dirties[h].children[e] == 1 && e in ChildBag(c.dirties[h])
  {
    hide Kept, IsList;
    UntrackedIsEmpty(w, c, order, dying, owed, h);
    InvAcyclic(w, c, order, dying, owed);
    forall e | e in ChildBag(c.dirties[h])
      ensures e != META && w.rank(e) < w.rank(h) && IsDep(w, h, e)
    {
      assert IsDep(w, h, e);
    }
  }

  // ----- what garbage collection takes and leaves -----

  ghost predicate Reaches(w: World, from: Hash, h: Hash) {
    exists p :: IsPath(w, p) && p[0] == from && p[|p| - 1] == h
  }

  lemma ReachesItself(w: World, h: Hash)
    ensures Reaches(w, h, h)
  {
    assert IsPath(w, [h]);
  }

  lemma ReachesThrough(w: World, from: Hash, c: Hash, h: Hash)
    requires IsDep(w, from, c) && Reaches(w, c, h)
    ensures Reaches(w, from, h)
  {
    var p :| IsPath(w, p) && p[0] == c && p[|p| - 1] == h;
    assert IsPath(w, [from] + p);
  }

  /** Only what `from` reaches is gone, and no node is left that has no parents now but had
      some before. */
  ghost predicate Collected(w: World, was: Dirties, now: Dirties, from: Hash) {
    && (forall h :: h in now ==> h in was && (now[h].parents > 0 || was[h].parents == 0))
    && (forall h :: h in was && h !in now ==> Reaches(w, from, h))
  }

  /** The node loses a parent, and with the last one its place. */
  predicate OneParentLess(was: Dirties, now: Dirties, h: Hash) {
    h in was ==> if was[h].parents > 1 then h in now && now[h].parents == was[h].parents - 1 else h !in now
  }

  lemma NothingCollected(w: World, was: Dirties, now: Dirties, from: Hash)
    requires was.Keys == now.Keys && forall h :: h in was ==> now[h].parents == was[h].parents
    ensures Collected(w, was, now, from)
  {
  }

  lemma CollectedTwice(w: World, was: Dirties, mid: Dirties, now: Dirties, from: Hash, c: Hash)
    requires Collected(w, was, mid, from) && Collected(w, mid, now, c) && IsDep(w, from, c)
    ensures Collected(w, was, now, from)
  {
    hide Reaches;
    forall h | h in was && h !in now
      ensures Reaches(w, from, h)
    {
      if h in mid {
        ReachesThrough(w, from, c, h);
      }
    }
  }

  lemma BuriedToo(w: World, was: Dirties, mid: Dirties, now: Dirties, from: Hash)
    requires Collected(w, was, mid, from) && now == mid - {from}
    ensures Collected(w, was, now, from)
  {
    ReachesItself(w, from);
  }

  /** One parent less, and torn down if that was the last. */
  lemma CollectedFrom(w: World, was: Dirties, mid: Dirties, now: Dirties, from: Hash)
    requires was.Keys == mid.Keys && from in mid && forall h :: h in mid && h != from ==> mid[h].parents == was[h].parents
    requires if mid[from].parents > 0 then now == mid else Collected(w, mid, now, from) && from !in now
    ensures Collected(w, was, now, from)
  {
  }

  /** Nothing had changed that matters before. */
  lemma CollectedSince(w: World, was: Dirties, mid: Dirties, now: Dirties, from: Hash)
    requires was.Keys == mid.Keys && forall h :: h in mid ==> mid[h].parents == was[h].parents
    requires Collected(w, mid, now, from)
    ensures Collected(w, was, now, from) && forall h :: h in now ==> h in was
  {
  }

  /** Who holds a node: cached nodes and the meta-root. */
  function Holders(d: Dirties, order: seq<Hash>, h: Hash): nat {
    Bag(d, order)[h] + MetaCount(d, h)
  }

  /** No garbage comes into being: a node that has to be in the cache and that nobody holds
      any more has been held by nobody before. */
  lemma NoNewGarbage(w: World, was: Cache, order: seq<Hash>, now: Cache, order': seq<Hash>, from: Hash, h: Hash)
    requires Inv(w, was, order, [], multiset{}) && Inv(w, now, order', [], multiset{}) && now.disk == was.disk
    requires Collected(w, was.dirties, now.dirties, from)
    requires h in now.dirties && h != META && h !in now.disk && Holders(now.dirties, order', h) == 0
    ensures Holders(was.dirties, order, h) == 0
  {
    MetaCached(w, was, order, [], multiset{});
    MetaCached(w, now, order', [], multiset{});
    CountedExactly(w, was, order, h);
    CountedExactly(w, now, order', h);
  }

  lemma CountedExactly(w: World, c: Cache, order: seq<Hash>, h: Hash)
    requires Inv(w, c, order, [], multiset{}) && h in order && h !in c.disk
    ensures h in c.dirties && c.dirties[h].parents == Holders(c.dirties, order, h)
  {
  }

  lemma CleanInv(w: World, c: Cache, order: seq<Hash>, i: nat)
    requires Inv(w, c, order, [], multiset{}) && i < |order| && order[i] in c.disk
    ensures order[i] in c.dirties && Linked(c.dirties, c.oldest, c.newest, order[i])
    ensures var u := Unlink(c.dirties, c.oldest, c.newest, order[i]);
            && SameNodes(c.dirties, u.dirties)
            && Inv(w, Cache(u.dirties - {order[i]}, c.disk, u.oldest, u.newest,
                            c.dirtiesSize - NodeWeight(c.dirties[order[i]]), c.childrenSize), Without(order, i), [], multiset{})
    ensures forall h :: h in Without(order, i) ==> h in order
  {
    hide IsList, Kept, Linked, Unlink, SameNodes;
    MetaCached(w, c, order, [], multiset{});
    assert order[i] in order;
    WithoutMember(order, i);
    UnlinkList(c.dirties, order, c.oldest, c.newest, i);
    var u := Unlink(c.dirties, c.oldest, c.newest, order[i]);
    ForgetList(u.dirties, Without(order, i), u.oldest, u.newest, order[i]);
    ForgetInv(w, c, order, multiset{}, i, u, c.dirtiesSize - NodeWeight(c.dirties[order[i]]), c.childrenSize);
    var now := Cache(u.dirties - {order[i]}, c.disk, u.oldest, u.newest,
                     c.dirtiesSize - NodeWeight(c.dirties[order[i]]), c.childrenSize);
    assert Inv(w, now, Without(order, i), [], multiset{});
  }

  /** All that cleaning a node keeps. */
  lemma CleanedOut(w: World, c: Cache, order: seq<Hash>, i: nat, cleaned: seq<CachedNode>)
    requires Inv(w, c, order, [], multiset{}) && i < |order| && order[i] in c.disk
    requires Charged(w, c.dirtiesSize, order, [], cleaned)
    ensures order[i] in c.dirties && Linked(c.dirties, c.oldest, c.newest, order[i])
    ensures var u, n := Unlink(c.dirties, c.oldest, c.newest, order[i]), c.dirties[order[i]];
            var now, size := u.dirties - {order[i]}, c.dirtiesSize - (HASH_LENGTH + n.node.size) - ChildrenWeight(n);
            && Inv(w, Cache(now, c.disk, u.oldest, u.newest, size, c.childrenSize), Without(order, i), [], multiset{})
            && Charged(w, size, Without(order, i), [], cleaned + [n]) && Accounted(c.dirties, now, cleaned + [n])
            && now.Keys == c.dirties.Keys - {order[i]}
            && META in now && META in c.dirties && now[META].children == c.dirties[META].children
    ensures forall h :: h in Without(order, i) ==> h in order
  {
    hide Inv, Linked, Unlink, Accounted, SameNodes, Charged;
    MetaCached(w, c, order, [], multiset{});
    CachedContent(w, c, order, [], multiset{});
    CleanInv(w, c, order, i);
    assert order[i] in order;
    var u, n := Unlink(c.dirties, c.oldest, c.newest, order[i]), c.dirties[order[i]];
    ChargedClean(w, c.dirtiesSize, order, cleaned, i, n);
    OneAccounted(c.dirties, u.dirties, order[i], cleaned);
    SameRoots(c.dirties, u.dirties);
  }

  // ----- batches on their way to disk -----

  /** Where committed nodes can be. */
  datatype Flow = Flow(dirties: Dirties, disk: map<Hash, Blob>, writes: Writes)

  /** Only what `from` reaches has moved, but for what was in the batch before. */
  ghost predicate Below(w: World, was: Flow, now: Flow, from: Hash) {
    && (forall h :: h in was.dirties && h !in now.dirties ==> InWrites(h, was.writes) || Reaches(w, from, h))
    && (forall h :: h in now.disk ==> h in was.disk || InWrites(h, was.writes) || Reaches(w, from, h))
    && (forall h :: InWrites(h, now.writes) ==> InWrites(h, was.writes) || Reaches(w, from, h))
  }

  lemma NothingMoved(w: World, was: Flow, from: Hash)
    ensures Below(w, was, was, from)
  {
    hide Reaches, InWrites;
  }

  lemma BelowTwice(w: World, was: Flow, mid: Flow, now: Flow, from: Hash, c: Hash)
    requires Below(w, was, mid, from) && Below(w, mid, now, c) && (c == from || IsDep(w, from, c))
    ensures Below(w, was, now, from)
  {
    hide Reaches, InWrites;
    forall h | Reaches(w, c, h)
      ensures Reaches(w, from, h)
    {
      if c != from {
        ReachesThrough(w, from, c, h);
      }
    }
  }

  lemma PutBelow(w: World, was: Flow, now: Flow, hash: Hash)
    requires forall h :: h in was.dirties && h !in now.dirties ==> InWrites(h, was.writes) || h == hash
    requires forall h :: h in now.disk ==> h in was.disk || InWrites(h, was.writes) || h == hash
    requires forall h :: InWrites(h, now.writes) ==> InWrites(h, was.writes) || h == hash
    ensures Below(w, was, now, hash)
  {
    hide Reaches, InWrites;
    ReachesItself(w, hash);
  }

  lemma NothingWritten()
    ensures forall h :: !InWrites(h, [])
  {
  }

  /** With an empty batch before and after, what has moved is what `from` reaches. */
  lemma BelowMeans(w: World, was: Flow, mid: Flow, dirties: Dirties, disk: map<Hash, Blob>, from: Hash)
    requires Below(w, was, mid, from) && was.writes == []
    requires forall h :: h in mid.dirties && h !in dirties ==> InWrites(h, mid.writes)
    requires forall h :: h in disk ==> h in mid.disk || InWrites(h, mid.writes)
    ensures forall h :: h in was.dirties && h !in dirties ==> Reaches(w, from, h)
    ensures forall h :: h in disk && h !in was.disk ==> Reaches(w, from, h)
  {
    hide Reaches;
    assert forall h :: !InWrites(h, []);
  }

  type Writes = seq<(Hash, Blob)>

  function Written(disk: map<Hash, Blob>, ws: Writes): map<Hash, Blob> {
    if |ws| == 0 then disk else Written(disk, ws[..|ws| - 1])[ws[|ws| - 1].0 := ws[|ws| - 1].1]
  }

  predicate InWrites(h: Hash, ws: Writes) {
    exists i :: 0 <= i < |ws| && ws[i].0 == h
  }

  /** Each write carries its hash's content, and all it refers to is on disk or earlier in
      the batch. */
  ghost predicate WritesClosed(w: World, disk: map<Hash, Blob>, ws: Writes) {
    forall i :: 0 <= i < |ws| ==>
      && ws[i].0 != META && ws[i].1 == w.content(ws[i].0)
      && forall dep :: IsDep(w, ws[i].0, dep) ==> dep in disk || InWrites(dep, ws[..i])
  }

  /** A closed batch keeps the disk closed. */
  lemma {:induction false} WrittenClosed(w: World, disk: map<Hash, Blob>, ws: Writes)
    requires DiskClosed(w, disk) && WritesClosed(w, disk, ws)
    ensures DiskClosed(w, Written(disk, ws))
    ensures forall h :: h in Written(disk, ws) <==> h in disk || InWrites(h, ws)
  {
    if |ws| > 0 {
      var front, last := ws[..|ws| - 1], ws[|ws| - 1];
      forall i | 0 <= i < |front|
        ensures front[i] == ws[i] && front[..i] == ws[..i]
      {
      }
      assert WritesClosed(w, disk, front);
      WrittenClosed(w, disk, front);
      forall h
        ensures InWrites(h, ws) <==> InWrites(h, front) || h == last.0
      {
        InWritesSnoc(front, last, h);
        assert ws == front + [last];
      }
    }
  }

  lemma InWritesSnoc(ws: Writes, last: (Hash, Blob), h: Hash)
    ensures InWrites(h, ws + [last]) <==> InWrites(h, ws) || h == last.0
  {
    var all := ws + [last];
    if InWrites(h, ws) {
      var i :| 0 <= i < |ws| && ws[i].0 == h;
      assert all[i].0 == h;
    }
    if h == last.0 {
      assert all[|ws|].0 == h;
    }
  }

  lemma SnocClosed(w: World, disk: map<Hash, Blob>, ws: Writes, h: Hash)
    requires WritesClosed(w, disk, ws) && h != META
    requires forall dep :: IsDep(w, h, dep) ==> dep in disk || InWrites(dep, ws)
    ensures WritesClosed(w, disk, ws + [(h, w.content(h))])
  {
    var all := ws + [(h, w.content(h))];
    forall i | 0 <= i < |all|
      ensures all[..i] == ws[..i]
    {
    }
    assert all[..|ws|] == ws;
  }

  lemma DepsStored(w: World, d: Dirties, disk: map<Hash, Blob>, order: seq<Hash>, h: Hash)
    requires AllSupported(w, d, disk, order) && Faithful(w, d) && h in order && h != META
    requires forall x :: x in order ==> x in d
    ensures h in d && d[h].node == w.content(h)
    ensures forall e :: e in ChildBag(d[h]) ==> e in d || e in disk
    ensures forall e :: IsDep(w, h, e) ==> e in ChildBag(d[h]) || e in disk
  {
    var i :| 0 <= i < |order| && order[i] == h;
    assert Supported(w, d[order[i]], disk, order[..i], order[i]);
  }

  /** A cached node's references: all of them children or on disk, each below it. */
  lemma NodeDeps(w: World, c: Cache, order: seq<Hash>, h: Hash)
    requires Inv(w, c, order, [], multiset{}) && h in c.dirties && h != META
    ensures c.dirties[h].node == w.content(h)
    ensures forall e :: e in ChildBag(c.dirties[h]) ==>
      e != META && w.rank(e) < w.rank(h) && IsDep(w, h, e) && (e in c.dirties || e in c.disk)
    ensures forall e :: IsDep(w, h, e) ==> e in ChildBag(c.dirties[h]) || e in c.disk
  {
    hide IsList, Acyclic, Covers, Faithful, DiskClosed, RootsKept, AllSupported, Exact, Sized, ChildBag, IsDep;
    MetaCached(w, c, order, [], multiset{});
    ChildrenBelow(w, c, order, [], multiset{}, h);
    DepsStored(w, c.dirties, c.disk, order, h);
  }

  lemma CommittedDeps(w: World, c: Cache, disk: map<Hash, Blob>, node: CachedNode, h: Hash, cs: seq<Hash>, ws: Writes)
    requires forall e :: IsDep(w, h, e) ==> e in ChildBag(node) || e in c.disk
    requires forall e :: e in cs <==> e in ChildBag(node)
    requires forall e :: e in c.disk ==> e in disk || InWrites(e, ws)
    requires forall j :: 0 <= j < |cs| ==> cs[j] in disk || InWrites(cs[j], ws)
    ensures forall e :: IsDep(w, h, e) ==> e in disk || InWrites(e, ws)
  {
    forall e | IsDep(w, h, e)
      ensures e in disk || InWrites(e, ws)
    {
      if e in ChildBag(node) {
        assert e in cs;
      }
    }
  }

  // ----- Cap: a prefix of the list moves to disk -----

  /** What the listed nodes take, maintenance data included. */
  function Load(d: Dirties, s: seq<Hash>): nat {
    Weight(d, s) + |s| * CACHED_NODE_SIZE
  }

  lemma LoadNothing(total: int, d: Dirties, order: seq<Hash>, limit: int)
    ensures Load(d, order[..0]) == 0 && OverUntil(total, d, order, 0, limit)
  {
  }

  lemma LoadNext(d: Dirties, order: seq<Hash>, k: nat)
    requires k < |order| && order[k] in d
    ensures Load(d, order[..k + 1]) == Load(d, order[..k]) + NodeWeight(d[order[k]]) + CACHED_NODE_SIZE
  {
    assert order[..k + 1][..k] == order[..k];
  }

  /** After none of the first k nodes was what remains of the total within the limit. */
  ghost predicate OverUntil(total: int, d: Dirties, order: seq<Hash>, k: nat, limit: int) {
    k <= |order| && forall j :: 0 <= j < k ==> total - Load(d, order[..j]) > limit
  }

  lemma OverNext(total: int, d: Dirties, order: seq<Hash>, k: nat, limit: int)
    requires OverUntil(total, d, order, k, limit) && k < |order| && total - Load(d, order[..k]) > limit
    ensures OverUntil(total, d, order, k + 1, limit)
  {
  }

  lemma OverMeans(total: int, d: Dirties, order: seq<Hash>, k: nat, limit: int)
    requires OverUntil(total, d, order, k, limit)
    ensures k <= |order| && forall j :: 0 <= j < k ==> total - Load(d, order[..j]) > limit
  {
  }

  /** The first k of the list are on disk or about to be. */
  ghost predicate Safe(order: seq<Hash>, k: nat, disk: map<Hash, Blob>, ws: Writes) {
    k <= |order| && forall j :: 0 <= j < k ==> order[j] in disk || InWrites(order[j], ws)
  }

  lemma SafeStarts(order: seq<Hash>, disk: map<Hash, Blob>, ws: Writes)
    ensures Safe(order, 0, disk, ws)
  {
  }

  lemma SafeNext(order: seq<Hash>, k: nat, disk: map<Hash, Blob>, ws: Writes, disk': map<Hash, Blob>, ws': Writes)
    requires Safe(order, k, disk, ws) && k < |order|
    requires forall h :: h in disk || InWrites(h, ws) || h == order[k] ==> h in disk' || InWrites(h, ws')
    ensures Safe(order, k + 1, disk', ws')
  {
  }

  lemma SafeWritten(order: seq<Hash>, k: nat, disk: map<Hash, Blob>, ws: Writes, disk': map<Hash, Blob>)
    requires Safe(order, k, disk, ws) && forall h :: h in disk || InWrites(h, ws) ==> h in disk'
    ensures forall j :: 0 <= j < k ==> order[j] in disk'
  {
  }

  /** Whatever a listed node needs is on disk already or comes before it. */
  lemma ListedDeps(w: World, c: Cache, order: seq<Hash>, k: nat, disk: map<Hash, Blob>, ws: Writes)
    requires Inv(w, c, order, [], multiset{}) && k < |order| && disk == c.disk && Safe(order, k, disk, ws)
    ensures order[k] in c.dirties && order[k] != META && c.dirties[order[k]].node == w.content(order[k])
    ensures c.dirties[order[k]].flushNext == Next(order, k)
    ensures forall dep :: IsDep(w, order[k], dep) ==> dep in disk || InWrites(dep, ws)
  {
    assert Supported(w, c.dirties[order[k]], c.disk, order[..k], order[k]);
    forall dep | IsDep(w, order[k], dep)
      ensures dep in disk || InWrites(dep, ws)
    {
      if dep in order[..k] {
        var j :| 0 <= j < k && order[j] == dep;
      }
    }
  }

  /** The head of the list, once on disk, may be forgotten. */
  lemma BeheadInv(w: World, c: Cache, order: seq<Hash>, ds: int, cs: int)
    requires Inv(w, c, order, [], multiset{}) && |order| > 0 && c.oldest in c.disk && c.oldest in c.dirties
    requires ds + cs == c.dirtiesSize + c.childrenSize - NodeWeight(c.dirties[c.oldest])
    ensures c.oldest in c.dirties && c.oldest == order[0] && c.oldest != META
    ensures c.dirties[c.oldest].flushNext == Next(order, 0)
    ensures Inv(w, Cache(c.dirties - {c.oldest}, c.disk, c.dirties[c.oldest].flushNext, c.newest, ds, cs), order[1..], [], multiset{})
  {
    hide Kept;
    BeheadList(c.dirties, order, c.oldest, c.newest);
    assert Without(order, 0) == order[1..];
    ForgetInv(w, c, order, multiset{}, 0, Links(c.dirties, c.dirties[c.oldest].flushNext, c.newest), ds, cs);
  }

  lemma PrevAside(d: Dirties, order: seq<Hash>, oldest: Hash, newest: Hash, prev: Hash)
    requires IsList(d, order, oldest, newest) && oldest in d && oldest != META
    ensures SameNodes(d, SetPrev(d, oldest, prev)) && IsList(SetPrev(d, oldest, prev), order, oldest, newest)
  {
    assert |order| > 0 && oldest == order[0];
    assert forall i :: 0 < i < |order| ==> order[i] != oldest;
  }

  /** The head's flushPrev may be set at will. */
  lemma HeadPrevInv(w: World, c: Cache, order: seq<Hash>, prev: Hash)
    requires Inv(w, c, order, [], multiset{}) && c.oldest != META
    ensures c.oldest in c.dirties
    ensures Inv(w, c.(dirties := SetPrev(c.dirties, c.oldest, prev)), order, [], multiset{})
  {
    hide Kept, SameNodes;
    var d' := SetPrev(c.dirties, c.oldest, prev);
    ListedIsCached(c.dirties, order, c.oldest, c.newest);
    PrevAside(c.dirties, order, c.oldest, c.newest, prev);
    hide IsList;
    RelinkKept(w, c.dirties, d', c.disk, order, [], multiset{}, c.dirtiesSize + c.childrenSize);
  }

  /** Size reports exactly the load of the listed nodes. */
  lemma ListIsAllCached(w: World, c: Cache, order: seq<Hash>)
    requires Inv(w, c, order, [], multiset{})
    ensures META in c.dirties && |c.dirties| == |order| + 1
    ensures c.dirtiesSize + c.childrenSize == Weight(c.dirties, order) + |c.dirties[META].children| * (HASH_LENGTH + 2)
  {
    hide IsList, Acyclic, Covers, Faithful, DiskClosed, RootsKept, AllSupported, Exact;
    MetaCached(w, c, order, [], multiset{});
    AllButMetaListed(c.dirties, order);
  }

  lemma AllButMetaListed(d: Dirties, order: seq<Hash>)
    requires Distinct(order) && META in d && META !in order
    requires forall h :: h in d && h != META ==> h in order
    requires forall h :: h in order ==> h in d
    ensures |d| == |order| + 1
  {
    DistinctSize(order);
    assert d.Keys - {META} == Members(order);
    assert |d.Keys - {META}| == |d.Keys| - 1;
  }

  function Members(s: seq<Hash>): set<Hash> {
    set h | h in s
  }

  lemma {:induction false} DistinctSize(s: seq<Hash>)
    requires Distinct(s)
    ensures |Members(s)| == |s|
  {
    if |s| == 0 {
      assert Members(s) == {};
    } else {
      var front, last := s[..|s| - 1], s[|s| - 1];
      DistinctSize(front);
      assert last !in Members(front);
      assert Members(s) == Members(front) + {last};
    }
  }

  lemma NothingToWrite(w: World, disk: map<Hash, Blob>)
    ensures WritesClosed(w, disk, [])
  {
  }

  lemma {:induction false} LoadAppend(d: Dirties, a: seq<Hash>, b: seq<Hash>)
    ensures Load(d, a + b) == Load(d, a) + Load(d, b)
  {
    if |b| == 0 {
      assert a + b == a;
    } else {
      assert (a + b)[..|a + b| - 1] == a + b[..|b| - 1];
      LoadAppend(d, a, b[..|b| - 1]);
    }
  }

  lemma {:induction false} LoadSame(d: Dirties, d': Dirties, s: seq<Hash>)
    requires forall h :: h in s ==> h in d && h in d' && d[h] == d'[h]
    ensures Load(d, s) == Load(d', s)
  {
    if |s| > 0 {
      assert s[|s| - 1] in s && forall h :: h in s[..|s| - 1] ==> h in s;
      LoadSame(d, d', s[..|s| - 1]);
    }
  }

  /** The load is that of the head and that of the rest without it. */
  lemma HeadLoad(d: Dirties, order: seq<Hash>)
    requires |order| > 0 && Distinct(order) && forall h :: h in order ==> h in d
    ensures Load(d, order) == Load(d, order[..1]) + Load(d - {order[0]}, order[1..])
  {
    assert order == order[..1] + order[1..];
    LoadAppend(d, order[..1], order[1..]);
    forall h | h in order[1..]
      ensures h in order && h != order[0]
    {
    }
    LoadSame(d, d - {order[0]}, order[1..]);
  }

  lemma NothingFlushed(d: Dirties, order: seq<Hash>)
    ensures Load(d, order[..0]) == 0
  {
  }

  lemma NextIsMeta(w: World, c: Cache, order: seq<Hash>, k: nat)
    requires Inv(w, c, order, [], multiset{}) && k <= |order| && Next(order, k - 1) == META
    ensures k == |order|
  {
  }

  lemma {:induction false} OnDiskReaches(w: World, disk: map<Hash, Blob>, p: seq<Hash>)
    requires DiskClosed(w, disk) && IsPath(w, p) && p[0] in disk
    ensures p[|p| - 1] in disk && disk[p[|p| - 1]] == w.content(p[|p| - 1])
  {
    if |p| > 1 {
      var q := p[..|p| - 1];
      assert IsPath(w, q);
      OnDiskReaches(w, disk, q);
      assert IsDep(w, q[|q| - 1], p[|p| - 1]);
    }
  }

  /** Of the list `all`, the first j have left the cache, the rest are as they were. */
  ghost predicate Forgetting(all: seq<Hash>, was: Dirties, order: seq<Hash>, d: Dirties, j: nat) {
    && j <= |all| && order == all[j..] && Distinct(all)
    && META in was && META !in all && d == was - Elements(all[..j])
  }

  ghost function Elements(s: seq<Hash>): set<Hash> {
    set h | h in s
  }

  lemma ForgettingStarts(w: World, c: Cache, order: seq<Hash>)
    requires Inv(w, c, order, [], multiset{}) && META in c.dirties
    ensures Forgetting(order, c.dirties, order, c.dirties, 0)
  {
    hide Inv;
    MetaCached(w, c, order, [], multiset{});
    assert Elements(order[..0]) == {};
  }

  lemma ForgettingNext(all: seq<Hash>, was: Dirties, order: seq<Hash>, d: Dirties, j: nat)
    requires Forgetting(all, was, order, d, j) && j < |all|
    ensures |order| > 0 && Forgetting(all, was, order[1..], d - {order[0]}, j + 1)
  {
    assert order[1..] == all[j + 1..];
    assert Elements(all[..j + 1]) == Elements(all[..j]) + {order[0]};
  }

  lemma ForgettingMeans(all: seq<Hash>, was: Dirties, order: seq<Hash>, d: Dirties, j: nat)
    requires Forgetting(all, was, order, d, j)
    ensures j <= |all| && order == all[j..] && |order| == |all| - j && (j < |all| ==> order[0] == all[j])
    ensures Distinct(all) && META !in all && META in was && META in d && d[META] == was[META]
    ensures (forall h :: h in d ==> h in was) && forall h :: h in was ==> h in d || h in all[..j]
  {
  }

  lemma HeadOfRest(w: World, c: Cache, all: seq<Hash>, d: Dirties, order: seq<Hash>, j: nat)
    requires Inv(w, c, order, [], multiset{}) && Forgetting(all, d, order, c.dirties, j) && |order| > 0
    ensures order[0] in c.dirties && order[0] !in order[1..]
    ensures Next(all, j) == Next(order, 0)
    ensures Load(d, all[..j + 1]) == Load(d, all[..j]) + Load(c.dirties, order[..1])
  {
    hide Kept;
    assert order[0] in order && order[0] == all[j];
    LoadNext(d, all, j);
    LoadNext(c.dirties, order, 0);
    assert order[..0] == [];
  }

  lemma OldestIsFirst(w: World, c: Cache, order: seq<Hash>)
    requires Inv(w, c, order, [], multiset{})
    ensures c.oldest == Next(order, -1) && Distinct(order)
  {
  }

  lemma NextInjective(order: seq<Hash>, j: nat, k: nat)
    requires Distinct(order) && META !in order && j <= k <= |order| && Next(order, j - 1) == Next(order, k - 1)
    ensures j == k
  {
    assert j < |order| ==> order[j] in order;
  }
}
