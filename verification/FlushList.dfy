/** The flush-list threaded through the cached trie nodes, oldest first, and the
    reference and size sums taken along it. */
module FlushList {

  /** Keccak hashes; 0 stands for the all-zero hash that names the meta-root. */
  type Hash = nat

  const META: Hash := 0
  const HASH_LENGTH := 32
  const CACHED_NODE_CHILDREN_SIZE := 48

  /** An encoded trie node: the hashes embedded in it, and its length. */
  datatype Blob = Blob(kids: seq<Hash>, size: nat)

  datatype CachedNode = CachedNode(
    node: Blob,
    parents: nat,
    tracked: bool,              // whether the external children map is allocated
    children: map<Hash, nat>,
    flushPrev: Hash,
    flushNext: Hash)

  type Dirties = map<Hash, CachedNode>

  predicate Distinct(s: seq<Hash>) {
    forall i, j :: 0 <= i < j < |s| ==> s[i] != s[j]
  }

  function Without(s: seq<Hash>, i: nat): (r: seq<Hash>)
    requires i < |s|
    ensures |r| == |s| - 1
    ensures forall j :: 0 <= j < i ==> r[j] == s[j]
    ensures forall j :: i <= j < |r| ==> r[j] == s[j + 1]
  {
    s[..i] + s[i + 1..]
  }

  lemma WithoutMember(s: seq<Hash>, i: nat)
    requires Distinct(s) && i < |s|
    ensures Distinct(Without(s, i)) && s[i] !in Without(s, i)
    ensures forall h :: h in Without(s, i) <==> h in s && h != s[i]
  {
    var r := Without(s, i);
    forall h | h in s && h != s[i]
      ensures h in r
    {
      var j :| 0 <= j < |s| && s[j] == h;
      if j < i {
        assert r[j] == h;
      } else {
        assert r[j - 1] == h;
      }
    }
  }

  // ----- the list -----

  /** The list starts at oldest, ends at newest, and every link past the head goes both
      ways. The head's own flushPrev is stale and means nothing. */
  predicate IsList(d: Dirties, order: seq<Hash>, oldest: Hash, newest: Hash) {
    && Distinct(order)
    && (forall i :: 0 <= i < |order| ==> order[i] in d && order[i] != META)
    && (if |order| == 0 then oldest == META else oldest == order[0] && newest == order[|order| - 1])
    && (forall i :: 0 <= i < |order| ==> d[order[i]].flushNext == Next(order, i))
    && (forall i :: 0 < i < |order| ==> d[order[i]].flushPrev == order[i - 1])
  }

  function SetNext(d: Dirties, at: Hash, next: Hash): Dirties
    requires at in d
  {
    d[at := d[at].(flushNext := next)]
  }

  function SetPrev(d: Dirties, at: Hash, prev: Hash): Dirties
    requires at in d
  {
    d[at := d[at].(flushPrev := prev)]
  }

  /** Everything but the list links. */
  predicate SameNode(a: CachedNode, b: CachedNode) {
    a.node == b.node && a.parents == b.parents && a.tracked == b.tracked && a.children == b.children
  }

  predicate SameNodes(d: Dirties, d': Dirties) {
    d.Keys == d'.Keys && forall h :: h in d ==> SameNode(d[h], d'[h])
  }

  datatype Links = Links(dirties: Dirties, oldest: Hash, newest: Hash)

  /** The switch both dereference and the cleaner use to take a node off the list. */
  function Unlink(d: Dirties, oldest: Hash, newest: Hash, h: Hash): Links
    requires Linked(d, oldest, newest, h)
  {
    var node := d[h];
    if h == oldest then Links(SetPrev(d, node.flushNext, META), node.flushNext, newest)
    else if h == newest then Links(SetNext(d, node.flushPrev, META), oldest, node.flushPrev)
    else Links(SetPrev(SetNext(d, node.flushPrev, node.flushNext), node.flushNext, node.flushPrev), oldest, newest)
  }

  predicate Linked(d: Dirties, oldest: Hash, newest: Hash, h: Hash) {
    && h in d
    && (h == oldest ==> d[h].flushNext in d)
    && (h != oldest && h == newest ==> d[h].flushPrev in d)
    && (h != oldest && h != newest ==> d[h].flushPrev in d && d[h].flushNext in d)
  }

  function Next(order: seq<Hash>, i: int): Hash
    requires -1 <= i < |order|
  {
    if i + 1 < |order| then order[i + 1] else META
  }

  /** The switch never follows a dangling link, and tells head, tail and middle apart. */
  lemma ListedIsLinked(d: Dirties, order: seq<Hash>, oldest: Hash, newest: Hash, i: nat)
    requires IsList(d, order, oldest, newest) && META in d && i < |order|
    ensures Linked(d, oldest, newest, order[i])
    ensures order[i] == oldest <==> i == 0
    ensures order[i] == newest <==> i == |order| - 1
  {
    assert d[order[i]].flushNext == Next(order, i);
    assert i + 1 < |order| ==> order[i + 1] in d;
    assert i > 0 ==> d[order[i]].flushPrev == order[i - 1] && order[i - 1] in d;
  }

  function NextAfter(d: Dirties, oldest: Hash, newest: Hash, h: Hash, x: Hash): Hash
    requires Linked(d, oldest, newest, h) && x in d
  {
    if h == oldest || x != d[h].flushPrev then d[x].flushNext
    else if h == newest then META
    else d[h].flushNext
  }

  function PrevAfter(d: Dirties, oldest: Hash, newest: Hash, h: Hash, x: Hash): Hash
    requires Linked(d, oldest, newest, h) && x in d
  {
    if (h == newest && h != oldest) || x != d[h].flushNext then d[x].flushPrev
    else if h == oldest then META
    else d[h].flushPrev
  }

  /** Exactly the two neighbours change, and only their links. */
  lemma UnlinkEffect(d: Dirties, oldest: Hash, newest: Hash, h: Hash)
    requires Linked(d, oldest, newest, h)
    ensures var u := Unlink(d, oldest, newest, h);
            && SameNodes(d, u.dirties)
            && u.oldest == (if h == oldest then d[h].flushNext else oldest)
            && u.newest == (if h != oldest && h == newest then d[h].flushPrev else newest)
            && (forall x :: x in d ==> u.dirties[x].flushNext == NextAfter(d, oldest, newest, h, x))
            && (forall x :: x in d ==> u.dirties[x].flushPrev == PrevAfter(d, oldest, newest, h, x))
  {
  }

  lemma NextAfterUnlink(d: Dirties, order: seq<Hash>, oldest: Hash, newest: Hash, i: nat, k: nat)
    requires IsList(d, order, oldest, newest) && META in d && i < |order| && k < |order|
    ensures Linked(d, oldest, newest, order[i]) && order[k] in d
    ensures NextAfter(d, oldest, newest, order[i], order[k]) == if k == i - 1 then Next(order, i) else Next(order, k)
  {
    ListedIsLinked(d, order, oldest, newest, i);
    assert i > 0 ==> d[order[i]].flushPrev == order[i - 1];
  }

  lemma PrevAfterUnlink(d: Dirties, order: seq<Hash>, oldest: Hash, newest: Hash, i: nat, k: nat)
    requires IsList(d, order, oldest, newest) && META in d && i < |order| && 0 < k < |order|
    ensures Linked(d, oldest, newest, order[i]) && order[k] in d
    ensures i > 0 || k > 1 ==>
      PrevAfter(d, oldest, newest, order[i], order[k]) == if k == i + 1 then order[i - 1] else order[k - 1]
  {
    ListedIsLinked(d, order, oldest, newest, i);
    assert d[order[i]].flushNext == Next(order, i);
    assert i > 0 ==> d[order[i]].flushPrev == order[i - 1];
    assert d[order[k]].flushPrev == order[k - 1];
  }

  /** Taking a node off the list leaves a list of the others. */
  lemma UnlinkList(d: Dirties, order: seq<Hash>, oldest: Hash, newest: Hash, i: nat)
    requires IsList(d, order, oldest, newest) && META in d && i < |order|
    ensures Linked(d, oldest, newest, order[i])
    ensures var u := Unlink(d, oldest, newest, order[i]);
            SameNodes(d, u.dirties) && IsList(u.dirties, Without(order, i), u.oldest, u.newest)
  {
    ListedIsLinked(d, order, oldest, newest, i);
    var u, r := Unlink(d, oldest, newest, order[i]), Without(order, i);
    assert Distinct(r) by {
      WithoutMember(order, i);
    }
    assert SameNodes(d, u.dirties) by {
      UnlinkEffect(d, oldest, newest, order[i]);
    }
    UnlinkedNexts(d, order, oldest, newest, i);
    UnlinkedPrevs(d, order, oldest, newest, i);
    UnlinkedEnds(d, order, oldest, newest, i);
    ListFrom(u.dirties, r, u.oldest, u.newest);
  }

  lemma ListFrom(d: Dirties, r: seq<Hash>, oldest: Hash, newest: Hash)
    requires Distinct(r)
    requires forall j :: 0 <= j < |r| ==> r[j] in d && r[j] != META && d[r[j]].flushNext == Next(r, j)
    requires forall j :: 0 < j < |r| ==> r[j] in d && d[r[j]].flushPrev == r[j - 1]
    requires if |r| == 0 then oldest == META else oldest == r[0] && newest == r[|r| - 1]
    ensures IsList(d, r, oldest, newest)
  {
  }

  lemma UnlinkedEnds(d: Dirties, order: seq<Hash>, oldest: Hash, newest: Hash, i: nat)
    requires IsList(d, order, oldest, newest) && META in d && i < |order| && Linked(d, oldest, newest, order[i])
    ensures var r, u := Without(order, i), Unlink(d, oldest, newest, order[i]);
            if |r| == 0 then u.oldest == META else u.oldest == r[0] && u.newest == r[|r| - 1]
  {
    ListedIsLinked(d, order, oldest, newest, i);
    assert d[order[i]].flushNext == Next(order, i);
    assert i > 0 ==> d[order[i]].flushPrev == order[i - 1];
  }

  lemma UnlinkedNexts(d: Dirties, order: seq<Hash>, oldest: Hash, newest: Hash, i: nat)
    requires IsList(d, order, oldest, newest) && META in d && i < |order| && Linked(d, oldest, newest, order[i])
    ensures var r, d' := Without(order, i), Unlink(d, oldest, newest, order[i]).dirties;
            forall j :: 0 <= j < |r| ==> r[j] in d' && r[j] != META && d'[r[j]].flushNext == Next(r, j)
  {
    var r := Without(order, i);
    UnlinkEffect(d, oldest, newest, order[i]);
    var d' := Unlink(d, oldest, newest, order[i]).dirties;
    forall j | 0 <= j < |r|
      ensures r[j] in d' && r[j] != META && d'[r[j]].flushNext == Next(r, j)
    {
      NextAfterUnlink(d, order, oldest, newest, i, if j < i then j else j + 1);
    }
  }

  lemma UnlinkedPrevs(d: Dirties, order: seq<Hash>, oldest: Hash, newest: Hash, i: nat)
    requires IsList(d, order, oldest, newest) && META in d && i < |order| && Linked(d, oldest, newest, order[i])
    ensures var r, d' := Without(order, i), Unlink(d, oldest, newest, order[i]).dirties;
            forall j :: 0 < j < |r| ==> r[j] in d' && d'[r[j]].flushPrev == r[j - 1]
  {
    var r := Without(order, i);
    UnlinkEffect(d, oldest, newest, order[i]);
    var d' := Unlink(d, oldest, newest, order[i]).dirties;
    forall j | 0 < j < |r|
      ensures r[j] in d' && d'[r[j]].flushPrev == r[j - 1]
    {
      PrevAfterUnlink(d, order, oldest, newest, i, if j < i then j else j + 1);
    }
  }

  /** Forgetting an unlisted node leaves the list alone. */
  lemma ForgetList(d: Dirties, order: seq<Hash>, oldest: Hash, newest: Hash, h: Hash)
    requires IsList(d, order, oldest, newest) && h !in order
    ensures IsList(d - {h}, order, oldest, newest)
  {
  }

  /** What insert does with the list links of a fresh entry. */
  function Append(d: Dirties, oldest: Hash, newest: Hash, h: Hash, entry: CachedNode): Links
    requires h !in d && (oldest != META ==> newest in d)
  {
    var d' := d[h := entry.(flushPrev := newest)];
    if oldest == META then Links(d', h, h) else Links(SetNext(d', newest, h), oldest, h)
  }

  lemma AppendList(d: Dirties, order: seq<Hash>, oldest: Hash, newest: Hash, h: Hash, entry: CachedNode)
    requires IsList(d, order, oldest, newest) && h !in d && h != META && entry.flushNext == META
    ensures oldest != META ==> newest in d
    ensures var u := Append(d, oldest, newest, h, entry);
            && IsList(u.dirties, order + [h], u.oldest, u.newest)
            && SameNodes(d[h := entry], u.dirties)
  {
    LastIsNewest(d, order, oldest, newest);
    AppendedLinks(d, order, oldest, newest, h, entry);
    AppendedNodes(d, oldest, newest, h, entry);
    var u := Append(d, oldest, newest, h, entry);
    assert Distinct(order + [h]) && u.newest == h && u.oldest == (order + [h])[0];
    ListFrom(u.dirties, order + [h], u.oldest, u.newest);
  }

  lemma AppendedNodes(d: Dirties, oldest: Hash, newest: Hash, h: Hash, entry: CachedNode)
    requires h !in d && (oldest != META ==> newest in d)
    ensures SameNodes(d[h := entry], Append(d, oldest, newest, h, entry).dirties)
  {
  }

  lemma LastIsNewest(d: Dirties, order: seq<Hash>, oldest: Hash, newest: Hash)
    requires IsList(d, order, oldest, newest)
    ensures |order| == 0 <==> oldest == META
    ensures |order| > 0 ==> newest == order[|order| - 1] && newest in d
  {
  }

  lemma AppendedLinks(d: Dirties, order: seq<Hash>, oldest: Hash, newest: Hash, h: Hash, entry: CachedNode)
    requires IsList(d, order, oldest, newest) && h !in d && h != META && entry.flushNext == META
    requires oldest != META ==> newest in d
    ensures var u, r := Append(d, oldest, newest, h, entry), order + [h];
            && (forall j :: 0 <= j < |r| ==> r[j] in u.dirties && r[j] != META && u.dirties[r[j]].flushNext == Next(r, j))
            && (forall j :: 0 < j < |r| ==> u.dirties[r[j]].flushPrev == r[j - 1])
  {
    LastIsNewest(d, order, oldest, newest);
    var u, r := Append(d, oldest, newest, h, entry), order + [h];
    forall j | 0 <= j < |r|
      ensures r[j] in u.dirties && r[j] != META && u.dirties[r[j]].flushNext == Next(r, j)
      ensures 0 < j ==> u.dirties[r[j]].flushPrev == r[j - 1]
    {
      if j < |order| {
        assert r[j] == order[j];
        assert d[order[j]].flushNext == Next(order, j);
      }
    }
  }

  /** Cap takes the head off by moving oldest alone. */
  lemma BeheadList(d: Dirties, order: seq<Hash>, oldest: Hash, newest: Hash)
    requires IsList(d, order, oldest, newest) && |order| > 0
    ensures oldest in d && IsList(d - {oldest}, order[1..], d[oldest].flushNext, newest)
  {
    var r, d' := order[1..], d - {oldest};
    assert d[order[0]].flushNext == Next(order, 0);
    forall j | 0 <= j < |r|
      ensures r[j] in d' && r[j] != META && d'[r[j]].flushNext == Next(r, j)
    {
      assert r[j] == order[j + 1] != order[0];
      assert d[order[j + 1]].flushNext == Next(order, j + 1);
    }
    forall j | 0 < j < |r|
      ensures r[j] in d' && d'[r[j]].flushPrev == r[j - 1]
    {
      assert r[j] == order[j + 1] && r[j - 1] == order[j];
    }
    ListFrom(d', r, d[oldest].flushNext, newest);
  }

  // ----- sums along the list -----

  /** The children a node refers to, counted as often as it refers to them. */
  function ChildBag(n: CachedNode): multiset<Hash> {
    multiset(n.node.kids) + multiset(n.children.Keys)
  }

  /** All references held by the listed nodes. */
  function Bag(d: Dirties, s: seq<Hash>): multiset<Hash> {
    if |s| == 0 then multiset{} else Bag(d, s[..|s| - 1]) + BagOf(d, s[|s| - 1])
  }

  function BagOf(d: Dirties, h: Hash): multiset<Hash> {
    if h in d then ChildBag(d[h]) else multiset{}
  }

  lemma {:induction false} BagAppend(d: Dirties, a: seq<Hash>, b: seq<Hash>)
    ensures Bag(d, a + b) == Bag(d, a) + Bag(d, b)
  {
    if |b| == 0 {
      assert a + b == a;
    } else {
      var b' := b[..|b| - 1];
      BagAppend(d, a, b');
      assert (a + b)[..|a + b| - 1] == a + b';
    }
  }

  lemma BagWithout(d: Dirties, s: seq<Hash>, i: nat)
    requires i < |s|
    ensures Bag(d, s) == Bag(d, Without(s, i)) + BagOf(d, s[i])
  {
    var a, b := s[..i], s[i + 1..];
    assert s == a + ([s[i]] + b);
    assert Without(s, i) == a + b;
    BagAppend(d, a, [s[i]] + b);
    BagAppend(d, [s[i]], b);
    BagAppend(d, a, b);
    assert [s[i]][..0] == [];
    assert Bag(d, [s[i]]) == BagOf(d, s[i]);
  }

  lemma {:induction false} BagSame(d: Dirties, d': Dirties, s: seq<Hash>)
    requires forall h :: h in s ==> BagOf(d, h) == BagOf(d', h)
    ensures Bag(d, s) == Bag(d', s)
  {
    if |s| > 0 {
      BagSame(d, d', s[..|s| - 1]);
      assert s[|s| - 1] in s;
    }
  }

  /** A counted reference comes from some listed node. */
  lemma {:induction false} BagSource(d: Dirties, s: seq<Hash>, n: Hash) returns (i: nat)
    requires Bag(d, s)[n] > 0
    ensures i < |s| && n in BagOf(d, s[i])
  {
    if n in BagOf(d, s[|s| - 1]) {
      i := |s| - 1;
    } else {
      i := BagSource(d, s[..|s| - 1], n);
    }
  }

  /** A listed node's references are counted. */
  lemma BagCounts(d: Dirties, s: seq<Hash>, i: nat, n: Hash)
    requires i < |s|
    ensures Bag(d, s)[n] >= BagOf(d, s[i])[n]
  {
    BagWithout(d, s, i);
  }

  /** What an entry contributes to dirtiesSize and childrenSize together. */
  function NodeWeight(n: CachedNode): nat {
    HASH_LENGTH + n.node.size + if n.tracked then CACHED_NODE_CHILDREN_SIZE + |n.children| * (HASH_LENGTH + 2) else 0
  }

  function WeightOf(d: Dirties, h: Hash): nat {
    if h in d then NodeWeight(d[h]) else 0
  }

  function Weight(d: Dirties, s: seq<Hash>): nat {
    if |s| == 0 then 0 else Weight(d, s[..|s| - 1]) + WeightOf(d, s[|s| - 1])
  }

  lemma {:induction false} WeightAppend(d: Dirties, a: seq<Hash>, b: seq<Hash>)
    ensures Weight(d, a + b) == Weight(d, a) + Weight(d, b)
  {
    if |b| == 0 {
      assert a + b == a;
    } else {
      var b' := b[..|b| - 1];
      WeightAppend(d, a, b');
      assert (a + b)[..|a + b| - 1] == a + b';
    }
  }

  lemma WeightWithout(d: Dirties, s: seq<Hash>, i: nat)
    requires i < |s|
    ensures Weight(d, s) == Weight(d, Without(s, i)) + WeightOf(d, s[i])
  {
    var a, b := s[..i], s[i + 1..];
    assert s == a + ([s[i]] + b);
    assert Without(s, i) == a + b;
    WeightAppend(d, a, [s[i]] + b);
    WeightAppend(d, [s[i]], b);
    WeightAppend(d, a, b);
    assert [s[i]][..0] == [];
    assert Weight(d, [s[i]]) == WeightOf(d, s[i]);
  }

  lemma {:induction false} WeightSame(d: Dirties, d': Dirties, s: seq<Hash>)
    requires forall h :: h in s ==> WeightOf(d, h) == WeightOf(d', h)
    ensures Weight(d, s) == Weight(d', s)
  {
    if |s| > 0 {
      WeightSame(d, d', s[..|s| - 1]);
      assert s[|s| - 1] in s;
    }
  }
}
