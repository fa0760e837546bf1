/** The in-memory trie node cache with reference-counting garbage collection in front
    of the disk database. The ghost field `order` is the flush-list as a sequence. */
module TrieDatabase {
  import opened FlushList
  import opened CacheInvariant

  const IDEAL_BATCH_SIZE := 100 * 1024

  class Database {
    ghost const world: World
    var dirties: Dirties
    var disk: map<Hash, Blob>
    var oldest: Hash
    var newest: Hash
    var dirtiesSize: int
    var childrenSize: int
    ghost var order: seq<Hash>
    /** The nodes the cleaner has taken out so far. */
    ghost var cleaned: seq<CachedNode>

    ghost function View(): Cache
      reads this
    {
      Cache(dirties, disk, oldest, newest, dirtiesSize, childrenSize)
    }

    /** The invariant, while `dying` nodes are torn down and `owed` references removed. */
    ghost predicate Between(w: World, dying: seq<Hash>, owed: multiset<Hash>)
      reads this
    {
      Inv(w, View(), order, dying, owed) && Charged(world, dirtiesSize, order, dying, cleaned)
    }

    ghost predicate Valid()
      reads this
    {
      Between(world, [], multiset{})
    }

    /** NewDatabase, over a disk that refers to nothing it does not hold. */
    constructor (ghost world: World, disk: map<Hash, Blob>)
      requires Acyclic(world) && DiskClosed(world, disk)
      ensures this.world == world && this.disk == disk && order == [] && cleaned == [] && Valid()
      ensures dirties.Keys == {META} && dirties[META].children == map[]
    {
      this.world, this.disk := world, disk;
      dirties := map[META := CachedNode(Blob([], 0), 0, true, map[], META, META)];
      oldest, newest := META, META;
      dirtiesSize, childrenSize := 0, 0;
      order, cleaned := [], [];
    }

    /** The hashes a node refers to: external children in no particular order, then the
        embedded ones. */
    static method Childs(n: CachedNode) returns (cs: seq<Hash>)
      ensures multiset(cs) == ChildBag(n)
      ensures forall c :: c in cs <==> c in ChildBag(n)
    {
      cs := [];
      var rest := n.children.Keys;
      while rest != {}
        invariant rest <= n.children.Keys
        invariant multiset(cs) + multiset(rest) == multiset(n.children.Keys)
        decreases |rest|
      {
        var c :| c in rest;
        rest := rest - {c};
        cs := cs + [c];
      }
      cs := cs + n.node.kids;
      assert forall c :: c in cs <==> c in multiset(cs);
    }

    method Insert(ghost w: World, hash: Hash, blob: Blob)
      requires Between(w, [], multiset{})
      requires hash !in dirties ==> blob == world.content(hash) == w.content(hash) && w.exts(hash) == {} && KidsStored(dirties, disk, blob)
      modifies this
      ensures Between(w, [], multiset{}) && disk == old(disk) && cleaned == old(cleaned) && hash in dirties
      ensures order == if hash in old(dirties) then old(order) else old(order) + [hash]
      ensures hash in old(dirties) ==> dirties == old(dirties)
    {
      hide Charged, IsList, Kept, SameNodes, KidsStored, Acyclic;
      if hash in dirties {
        return;
      }
      CountKids(w, hash, blob);
      var entry := CachedNode(blob, 0, false, map[], META, META);
      KidsKept(old(dirties), dirties, disk, blob);
      MetaCached(w, View(), order, [], multiset(blob.kids));
      AppendList(dirties, order, oldest, newest, hash, entry);
      JoinInv(w, View(), order, hash, entry, Append(dirties, oldest, newest, hash, entry));
      dirties := dirties[hash := entry.(flushPrev := newest)];
      if oldest == META {
        oldest, newest := hash, hash;
      } else {
        dirties := dirties[newest := dirties[newest].(flushNext := hash)];
        newest := hash;
      }
      ChargedJoin(world, dirtiesSize, order, cleaned, hash);
      dirtiesSize := dirtiesSize + (HASH_LENGTH + blob.size);
      order := order + [hash];
    }

    /** The first step of insert: the node's children that are cached have one parent more. */
    method CountKids(ghost w: World, hash: Hash, blob: Blob)
      requires Between(w, [], multiset{}) && hash !in dirties
      requires blob == w.content(hash) && KidsStored(dirties, disk, blob)
      modifies `dirties
      ensures Between(w, [], multiset(blob.kids)) && dirties.Keys == old(dirties.Keys)
    {
      hide Charged, IsList, Kept, SameNodes, KidsStored, Acyclic;
      InvAcyclic(w, View(), order, [], multiset{});
      for i := 0 to |blob.kids|
        invariant Between(w, [], multiset(blob.kids[..i]))
        invariant dirties.Keys == old(dirties.Keys)
      {
        var child := blob.kids[i];
        ghost var owed := multiset(blob.kids[..i]);
        assert blob.kids[..i + 1] == blob.kids[..i] + [child];
        KidStored(old(dirties), dirties, disk, blob, i);
        DepBelow(w, hash, child);
        if child in dirties {
          CountInv(w, View(), order, [], owed, child);
          dirties := dirties[child := dirties[child].(parents := dirties[child].parents + 1)];
        } else {
          MetaCached(w, View(), order, [], owed);
          SettleInv(w, View(), order, [], owed, child);
        }
      }
      assert blob.kids[..|blob.kids|] == blob.kids;
    }

    /** A reference from the meta-root keeps a trie alive. */
    method ReferenceRoot(root: Hash)
      requires Valid() && root != META
      modifies this
      ensures Valid() && disk == old(disk) && cleaned == old(cleaned) && order == old(order)
      ensures dirties.Keys == old(dirties.Keys) && META in dirties && META in old(dirties)
      ensures dirties[META].children == if root in old(dirties) then AddRoot(old(dirties[META]), root).children
                                        else old(dirties[META].children)
    {
      hide Charged, IsList, Kept;
      MetaCached(world, View(), order, [], multiset{});
      Reference(world, 0, root, META);
    }

    /** Reference. For a parent in the list, its position `at` says which children may be
        tracked: those listed before it, or already on disk. */
    method Reference(ghost w: World, ghost at: nat, child: Hash, parent: Hash)
      requires Between(w, [], multiset{}) && child != META && META in dirties
      requires parent != META ==>
        && at < |order| && order[at] == parent && w.rank(child) < w.rank(parent)
        && (child in disk || child in order[..at]) && (parent in disk ==> child in disk)
      modifies this
      ensures Between(if parent == META then w else More(w, parent, child), [], multiset{})
      ensures disk == old(disk) && cleaned == old(cleaned) && order == old(order) && dirties.Keys == old(dirties.Keys)
      ensures parent == META ==>
        dirties[META].children == if child in old(dirties) then AddRoot(old(dirties[META]), child).children
                                  else old(dirties[META].children)
    {
      hide Charged, Inv, More;
      MetaCached(w, View(), order, [], multiset{});
      if child !in dirties {
        if parent != META {
          NotBefore(order, at, child);
          AcknowledgeInv(w, View(), order, at, child);
        }
        return;
      }
      if parent != META {
        assert parent in order;
        UntrackedIsEmpty(w, View(), order, [], multiset{}, parent);
        if child in dirties[parent].children {
          TrackedIsBefore(w, View(), order, at, child);
          AcknowledgeInv(w, View(), order, at, child);
          return;
        }
      }
      ghost var c0 := View();
      CountInv(w, c0, order, [], multiset{}, child);
      dirties := dirties[child := dirties[child].(parents := dirties[child].parents + 1)];
      ghost var c1 := View();
      assert multiset{} + multiset{child} == multiset{child};
      if parent == META {
        AddRootInv(w, c1, order, child);
      } else {
        TrackInv(w, c1, order, at, child);
      }
      Hold(child, parent);
    }

    /** The end of reference: the parent's entry for the child is counted up. */
    method Hold(child: Hash, parent: Hash)
      requires parent in dirties
      requires if parent == META then dirties[parent].tracked && forall c :: c in dirties[parent].children ==> dirties[parent].children[c] > 0
               else child !in dirties[parent].children
      modifies `dirties, `childrenSize
      ensures dirties == old(dirties[parent := if parent == META then AddRoot(dirties[parent], child) else Track(dirties[parent], child)])
      ensures childrenSize == old(childrenSize + (if dirties[parent].tracked then 0 else CACHED_NODE_CHILDREN_SIZE)
                                  + if child in dirties[parent].children then 0 else HASH_LENGTH + 2)
    {
      if !dirties[parent].tracked {
        dirties := dirties[parent := dirties[parent].(tracked := true)];
        childrenSize := childrenSize + CACHED_NODE_CHILDREN_SIZE;
      }
      var n := dirties[parent];
      var count := (if child in n.children then n.children[child] else 0) + 1;
      dirties := dirties[parent := n.(children := n.children[child := count])];
      if count == 1 {
        childrenSize := childrenSize + (HASH_LENGTH + 2);
      }
    }

    /** InsertBlob: contract code and other nodes without references of their own. */
    method InsertBlob(hash: Hash, blob: Blob)
      requires Valid() && blob.kids == []
      requires hash != META ==> blob == world.content(hash) && world.exts(hash) == {}
      modifies this
      ensures Valid() && disk == old(disk) && cleaned == old(cleaned)
      ensures order == if hash in old(dirties) then old(order) else old(order) + [hash]
      ensures hash in old(dirties) ==> dirties == old(dirties)
    {
      hide Charged, IsList, Kept;
      MetaCached(world, View(), order, [], multiset{});
      Insert(world, hash, blob);
    }

    /** The hasher's store: a trie node enters the cache together with the references from
        its leaves to the storage tries and codes they name. */
    method Store(hash: Hash, blob: Blob, refs: seq<Hash>)
      requires Valid() && hash != META && blob == world.content(hash)
      requires KidsStored(dirties, disk, blob)
      requires forall r :: r in refs <==> r in world.exts(hash)
      requires forall r :: r in refs ==> r in dirties || r in disk
      modifies this
      ensures Valid() && disk == old(disk) && cleaned == old(cleaned) && hash in dirties
      ensures order == if hash in old(dirties) then old(order) else old(order) + [hash]
    {
      hide Charged, IsList, Kept, KidsStored, Acyclic, Narrower, DiskClosed, WidensTo, More, WithExts, Acknowledged;
      InvAcyclic(world, View(), order, [], multiset{});
      InvDiskClosed(world, View(), order, [], multiset{});
      ghost var w := NarrowWorld(world, dirties, hash);
      NarrowerKept(world, w, dirties, disk, order, dirtiesSize + childrenSize);
      Insert(w, hash, blob);
      MetaCached(w, View(), order, [], multiset{});
      ghost var at := PositionOf(order, hash);
      ExtsBefore(world, old(View()), old(order), order, hash, at, refs);
      w := ReferenceAll(w, at, hash, refs);
      WidenedWorld(w, world, dirties, hash, refs);
      NarrowerKept(w, world, dirties, disk, order, dirtiesSize + childrenSize);
    }

    /** A node's references to the tries and codes its leaves name, one by one. */
    method ReferenceAll(ghost w0: World, ghost at: nat, hash: Hash, refs: seq<Hash>) returns (ghost w: World)
      requires Between(w0, [], multiset{}) && META in dirties && hash != META && at < |order| && order[at] == hash
      requires WidensTo(w0, world, hash) && Acyclic(world) && DiskClosed(world, disk)
      requires forall r :: r in refs ==> r in world.exts(hash) && (r in disk || r in order[..at])
      modifies this
      ensures Between(w, [], multiset{}) && disk == old(disk) && cleaned == old(cleaned) && order == old(order) && dirties.Keys == old(dirties.Keys)
      ensures WidensTo(w, world, hash) && Acknowledged(w, hash, refs, |refs|)
    {
      hide Charged, Inv, Acyclic, DiskClosed, WidensTo, More, WithExts, Acknowledged;
      w := w0;
      NothingAcknowledged(w, hash, refs);
      for k := 0 to |refs|
        invariant Between(w, [], multiset{}) && disk == old(disk) && cleaned == old(cleaned)
        invariant order == old(order) && dirties.Keys == old(dirties.Keys)
        invariant WidensTo(w, world, hash) && Acknowledged(w, hash, refs, k)
      {
        assert refs[k] in refs;
        WidenStep(w, world, disk, hash, refs[k]);
        Reference(w, at, refs[k], hash);
        AcknowledgeNext(w, hash, refs, k);
        w := More(w, hash, refs[k]);
      }
    }

    /** Dereference: the meta-root lets go of a root. A root it does not hold may be named
        only if it is no longer cached or already safe on disk. */
    method DereferenceRoot(root: Hash)
      requires Valid() && META in dirties
      requires root in dirties[META].children || root !in dirties || root in disk
      modifies this
      ensures Valid() && disk == old(disk) && cleaned == old(cleaned) && META in dirties
      ensures forall h :: h in dirties ==> h in old(dirties)
      ensures root != META ==> dirties[META].children == Without1(old(dirties[META].children), root)
      ensures root != META ==> Collected(world, old(dirties), dirties, root)
      ensures root != META ==> OneParentLess(old(dirties), dirties, root)
      ensures root == META ==> dirties == old(dirties) && order == old(order)
    {
      hide Charged, IsList, Kept, Collected;
      if root == META {
        return;
      }
      assert multiset{} - multiset{root} == multiset{};
      Dereference(root, META, [], multiset{});
    }

    /** The first half of dereference: the parent's entry for the child is counted down. */
    method DropReference(child: Hash, parent: Hash, ghost dying: seq<Hash>, ghost owed: multiset<Hash>)
      requires Between(world, dying, owed) && child != META && parent in dirties
      requires if |dying| == 0
               then parent == META && (child in dirties[META].children || child !in dirties || child in disk)
               else parent == dying[|dying| - 1]
      modifies this
      ensures Between(world, dying, if |dying| == 0 then owed + multiset{child} else owed)
      ensures disk == old(disk) && cleaned == old(cleaned) && order == old(order) && dirties.Keys == old(dirties.Keys)
      ensures forall x :: x in dirties && x != parent ==> dirties[x] == old(dirties[x])
      ensures dirties[parent] == old(dirties[parent].(children := Without1(dirties[parent].children, child)))
    {
      hide Charged, IsList, Kept;
      MetaCached(world, View(), order, dying, owed);
      if |dying| > 0 {
        TopIsCached(world, View(), order, dying, owed);
      }
      var node := dirties[parent];
      if child in node.children && node.children[child] > 0 {
        if |dying| == 0 {
          DropRootInv(world, View(), order, dying, owed, child);
        } else {
          UntrackedIsEmpty(world, View(), order, dying, owed, parent);
          DropExternalInv(world, View(), order, dying, owed, child);
        }
        var count := node.children[child] - 1;
        if count == 0 {
          dirties := dirties[parent := node.(children := node.children - {child})];
          childrenSize := childrenSize - (HASH_LENGTH + 2);
        } else {
          dirties := dirties[parent := node.(children := node.children[child := count])];
        }
      } else if |dying| == 0 {
        SettleInv(world, View(), order, dying, owed, child);
      }
    }

    /** One reference from parent to child goes away; a child left without parents is torn
        down, and the references it held go away in turn. The graph has no cycles, so the
        cascade ends. */
    method Dereference(child: Hash, parent: Hash, ghost dying: seq<Hash>, ghost owed: multiset<Hash>)
      requires Between(world, dying, owed) && child != META && parent in dirties
      requires if |dying| == 0
               then parent == META && owed == multiset{} && (child in dirties[META].children || child !in dirties || child in disk)
               else parent == dying[|dying| - 1] && child in owed
      requires forall x :: x in dying ==> world.rank(child) < world.rank(x)
      modifies this
      ensures Between(world, dying, owed - multiset{child}) && disk == old(disk) && cleaned == old(cleaned)
      ensures forall h :: h in dirties ==> h in old(dirties)
      ensures forall x :: x in dying || x == META ==> x in dirties && x in old(dirties)
      ensures forall x :: (x in dying || x == META) && x != parent ==> SameNode(old(dirties[x]), dirties[x])
      ensures parent in dirties && dirties[parent].node == old(dirties[parent].node)
      ensures dirties[parent].tracked == old(dirties[parent].tracked)
      ensures dirties[parent].children == Without1(old(dirties[parent].children), child)
      ensures Collected(world, old(dirties), dirties, child) && OneParentLess(old(dirties), dirties, child)
      decreases world.rank(child), 3
    {
      hide Charged, Inv, Without1, Collected;
      MetaCached(world, View(), order, dying, owed);
      DyingCached(world, View(), order, dying, owed);
      DropReference(child, parent, dying, owed);
      ghost var owed1 := if |dying| == 0 then multiset{child} else owed;
      assert owed1 == if |dying| == 0 then owed + multiset{child} else owed;
      assert owed1 - multiset{child} == owed - multiset{child};
      MetaCached(world, View(), order, dying, owed1);
      if child !in dirties {
        SettleInv(world, View(), order, dying, owed1, child);
        NothingCollected(world, old(dirties), dirties, child);
        return;
      }
      ghost var dropped := dirties;
      LoseParent(child, dying, owed1);
      CollectedSince(world, old(dirties), dropped, dirties, child);
    }

    /** A cached child has one parent less, and is torn down if it has none left. */
    method LoseParent(child: Hash, ghost dying: seq<Hash>, ghost owed: multiset<Hash>)
      requires Between(world, dying, owed) && child != META && child in dirties && child in owed
      requires forall x :: x in dying ==> world.rank(child) < world.rank(x)
      modifies this
      ensures Between(world, dying, owed - multiset{child}) && disk == old(disk) && cleaned == old(cleaned)
      ensures forall x :: x in dying || x == META ==> x in dirties && x in old(dirties) && SameNode(old(dirties[x]), dirties[x])
      ensures Collected(world, old(dirties), dirties, child) && OneParentLess(old(dirties), dirties, child)
      decreases world.rank(child), 2
    {
      hide Charged, Inv, Collected;
      MetaCached(world, View(), order, dying, owed);
      DyingCached(world, View(), order, dying, owed);
      ReleaseInv(world, View(), order, dying, owed, child);
      ghost var released := dirties[child := Released(dirties[child])];
      if dirties[child].parents > 0 {
        dirties := dirties[child := dirties[child].(parents := dirties[child].parents - 1)];
      }
      assert dirties == released;
      if dirties[child].parents == 0 {
        TearDown(child, dying, owed - multiset{child});
      }
      CollectedFrom(world, old(dirties), released, dirties, child);
    }

    /** The second half of dereference: off the list, children first, then gone. */
    method TearDown(child: Hash, ghost dying: seq<Hash>, ghost owed: multiset<Hash>)
      requires Between(world, dying, owed) && child in order && child in dirties && dirties[child].parents == 0
      requires forall x :: x in dying ==> world.rank(child) < world.rank(x)
      modifies this
      ensures Between(world, dying, owed) && disk == old(disk) && cleaned == old(cleaned)
      ensures forall h :: h in dirties ==> h in old(dirties)
      ensures forall x :: x in dying || x == META ==> x in dirties && x in old(dirties) && SameNode(old(dirties[x]), dirties[x])
      ensures Collected(world, old(dirties), dirties, child) && child !in dirties
      decreases world.rank(child), 1
    {
      hide Charged, Inv, ChildBag, Collected;
      MetaCached(world, View(), order, dying, owed);
      DyingCached(world, View(), order, dying, owed);
      ChildrenBelow(world, View(), order, dying, owed, child);
      var node := dirties[child];
      Detach(child, dying, owed);
      ghost var below := dying + [child];
      var cs := Childs(node);
      ghost var detached := dirties;
      NothingCollected(world, old(dirties), detached, child);
      TearDownChildren(child, cs, node.children, below, owed, old(dirties));
      ghost var childless := dirties;
      Bury(child, dying, owed);
      BuriedToo(world, old(dirties), childless, dirties, child);
    }

    /** Remove the node from the flush-list. */
    method Detach(child: Hash, ghost dying: seq<Hash>, ghost owed: multiset<Hash>)
      requires Between(world, dying, owed) && child in order && child in dirties && dirties[child].parents == 0
      modifies this
      ensures Between(world, dying + [child], owed + ChildBag(old(dirties[child]))) && disk == old(disk) && cleaned == old(cleaned)
      ensures SameNodes(old(dirties), dirties)
    {
      hide Charged, IsList, Kept, Linked, Unlink;
      MetaCached(world, View(), order, dying, owed);
      ghost var i := PositionOf(order, child);
      UnlinkList(dirties, order, oldest, newest, i);
      ghost var u := Unlink(dirties, oldest, newest, child);
      DetachInv(world, View(), order, dying, owed, i, u);
      RemoveFromFlushList(child);
      ChargedDetach(world, dirtiesSize, order, dying, cleaned, i);
      order := Without(order, i);
    }

    /** Delete the node once its children are dereferenced. */
    method Bury(child: Hash, ghost dying: seq<Hash>, ghost owed: multiset<Hash>)
      requires Between(world, dying + [child], owed) && child in dirties && dirties[child].children == map[]
      modifies this
      ensures Between(world, dying, owed) && disk == old(disk) && cleaned == old(cleaned) && dirties == old(dirties) - {child}
    {
      hide Charged, Inv;
      var node := dirties[child];
      BuryLast(world, View(), order, dying, child, owed, dirtiesSize - (HASH_LENGTH + node.node.size),
               childrenSize - if node.tracked then CACHED_NODE_CHILDREN_SIZE else 0);
      ChargedBury(world, dirtiesSize, order, dying, cleaned, child);
      dirties := dirties - {child};
      dirtiesSize := dirtiesSize - (HASH_LENGTH + node.node.size);
      if node.tracked {
        childrenSize := childrenSize - CACHED_NODE_CHILDREN_SIZE;
      }
    }

    /** The switch that takes a node off the flush-list. */
    method RemoveFromFlushList(hash: Hash)
      requires Linked(dirties, oldest, newest, hash)
      modifies `dirties, `oldest, `newest
      ensures Links(dirties, oldest, newest) == old(Unlink(dirties, oldest, newest, hash))
    {
      var node := dirties[hash];
      if hash == oldest {
        oldest := node.flushNext;
        dirties := dirties[node.flushNext := dirties[node.flushNext].(flushPrev := META)];
      } else if hash == newest {
        newest := node.flushPrev;
        dirties := dirties[node.flushPrev := dirties[node.flushPrev].(flushNext := META)];
      } else {
        dirties := dirties[node.flushPrev := dirties[node.flushPrev].(flushNext := node.flushNext)];
        dirties := dirties[node.flushNext := dirties[node.flushNext].(flushPrev := node.flushPrev)];
      }
    }

    method TearDownChildren(child: Hash, cs: seq<Hash>, ghost kids: map<Hash, nat>, ghost dying: seq<Hash>, ghost owed: multiset<Hash>,
                            ghost was: Dirties)
      requires Between(world, dying, owed + multiset(cs)) && |dying| > 0 && child == dying[|dying| - 1]
      requires child in dirties && child != META && dirties[child].children == kids
      requires forall c :: c in kids ==> kids[c] == 1 && c in cs
      requires forall c :: c in cs ==> c != META && world.rank(c) < world.rank(child) && IsDep(world, child, c)
      requires forall x :: x in dying ==> world.rank(child) <= world.rank(x)
      requires Collected(world, was, dirties, child)
      modifies this
      ensures Between(world, dying, owed) && disk == old(disk) && cleaned == old(cleaned)
      ensures forall h :: h in dirties ==> h in old(dirties)
      ensures forall x :: x in dying || x == META ==> x in dirties && x in old(dirties)
      ensures forall x :: (x in dying || x == META) && x != child ==> SameNode(old(dirties[x]), dirties[x])
      ensures dirties[child].node == old(dirties[child].node) && dirties[child].tracked == old(dirties[child].tracked)
      ensures dirties[child].children == map[] && Collected(world, was, dirties, child)
      decreases world.rank(child), 0
    {
      hide Charged, Inv, Collected, IsDep, OneParentLess;
      DyingCached(world, View(), order, dying, owed + multiset(cs));
      MetaCached(world, View(), order, dying, owed + multiset(cs));
      assert cs[0..] == cs;
      for k := 0 to |cs|
        invariant Between(world, dying, owed + multiset(cs[k..])) && disk == old(disk) && cleaned == old(cleaned)
        invariant forall h :: h in dirties ==> h in old(dirties)
        invariant forall x :: x in dying || x == META ==> x in dirties && x in old(dirties)
        invariant forall x :: (x in dying || x == META) && x != child ==> SameNode(old(dirties[x]), dirties[x])
        invariant dirties[child].node == old(dirties[child].node) && dirties[child].tracked == old(dirties[child].tracked)
        invariant forall c :: c in dirties[child].children ==> dirties[child].children[c] == 1 && c in cs[k..]
        invariant Collected(world, was, dirties, child)
      {
        var c := cs[k];
        ghost var before := dirties;
        NextClaim(owed, cs, k);
        Dereference(c, child, dying, owed + multiset(cs[k..]));
        CollectedTwice(world, was, before, dirties, child, c);
      }
      NoClaim(owed, cs);
    }

    lemma NextClaim(owed: multiset<Hash>, cs: seq<Hash>, k: nat)
      requires k < |cs|
      ensures cs[k] in owed + multiset(cs[k..])
      ensures owed + multiset(cs[k..]) - multiset{cs[k]} == owed + multiset(cs[k + 1..])
      ensures forall c :: c in cs[k..] <==> c == cs[k] || c in cs[k + 1..]
    {
      assert cs[k..] == [cs[k]] + cs[k + 1..];
    }

    lemma NoClaim(owed: multiset<Hash>, cs: seq<Hash>)
      ensures cs[|cs|..] == [] && owed + multiset(cs[|cs|..]) == owed
    {
      assert cs[|cs|..] == [];
    }

    /** The memory the cache takes, as reported to the garbage collection policy. */
    function Size(): int
      requires META in dirties
      reads this
    {
      dirtiesSize + childrenSize + (|dirties| - 1) * CACHED_NODE_SIZE - |dirties[META].children| * (HASH_LENGTH + 2)
    }

    /** A batch reaches the disk. */
    method Write(batch: Batch)
      modifies `disk
      ensures disk == Written(old(disk), batch.writes)
    {
      for i := 0 to |batch.writes|
        invariant disk == Written(old(disk), batch.writes[..i])
      {
        assert batch.writes[..i + 1][..i] == batch.writes[..i];
        disk := disk[batch.writes[i].0 := batch.writes[i].1];
      }
      assert batch.writes[..|batch.writes|] == batch.writes;
    }

    /** The cleaner: a node the batch has written leaves the dirty cache. The external
        children are charged to dirtiesSize, so only the sum of both sizes stays exact. */
    method Clean(hash: Hash)
      requires Valid() && hash != META && hash in disk
      modifies this
      ensures Valid() && disk == old(disk) && dirties.Keys == old(dirties.Keys) - {hash}
      ensures META in dirties && META in old(dirties) && dirties[META].children == old(dirties[META].children)
      ensures forall h :: h in order ==> h in old(order)
      ensures cleaned == if hash in old(dirties) then old(cleaned + [dirties[hash]]) else old(cleaned)
      ensures Accounted(old(dirties), dirties, cleaned)
    {
      hide Charged, Inv, Accounted;
      MetaCached(world, View(), order, [], multiset{});
      if hash !in dirties {
        NothingAccounted(dirties, cleaned);
        return;
      }
      TakeOut(hash);
    }

    method TakeOut(hash: Hash)
      requires Valid() && hash != META && hash in disk && hash in dirties
      modifies `dirties, `oldest, `newest, `dirtiesSize, `order, `cleaned
      ensures Valid() && dirties.Keys == old(dirties.Keys) - {hash}
      ensures META in dirties && META in old(dirties) && dirties[META].children == old(dirties[META].children)
      ensures forall h :: h in order ==> h in old(order)
      ensures cleaned == old(cleaned + [dirties[hash]]) && Accounted(old(dirties), dirties, cleaned)
    {
      hide Charged, Inv, Linked, Unlink, Accounted;
      MetaCached(world, View(), order, [], multiset{});
      ghost var i := PositionOf(order, hash);
      CleanedOut(world, View(), order, i, cleaned);
      var node := dirties[hash];
      RemoveFromFlushList(hash);
      dirties := dirties - {hash};
      dirtiesSize := dirtiesSize - (HASH_LENGTH + node.node.size);
      if node.tracked {
        dirtiesSize := dirtiesSize - (CACHED_NODE_CHILDREN_SIZE + |node.children| * (HASH_LENGTH + 2));
      }
      order, cleaned := Without(order, i), cleaned + [node];
    }

    /** Nothing retrievable before is lost: what left the dirty cache is on disk. */
    twostate predicate OnlyMovedToDisk()
      reads this
    {
      && (forall h :: h in old(disk) ==> h in disk)
      && (forall h :: h in old(dirties) ==> h in dirties || h in disk)
      && (forall h :: h in dirties ==> h in old(dirties))
      && META in dirties && META in old(dirties) && dirties[META].children == old(dirties[META].children)
    }

    /** Replay of a written batch through the cleaner. */
    method Replay(batch: Batch)
      requires Valid() && META in dirties
      requires forall i :: 0 <= i < |batch.writes| ==> batch.writes[i].0 != META && batch.writes[i].0 in disk
      modifies this
      ensures Valid() && disk == old(disk) && OnlyMovedToDisk()
      ensures forall i :: 0 <= i < |batch.writes| ==> batch.writes[i].0 !in dirties
      ensures forall h :: h in old(dirties) && h !in dirties ==> InWrites(h, batch.writes)
      ensures old(cleaned) <= cleaned && Accounted(old(dirties), dirties, cleaned)
    {
      hide Charged, Inv, Accounted;
      NothingAccounted(dirties, cleaned);
      for i := 0 to |batch.writes|
        invariant Valid() && disk == old(disk) && OnlyMovedToDisk()
        invariant old(cleaned) <= cleaned && Accounted(old(dirties), dirties, cleaned)
        invariant forall k :: 0 <= k < i ==> batch.writes[k].0 !in dirties
        invariant forall h :: h in old(dirties) && h !in dirties ==> InWrites(h, batch.writes)
      {
        ghost var before, out := dirties, cleaned;
        Clean(batch.writes[i].0);
        AccountedTwice(old(dirties), before, dirties, out, cleaned);
      }
    }

    /** What was on disk or in the batch still is. */
    twostate predicate BatchKept(batch: Batch)
      reads this, batch
    {
      forall h :: h in old(disk) || InWrites(h, old(batch.writes)) ==> h in disk || InWrites(h, batch.writes)
    }

    /** Writes a node and everything below it to disk, children first, uncaching whatever a
        full batch has carried over. */
    method CommitNode(hash: Hash, batch: Batch)
      requires Valid() && META in dirties && hash != META && WritesClosed(world, disk, batch.writes)
      modifies this, batch
      ensures Valid() && OnlyMovedToDisk() && WritesClosed(world, disk, batch.writes) && BatchKept(batch)
      ensures hash in old(dirties) || hash in old(disk) ==> hash in disk || InWrites(hash, batch.writes)
      ensures hash !in dirties || InWrites(hash, batch.writes)
      ensures Below(world, old(Flow(dirties, disk, batch.writes)), Flow(dirties, disk, batch.writes), hash)
      ensures old(cleaned) <= cleaned && Accounted(old(dirties), dirties, cleaned)
      decreases world.rank(hash), 1
    {
      hide Charged, Inv, WritesClosed, InWrites, IsDep, ChildBag, Below, Accounted;
      if hash !in dirties {
        NothingAccounted(dirties, cleaned);
        NothingMoved(world, Flow(dirties, disk, batch.writes), hash);
        return;
      }
      NodeDeps(world, View(), order, hash);
      var node := dirties[hash];
      var cs := Childs(node);
      CommitChildren(hash, cs, batch);
      CommittedDeps(world, old(View()), disk, node, hash, cs, batch.writes);
      ghost var mid, out := Flow(dirties, disk, batch.writes), cleaned;
      PutInBatch(hash, node.node, batch);
      AccountedTwice(old(dirties), mid.dirties, dirties, out, cleaned);
      BelowTwice(world, old(Flow(dirties, disk, batch.writes)), mid, Flow(dirties, disk, batch.writes), hash, hash);
    }

    method CommitChildren(hash: Hash, cs: seq<Hash>, batch: Batch)
      requires Valid() && META in dirties && WritesClosed(world, disk, batch.writes)
      requires forall c :: c in cs ==>
        c != META && world.rank(c) < world.rank(hash) && IsDep(world, hash, c) && (c in dirties || c in disk)
      modifies this, batch
      ensures Valid() && OnlyMovedToDisk() && WritesClosed(world, disk, batch.writes) && BatchKept(batch)
      ensures forall j :: 0 <= j < |cs| ==> cs[j] in disk || InWrites(cs[j], batch.writes)
      ensures Below(world, old(Flow(dirties, disk, batch.writes)), Flow(dirties, disk, batch.writes), hash)
      ensures old(cleaned) <= cleaned && Accounted(old(dirties), dirties, cleaned)
      decreases world.rank(hash), 0
    {
      hide Charged, Inv, WritesClosed, InWrites, IsDep, Below, Accounted;
      NothingAccounted(dirties, cleaned);
      NothingMoved(world, Flow(dirties, disk, batch.writes), hash);
      for k := 0 to |cs|
        invariant Valid() && OnlyMovedToDisk() && WritesClosed(world, disk, batch.writes) && BatchKept(batch)
        invariant forall j :: 0 <= j < k ==> cs[j] in disk || InWrites(cs[j], batch.writes)
        invariant Below(world, old(Flow(dirties, disk, batch.writes)), Flow(dirties, disk, batch.writes), hash)
        invariant old(cleaned) <= cleaned && Accounted(old(dirties), dirties, cleaned)
      {
        assert cs[k] in cs;
        ghost var mid, out := Flow(dirties, disk, batch.writes), cleaned;
        CommitNode(cs[k], batch);
        AccountedTwice(old(dirties), mid.dirties, dirties, out, cleaned);
        BelowTwice(world, old(Flow(dirties, disk, batch.writes)), mid, Flow(dirties, disk, batch.writes), hash, cs[k]);
      }
    }

    /** Adds a node to the batch; at its ideal size the batch is written and replayed. */
    method PutInBatch(hash: Hash, blob: Blob, batch: Batch)
      requires Valid() && META in dirties && WritesClosed(world, disk, batch.writes) && hash != META
      requires blob == world.content(hash) && forall dep :: IsDep(world, hash, dep) ==> dep in disk || InWrites(dep, batch.writes)
      modifies this, batch
      ensures Valid() && OnlyMovedToDisk() && WritesClosed(world, disk, batch.writes) && BatchKept(batch)
      ensures hash in disk || InWrites(hash, batch.writes)
      ensures hash !in dirties || InWrites(hash, batch.writes)
      ensures Below(world, old(Flow(dirties, disk, batch.writes)), Flow(dirties, disk, batch.writes), hash)
      ensures old(cleaned) <= cleaned && Accounted(old(dirties), dirties, cleaned)
    {
      hide Charged, Inv, WritesClosed, InWrites, IsDep, Below, Accounted;
      NothingAccounted(dirties, cleaned);
      SnocClosed(world, disk, batch.writes, hash);
      forall h ensures InWrites(h, batch.writes + [(hash, blob)]) <==> InWrites(h, batch.writes) || h == hash {
        InWritesSnoc(batch.writes, (hash, blob), h);
      }
      batch.Put(hash, blob);
      if batch.size >= IDEAL_BATCH_SIZE {
        Flush(batch);
        batch.Reset();
        assert forall h :: !InWrites(h, batch.writes) by { NothingWritten(); }
      }
      PutBelow(world, old(Flow(dirties, disk, batch.writes)), Flow(dirties, disk, batch.writes), hash);
    }

    /** Write and replay a batch. */
    method Flush(batch: Batch)
      requires Valid() && META in dirties && WritesClosed(world, disk, batch.writes)
      modifies this
      ensures Valid() && OnlyMovedToDisk()
      ensures WritesClosed(world, disk, [])
      ensures forall h :: h in disk <==> h in old(disk) || InWrites(h, batch.writes)
      ensures forall h :: InWrites(h, batch.writes) ==> h !in dirties
      ensures forall h :: h in old(dirties) && h !in dirties ==> InWrites(h, batch.writes)
      ensures old(cleaned) <= cleaned && Accounted(old(dirties), dirties, cleaned)
    {
      hide Charged, Inv, DiskClosed, Accounted;
      InvDiskClosed(world, View(), order, [], multiset{});
      WrittenClosed(world, disk, batch.writes);
      GrowDiskInv(world, View(), order, [], multiset{}, Written(disk, batch.writes));
      Write(batch);
      assert forall i :: 0 <= i < |batch.writes| ==> InWrites(batch.writes[i].0, batch.writes);
      Replay(batch);
    }

    /** Commit: afterwards the whole trie below the root is on disk, and nothing else has
        moved there. */
    method Commit(root: Hash)
      requires Valid() && META in dirties && root != META
      modifies this
      ensures Valid() && OnlyMovedToDisk()
      ensures root in old(dirties) || root in old(disk) ==> root in disk
      ensures root !in dirties
      ensures forall h :: h in old(dirties) && h !in dirties ==> Reaches(world, root, h)
      ensures forall h :: h in disk && h !in old(disk) ==> Reaches(world, root, h)
      ensures old(cleaned) <= cleaned && Accounted(old(dirties), dirties, cleaned)
    {
      hide Charged, Inv, Below, Reaches, Accounted;
      var batch := new Batch();
      assert WritesClosed(world, disk, batch.writes);
      ghost var was := Flow(dirties, disk, batch.writes);
      CommitNode(root, batch);
      ghost var mid, out := Flow(dirties, disk, batch.writes), cleaned;
      Flush(batch);
      AccountedTwice(old(dirties), mid.dirties, dirties, out, cleaned);
      BelowMeans(world, was, mid, dirties, disk, root);
    }

    /** What the flush loop leaves alone. */
    twostate predicate OnlyDiskGrew()
      reads this
    {
      && dirties == old(dirties) && order == old(order) && oldest == old(oldest) && newest == old(newest)
      && dirtiesSize == old(dirtiesSize) && childrenSize == old(childrenSize) && cleaned == old(cleaned)
      && forall h :: h in old(disk) ==> h in disk
    }

    /** A batch reaches the disk; the cache still holds everything. */
    method WriteOut(batch: Batch)
      requires Valid() && WritesClosed(world, disk, batch.writes)
      modifies `disk
      ensures Valid() && OnlyDiskGrew() && WritesClosed(world, disk, [])
      ensures forall h :: h in disk <==> h in old(disk) || InWrites(h, batch.writes)
    {
      hide Charged, Inv, DiskClosed;
      InvDiskClosed(world, View(), order, [], multiset{});
      WrittenClosed(world, disk, batch.writes);
      GrowDiskInv(world, View(), order, [], multiset{}, Written(disk, batch.writes));
      Write(batch);
    }

    /** Cap puts one node in its batch, and writes the batch at its ideal size. */
    method PutToFlush(hash: Hash, blob: Blob, batch: Batch)
      requires Valid() && WritesClosed(world, disk, batch.writes) && hash != META
      requires blob == world.content(hash) && forall dep :: IsDep(world, hash, dep) ==> dep in disk || InWrites(dep, batch.writes)
      modifies `disk, batch
      ensures Valid() && OnlyDiskGrew() && WritesClosed(world, disk, batch.writes) && BatchKept(batch)
      ensures hash in disk || InWrites(hash, batch.writes)
    {
      hide Charged, Inv, WritesClosed, InWrites, IsDep;
      SnocClosed(world, disk, batch.writes, hash);
      forall h ensures InWrites(h, batch.writes + [(hash, blob)]) <==> InWrites(h, batch.writes) || h == hash {
        InWritesSnoc(batch.writes, (hash, blob), h);
      }
      batch.Put(hash, blob);
      if batch.size >= IDEAL_BATCH_SIZE {
        WriteOut(batch);
        batch.Reset();
      }
    }

    /** The first loop of Cap: the oldest nodes reach the disk until what is left fits. */
    method FlushOldest(limit: int) returns (stop: Hash, ghost k: nat)
      requires Valid() && META in dirties
      modifies `disk
      ensures Valid() && OnlyDiskGrew()
      ensures k <= |order| && stop == Next(order, k - 1)
      ensures forall j :: 0 <= j < k ==> order[j] in disk
      ensures k == |order| || Size() - Load(dirties, order[..k]) <= limit
      ensures forall j :: 0 <= j < k ==> Size() - Load(dirties, order[..j]) > limit
    {
      hide Charged, Inv, WritesClosed, InWrites, IsDep, Load, Weight, OverUntil, Written, Safe;
      MetaCached(world, View(), order, [], multiset{});
      LoadNothing(Size(), dirties, order, limit);
      var batch := new Batch();
      SafeStarts(order, disk, []);
      assert WritesClosed(world, disk, []) by { NothingToWrite(world, disk); }
      var size := Size();
      stop := oldest;
      k := 0;
      while size > limit && stop != META
        invariant Valid() && OnlyDiskGrew() && WritesClosed(world, disk, batch.writes) && META in dirties
        invariant k <= |order| && stop == Next(order, k - 1)
        invariant Safe(order, k, disk, batch.writes)
        invariant size == Size() - Load(dirties, order[..k])
        invariant OverUntil(Size(), dirties, order, k, limit)
        decreases |order| - k
      {
        OverNext(Size(), dirties, order, k, limit);
        ListedDeps(world, View(), order, k, disk, batch.writes);
        LoadNext(dirties, order, k);
        var node := dirties[stop];
        ghost var onDisk, ws := disk, batch.writes;
        PutToFlush(stop, node.node, batch);
        SafeNext(order, k, onDisk, ws, disk, batch.writes);
        size := size - (HASH_LENGTH + node.node.size + CACHED_NODE_SIZE);
        if node.tracked {
          size := size - (CACHED_NODE_CHILDREN_SIZE + |node.children| * (HASH_LENGTH + 2));
        }
        stop := node.flushNext;
        k := k + 1;
      }
      if stop == META {
        NextIsMeta(world, View(), order, k);
      }
      OverMeans(Size(), dirties, order, k, limit);
      ghost var onDisk := disk;
      WriteOut(batch);
      SafeWritten(order, k, onDisk, batch.writes, disk);
    }

    /** The head of the list leaves the cache. */
    method ForgetHead()
      requires Valid() && META in dirties && |order| > 0 && order[0] in disk
      modifies this
      ensures Valid() && disk == old(disk) && cleaned == old(cleaned) && META in dirties && dirties == old(dirties) - {old(order[0])}
      ensures order == old(order[1..]) && oldest == old(Next(order, 0))
      ensures Size() == old(Size() - Load(dirties, order[..1]))
    {
      hide Charged, Inv, Load, Next, NodeWeight;
      MetaCached(world, View(), order, [], multiset{});
      SizeIsLoad();
      HeadLoad(dirties, order);
      DropHead();
      SizeIsLoad();
    }

    method DropHead()
      requires Valid() && META in dirties && |order| > 0 && order[0] in disk
      modifies this
      ensures Valid() && disk == old(disk) && cleaned == old(cleaned) && META in dirties && dirties == old(dirties) - {old(order[0])}
      ensures order == old(order[1..]) && oldest == old(Next(order, 0))
    {
      hide Charged, Inv, Next;
      MetaCached(world, View(), order, [], multiset{});
      CachedContent(world, View(), order, [], multiset{});
      ChargedForget(world, dirtiesSize, order, cleaned);
      var node := dirties[oldest];
      BeheadInv(world, View(), order, dirtiesSize - (HASH_LENGTH + node.node.size), childrenSize - ChildrenWeight(node));
      dirties := dirties - {oldest};
      oldest := node.flushNext;
      dirtiesSize := dirtiesSize - (HASH_LENGTH + node.node.size);
      if node.tracked {
        childrenSize := childrenSize - (CACHED_NODE_CHILDREN_SIZE + |node.children| * (HASH_LENGTH + 2));
      }
      order := order[1..];
    }

    /** The second loop of Cap: what was flushed is forgotten, head by head. */
    method ForgetOldest(stop: Hash, ghost k: nat)
      requires Valid() && META in dirties && k <= |order| && stop == Next(order, k - 1)
      requires forall j :: 0 <= j < k ==> order[j] in disk
      modifies this
      ensures Valid() && disk == old(disk) && cleaned == old(cleaned) && OnlyMovedToDisk() && order == old(order[k..])
      ensures Size() == old(Size() - Load(dirties, order[..k]))
    {
      hide Charged, Inv, Load, Next, Forgetting;
      ghost var j := 0;
      NothingFlushed(dirties, order);
      OldestIsFirst(world, View(), order);
      ForgettingStarts(world, View(), order);
      while oldest != stop
        invariant Valid() && disk == old(disk) && cleaned == old(cleaned) && META in dirties
        invariant j <= k && oldest == Next(old(order), j - 1)
        invariant Forgetting(old(order), old(dirties), order, dirties, j)
        invariant Size() == old(Size()) - Load(old(dirties), old(order)[..j])
        decreases k - j
      {
        ForgettingMeans(old(order), old(dirties), order, dirties, j);
        HeadOfRest(world, View(), old(order), old(dirties), order, j);
        ForgettingNext(old(order), old(dirties), order, dirties, j);
        ForgetHead();
        j := j + 1;
      }
      ForgettingMeans(old(order), old(dirties), order, dirties, j);
      NextInjective(old(order), j, k);
      if oldest != META {
        DropPrev();
      }
    }

    /** The head of the list has nothing before it. */
    method DropPrev()
      requires Valid() && META in dirties && oldest != META
      modifies this`dirties
      ensures Valid() && order == old(order) && Size() == old(Size())
      ensures dirties.Keys == old(dirties).Keys && dirties[META].children == old(dirties[META].children)
    {
      hide Charged, Inv;
      HeadPrevInv(world, View(), order, META);
      dirties := dirties[oldest := dirties[oldest].(flushPrev := META)];
    }

    /** Cap: the shortest prefix of the flush-list whose removal brings the cache under the
        limit moves to disk, or all of it if nothing less will do. */
    method Cap(limit: int)
      requires Valid() && META in dirties
      modifies this
      ensures Valid() && OnlyMovedToDisk() && cleaned == old(cleaned)
      ensures Size() <= limit || order == []
      ensures exists k :: 0 <= k <= |old(order)| && order == old(order[k..])
                && Size() == old(Size()) - Load(old(dirties), old(order[..k]))
                && (forall j :: 0 <= j < k ==> old(Size()) - Load(old(dirties), old(order[..j])) > limit)
                && (forall j :: 0 <= j < k ==> old(order[j]) in disk)
    {
      hide Charged, Inv, Load;
      var stop, k := FlushOldest(limit);
      ForgetOldest(stop, k);
    }

    /** Size is what summing over the cached nodes from scratch gives. */
    lemma SizeIsLoad()
      requires Valid() && META in dirties
      ensures Size() == Load(dirties, order)
    {
      ListIsAllCached(world, View(), order);
    }

    /** Apart, each size is exact exactly if the cleaner has never taken out a node with
        external children. */
    lemma SizesAreExact()
      requires Valid()
      ensures dirtiesSize == Bytes(world, order) <==> forall n :: n in cleaned ==> !n.tracked
      ensures childrenSize == ChildrenLoad(dirties, order) + MetaSize(dirties) <==> forall n :: n in cleaned ==> !n.tracked
    {
      SizesApart(world, View(), order, cleaned);
      ChargeIsNone(cleaned);
    }

    /** Otherwise the one is too small and the other too big. */
    lemma SizesDrift()
      requires Valid() && exists n :: n in cleaned && n.tracked
      ensures dirtiesSize < Bytes(world, order) && childrenSize > ChildrenLoad(dirties, order) + MetaSize(dirties)
    {
      SizesApart(world, View(), order, cleaned);
      ChargeIsNone(cleaned);
    }

    /** The point of it all: whatever a held root reaches can be retrieved. */
    lemma LiveNodesRetrievable(p: seq<Hash>)
      requires Valid() && META in dirties && IsPath(world, p) && p[0] in dirties[META].children
      ensures var h := p[|p| - 1];
              (h in dirties || h in disk) && (h != META ==> NodeOf(View(), h) == world.content(h))
    {
      LiveNodesSurvive(world, View(), order, p);
    }

    /** A committed root needs the cache no more: all it reaches is on disk. */
    lemma CommittedIsComplete(p: seq<Hash>)
      requires Valid() && IsPath(world, p) && p[0] in disk
      ensures p[|p| - 1] in disk && disk[p[|p| - 1]] == world.content(p[|p| - 1])
    {
      OnDiskReaches(world, disk, p);
    }
  }

  /** The write batch of the disk database. */
  class Batch {
    var writes: seq<(Hash, Blob)>
    var size: nat

    constructor ()
      ensures writes == [] && size == 0
    {
      writes, size := [], 0;
    }

    method Put(h: Hash, blob: Blob)
      modifies this
      ensures writes == old(writes) + [(h, blob)] && size == old(size) + blob.size
    {
      writes := writes + [(h, blob)];
      size := size + blob.size;
    }

    method Reset()
      modifies this
      ensures writes == [] && size == 0
    {
      writes, size := [], 0;
    }
  }

  /** A node that refers to another from outside is committed, and neither size is right by
      itself any more. */
  method SizesDriftApart() returns (db: Database)
    ensures fresh(db) && db.Valid()
    ensures db.dirtiesSize < Bytes(db.world, db.order)
    ensures db.childrenSize > ChildrenLoad(db.dirties, db.order) + MetaSize(db.dirties)
  {
    hide Database.Valid, Charged, Inv, Acyclic, DiskClosed, Accounted, Reaches, Bytes, KidsStored, ChildrenLoad, MetaSize;
    ghost var world := World((h: Hash) => Blob([], 10), (h: Hash) => if h == 2 then {1} else {}, (h: Hash) => h);
    TwoNodes(world);
    db := new Database(world, map[]);
    db.InsertBlob(1, Blob([], 10));
    ListedIsThere(db);
    assert KidsStored(db.dirties, db.disk, Blob([], 10)) by { NoKids(db.dirties, db.disk, 10); }
    db.Store(2, Blob([], 10), [1]);
    NodeIsTracked(db, 2, 1);
    ghost var was := db.dirties;
    db.Commit(2);
    TrackedIsCleaned(was, db.dirties, db.cleaned, 2);
    ListedIsThere(db);
    db.SizesDrift();
  }

  lemma TwoNodes(w: World)
    requires w == World((h: Hash) => Blob([], 10), (h: Hash) => if h == 2 then {1} else {}, (h: Hash) => h)
    ensures Acyclic(w) && DiskClosed(w, map[])
  {
  }

  lemma NoKids(d: Dirties, disk: map<Hash, Blob>, size: nat)
    ensures KidsStored(d, disk, Blob([], size))
  {
  }

  lemma ListedIsThere(db: Database)
    requires db.Valid()
    ensures META in db.dirties && forall h :: h in db.order ==> h in db.dirties
  {
    MetaCached(db.world, db.View(), db.order, [], multiset{});
  }

  lemma NodeIsTracked(db: Database, h: Hash, e: Hash)
    requires db.Valid() && h in db.dirties && h != META && e in db.world.exts(h) && e !in db.disk
    ensures META in db.dirties && db.dirties[h].tracked
  {
    MetaCached(db.world, db.View(), db.order, [], multiset{});
    ExternalIsTracked(db.world, db.View(), db.order, h, e);
  }
}
