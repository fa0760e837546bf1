/** The block chain: fork choice by total difficulty, reorganisation from the common
    ancestor, and the two indexes that follow it, block numbers and transactions. Entries of
    the number table above the head are left over from longer chains and mean nothing. */
module BlockChains {
  import opened Wrappers
  import opened HeaderTree
  import opened HeaderChains

  type Tx = nat

  datatype Block = Block(header: Header, txs: seq<Tx>)

  type Bodies = map<Hash, seq<Tx>>

  /** The transactions of some blocks, in the order given. */
  function TxsOf(bodies: Bodies, chain: seq<Hash>): seq<Tx> {
    if |chain| == 0 then []
    else
      var last := chain[|chain| - 1];
      TxsOf(bodies, chain[..|chain| - 1]) + if last in bodies then bodies[last] else []
  }

  predicate HasTx(bodies: Bodies, h: Hash, tx: Tx) {
    h in bodies && tx in bodies[h]
  }

  lemma {:induction false} TxsOfMembers(bodies: Bodies, chain: seq<Hash>, tx: Tx)
    ensures tx in TxsOf(bodies, chain) <==> exists i :: 0 <= i < |chain| && HasTx(bodies, chain[i], tx)
  {
    if |chain| > 0 {
      var front := chain[..|chain| - 1];
      TxsOfMembers(bodies, front, tx);
      assert forall i :: 0 <= i < |front| ==> front[i] == chain[i];
    }
  }

  lemma TxsOfSnoc(bodies: Bodies, chain: seq<Hash>, h: Hash)
    requires h in bodies
    ensures TxsOf(bodies, chain + [h]) == TxsOf(bodies, chain) + bodies[h]
  {
    assert (chain + [h])[..|chain|] == chain;
  }

  /** The chain from h down to, not including, its ancestor at number c; newest first. */
  ghost predicate IsSegment(hs: Headers, genesis: Hash, h: Hash, c: nat, chain: seq<Hash>)
    requires Rooted(hs, genesis) && h in hs && c <= hs[h].number
  {
    |chain| == hs[h].number - c && forall i :: 0 <= i < |chain| ==> chain[i] == AncestorAt(hs, genesis, h, hs[h].number - i)
  }

  ghost predicate OnChain(hs: Headers, genesis: Hash, head: Hash, h: Hash)
    requires Rooted(hs, genesis) && head in hs
  {
    h in hs && hs[h].number <= hs[head].number && h == AncestorAt(hs, genesis, head, hs[h].number)
  }

  /** No transaction is in two blocks of one chain. */
  ghost predicate NoRepeats(hs: Headers, bodies: Bodies, genesis: Hash)
    requires Rooted(hs, genesis)
  {
    forall head: Hash, h: Hash, k: Hash, tx: Tx ::
      (head in hs && OnChain(hs, genesis, head, h) && OnChain(hs, genesis, head, k) && HasTx(bodies, h, tx) && HasTx(bodies, k, tx)) ==>
        h == k
  }

  /** A transaction is looked up exactly to the block of the head's chain that has it. */
  ghost predicate TxIndexed(hs: Headers, bodies: Bodies, genesis: Hash, head: Hash, lookup: map<Tx, Hash>)
    requires Rooted(hs, genesis) && head in hs
  {
    forall tx: Tx, h: Hash :: Lookup(lookup, tx) == Some(h) <==> OnChain(hs, genesis, head, h) && HasTx(bodies, h, tx)
  }

  /** Some block of the chain has the transaction. */
  ghost predicate Holds(bodies: Bodies, chain: seq<Hash>, tx: Tx) {
    exists i :: 0 <= i < |chain| && HasTx(bodies, chain[i], tx)
  }

  /** Lookups once the entries of a chain's blocks have been written over `was`. */
  ghost predicate WrittenFor(bodies: Bodies, chain: seq<Hash>, was: map<Tx, Hash>, now: map<Tx, Hash>) {
    forall tx: Tx ::
      if Holds(bodies, chain, tx) then tx in now && now[tx] in chain && HasTx(bodies, now[tx], tx)
      else Lookup(now, tx) == Lookup(was, tx)
  }

  lemma WrittenMore(bodies: Bodies, chain: seq<Hash>, i: nat, was: map<Tx, Hash>, before: map<Tx, Hash>, now: map<Tx, Hash>)
    requires i < |chain| && WrittenFor(bodies, chain[i + 1..], was, before)
    requires forall tx: Tx :: Lookup(now, tx) == if HasTx(bodies, chain[i], tx) then Some(chain[i]) else Lookup(before, tx)
    ensures WrittenFor(bodies, chain[i..], was, now)
  {
    forall tx: Tx
      ensures if Holds(bodies, chain[i..], tx) then tx in now && now[tx] in chain[i..] && HasTx(bodies, now[tx], tx)
              else Lookup(now, tx) == Lookup(was, tx)
    {
      HoldsMore(bodies, chain, i, tx);
      assert Lookup(now, tx) == if HasTx(bodies, chain[i], tx) then Some(chain[i]) else Lookup(before, tx);
      assert chain[i..] == [chain[i]] + chain[i + 1..];
    }
  }

  lemma HoldsMore(bodies: Bodies, chain: seq<Hash>, i: nat, tx: Tx)
    requires i < |chain|
    ensures Holds(bodies, chain[i..], tx) <==> HasTx(bodies, chain[i], tx) || Holds(bodies, chain[i + 1..], tx)
  {
    var a, b := chain[i..], chain[i + 1..];
    assert a[0] == chain[i];
    assert forall k :: 0 <= k < |b| ==> b[k] == a[k + 1];
    if Holds(bodies, a, tx) {
      var k :| 0 <= k < |a| && HasTx(bodies, a[k], tx);
      if k > 0 {
        assert b[k - 1] == a[k];
      }
    }
  }

  lemma EmptyTxs(bodies: Bodies)
    ensures TxsOf(bodies, []) == []
  {
  }

  // ----- what a reorganisation does to the transaction index -----

  lemma SegmentMembers(hs: Headers, genesis: Hash, head: Hash, c: nat, chain: seq<Hash>, h: Hash)
    requires Rooted(hs, genesis) && head in hs && c <= hs[head].number && IsSegment(hs, genesis, head, c, chain)
    ensures h in chain <==> OnChain(hs, genesis, head, h) && hs[h].number > c
  {
    hide Rooted, AncestorAt;
    if OnChain(hs, genesis, head, h) && hs[h].number > c {
      assert chain[hs[head].number - hs[h].number] == h;
    }
  }

  lemma OnBothChains(hs: Headers, genesis: Hash, oldHead: Hash, newHead: Hash, c: nat, h: Hash)
    requires Rooted(hs, genesis) && oldHead in hs && newHead in hs && c <= hs[oldHead].number && c <= hs[newHead].number
    requires AncestorAt(hs, genesis, oldHead, c) == AncestorAt(hs, genesis, newHead, c)
    requires h in hs && hs[h].number <= c
    ensures OnChain(hs, genesis, oldHead, h) <==> OnChain(hs, genesis, newHead, h)
  {
    hide Rooted, AncestorAt;
    AncestorOfAncestor(hs, genesis, oldHead, c, hs[h].number);
    AncestorOfAncestor(hs, genesis, newHead, c, hs[h].number);
  }

  /** Two chains from a common ancestor, and the lookups before and after. */
  ghost predicate Switched(hs: Headers, bodies: Bodies, genesis: Hash, oldHead: Hash, newHead: Hash, c: nat,
                           oldChain: seq<Hash>, newChain: seq<Hash>, was: map<Tx, Hash>, now: map<Tx, Hash>)
    requires Rooted(hs, genesis) && oldHead in hs && newHead in hs && c <= hs[oldHead].number && c <= hs[newHead].number
  {
    && AncestorAt(hs, genesis, oldHead, c) == AncestorAt(hs, genesis, newHead, c)
    && IsSegment(hs, genesis, oldHead, c, oldChain) && IsSegment(hs, genesis, newHead, c, newChain)
    && forall tx: Tx ::
         if Holds(bodies, newChain, tx) then tx in now && now[tx] in newChain && HasTx(bodies, now[tx], tx)
         else Lookup(now, tx) == if Holds(bodies, oldChain, tx) then None else Lookup(was, tx)
  }

  lemma LookedUpIsOnChain(hs: Headers, bodies: Bodies, genesis: Hash, oldHead: Hash, newHead: Hash, c: nat,
                          oldChain: seq<Hash>, newChain: seq<Hash>, was: map<Tx, Hash>, now: map<Tx, Hash>, tx: Tx, h: Hash)
    requires Rooted(hs, genesis) && oldHead in hs && newHead in hs && c <= hs[oldHead].number && c <= hs[newHead].number
    requires Switched(hs, bodies, genesis, oldHead, newHead, c, oldChain, newChain, was, now)
    requires TxIndexed(hs, bodies, genesis, oldHead, was) && Lookup(now, tx) == Some(h)
    ensures OnChain(hs, genesis, newHead, h) && HasTx(bodies, h, tx)
  {
    hide Rooted, AncestorAt, IsSegment, OnChain;
    SegmentMembers(hs, genesis, newHead, c, newChain, h);
    SegmentMembers(hs, genesis, oldHead, c, oldChain, h);
    if !Holds(bodies, newChain, tx) {
      assert Lookup(was, tx) == Some(h) && HasTx(bodies, h, tx);
      assert h !in oldChain;
      OnChainIsKnown(hs, genesis, oldHead, h);
      OnBothChains(hs, genesis, oldHead, newHead, c, h);
    }
  }

  lemma OnChainIsKnown(hs: Headers, genesis: Hash, head: Hash, h: Hash)
    requires Rooted(hs, genesis) && head in hs && OnChain(hs, genesis, head, h)
    ensures h in hs && hs[h].number <= hs[head].number
  {
  }

  lemma OnChainIsLookedUp(hs: Headers, bodies: Bodies, genesis: Hash, oldHead: Hash, newHead: Hash, c: nat,
                          oldChain: seq<Hash>, newChain: seq<Hash>, was: map<Tx, Hash>, now: map<Tx, Hash>, tx: Tx, h: Hash)
    requires Rooted(hs, genesis) && oldHead in hs && newHead in hs && c <= hs[oldHead].number && c <= hs[newHead].number
    requires Switched(hs, bodies, genesis, oldHead, newHead, c, oldChain, newChain, was, now)
    requires TxIndexed(hs, bodies, genesis, oldHead, was) && NoRepeats(hs, bodies, genesis)
    requires OnChain(hs, genesis, newHead, h) && HasTx(bodies, h, tx)
    ensures Lookup(now, tx) == Some(h)
  {
    hide Rooted, AncestorAt, IsSegment, OnChain;
    OnChainIsKnown(hs, genesis, newHead, h);
    SegmentMembers(hs, genesis, newHead, c, newChain, h);
    if h in newChain {
      var h' := now[tx];
      SegmentMembers(hs, genesis, newHead, c, newChain, h');
    } else {
      OnBothChains(hs, genesis, oldHead, newHead, c, h);
      NotHeldAbove(hs, bodies, genesis, newHead, c, newChain, tx, h);
      NotHeldAbove(hs, bodies, genesis, oldHead, c, oldChain, tx, h);
    }
  }

  lemma NotHeldAbove(hs: Headers, bodies: Bodies, genesis: Hash, head: Hash, c: nat, chain: seq<Hash>, tx: Tx, h: Hash)
    requires Rooted(hs, genesis) && head in hs && c <= hs[head].number && IsSegment(hs, genesis, head, c, chain)
    requires NoRepeats(hs, bodies, genesis) && OnChain(hs, genesis, head, h) && HasTx(bodies, h, tx)
    requires h in hs && hs[h].number <= c
    ensures !Holds(bodies, chain, tx)
  {
    hide Rooted, AncestorAt, IsSegment, OnChain;
    forall i | 0 <= i < |chain|
      ensures !HasTx(bodies, chain[i], tx)
    {
      SegmentMembers(hs, genesis, head, c, chain, chain[i]);
      assert chain[i] in chain;
    }
  }

  lemma SwitchKeepsIndex(hs: Headers, bodies: Bodies, genesis: Hash, oldHead: Hash, newHead: Hash, c: nat,
                         oldChain: seq<Hash>, newChain: seq<Hash>, was: map<Tx, Hash>, now: map<Tx, Hash>)
    requires Rooted(hs, genesis) && oldHead in hs && newHead in hs && c <= hs[oldHead].number && c <= hs[newHead].number
    requires Switched(hs, bodies, genesis, oldHead, newHead, c, oldChain, newChain, was, now)
    requires TxIndexed(hs, bodies, genesis, oldHead, was) && NoRepeats(hs, bodies, genesis)
    ensures TxIndexed(hs, bodies, genesis, newHead, now)
  {
    hide Rooted, AncestorAt, IsSegment, OnChain, Switched, NoRepeats;
    forall tx: Tx, h: Hash
      ensures Lookup(now, tx) == Some(h) <==> OnChain(hs, genesis, newHead, h) && HasTx(bodies, h, tx)
    {
      if Lookup(now, tx) == Some(h) {
        LookedUpIsOnChain(hs, bodies, genesis, oldHead, newHead, c, oldChain, newChain, was, now, tx, h);
      }
      if OnChain(hs, genesis, newHead, h) && HasTx(bodies, h, tx) {
        OnChainIsLookedUp(hs, bodies, genesis, oldHead, newHead, c, oldChain, newChain, was, now, tx, h);
      }
    }
  }

  /** TxDifference: what is in a but not in b, in order. */
  method TxDifference(a: seq<Tx>, b: seq<Tx>) returns (keep: seq<Tx>)
    ensures forall tx: Tx :: tx in keep <==> tx in a && tx !in b
  {
    keep := [];
    var remove: set<Tx> := {};
    for i := 0 to |b|
      invariant forall tx: Tx :: tx in remove <==> tx in b[..i]
    {
      remove := remove + {b[i]};
    }
    assert b[..|b|] == b;
    for i := 0 to |a|
      invariant forall tx: Tx :: tx in keep <==> tx in a[..i] && tx !in b
    {
      if a[i] !in remove {
        keep := keep + [a[i]];
      }
    }
    assert a[..|a|] == a;
  }

  /** Nothing is left over above a number. */
  predicate EndsAtOrBelow(canonical: map<nat, Hash>, number: nat) {
    forall k: nat :: k in canonical ==> k <= number
  }

  lemma SameAbove(was: map<nat, Hash>, now: map<nat, Hash>, number: nat)
    requires forall k: nat :: k > number ==> Lookup(now, k) == Lookup(was, k)
    ensures EndsAtOrBelow(now, number) <==> EndsAtOrBelow(was, number)
  {
    assert forall k: nat :: k > number ==> (k in now <==> Lookup(now, k).Some?) && (k in was <==> Lookup(was, k).Some?);
  }

  class BlockChain {
    const genesis: Hash
    var headers: Headers
    var bodies: Bodies
    var tds: map<Hash, nat>
    var canonical: map<nat, Hash>
    var current: Hash
    var currentHeader: Hash
    var txLookup: map<Tx, Hash>

    ghost predicate Stored()
      reads this
    {
      Rooted(headers, genesis) && Weighed(headers, tds, genesis) && bodies.Keys == headers.Keys && current in headers
    }

    ghost predicate Valid()
      reads this
    {
      && Stored()
      && Lists(canonical, headers, genesis, current)
      && (forall h :: h in headers ==> tds[h] <= tds[current])
      && (NoRepeats(headers, bodies, genesis) ==> TxIndexed(headers, bodies, genesis, current, txLookup))
    }

    constructor (block: Block)
      requires block.header.number == 0
      ensures Valid() && genesis == block.header.hash && current == genesis
      ensures headers == map[genesis := block.header] && bodies == map[genesis := block.txs]
      ensures tds == map[genesis := block.header.difficulty] && canonical == map[0 := genesis]
    {
      var h := block.header.hash;
      genesis, current, currentHeader := h, h, h;
      headers, bodies, tds := map[h := block.header], map[h := block.txs], map[h := block.header.difficulty];
      canonical := map[0 := h];
      txLookup := map tx | tx in block.txs :: h;
      new;
      AncestorOfSelf(headers, genesis, current);
      forall tx: Tx, k: Hash
        ensures Lookup(txLookup, tx) == Some(k) <==> OnChain(headers, genesis, current, k) && HasTx(bodies, k, tx)
      {
      }
    }

    /** insert: the block becomes the entry for its number and the head; the header head
        follows unless the block was canonical already. */
    method Insert(hash: Hash)
      requires hash in headers
      modifies `canonical, `current, `currentHeader
      ensures canonical == old(canonical)[headers[hash].number := hash] && current == hash
      ensures currentHeader == if Lookup(old(canonical), headers[hash].number) == Some(hash) then old(currentHeader) else hash
    {
      var number := headers[hash].number;
      var updateHeads := number !in canonical || canonical[number] != hash;
      canonical := canonical[number := hash];
      current := hash;
      if updateHeads {
        currentHeader := hash;
      }
    }

    method WriteTxLookupEntries(hash: Hash)
      requires hash in bodies
      modifies `txLookup
      ensures forall tx: Tx :: Lookup(txLookup, tx) == if HasTx(bodies, hash, tx) then Some(hash) else Lookup(old(txLookup), tx)
    {
      var txs := bodies[hash];
      for i := 0 to |txs|
        invariant forall tx: Tx :: Lookup(txLookup, tx) == if tx in txs[..i] then Some(hash) else Lookup(old(txLookup), tx)
      {
        assert txs[..i + 1] == txs[..i] + [txs[i]];
        txLookup := txLookup[txs[i] := hash];
      }
      assert txs[..|txs|] == txs;
    }

    // ----- reorganisation -----

    /** The first half of reorg: both chains down to the lowest common ancestor. */
    method FindCommon(oldHead: Hash, newHead: Hash)
      returns (oldChain: seq<Hash>, newChain: seq<Hash>, deletedTxs: seq<Tx>, ghost c: nat)
      requires Stored() && oldHead in headers && newHead in headers
      ensures c <= headers[oldHead].number && c <= headers[newHead].number
      ensures AncestorAt(headers, genesis, oldHead, c) == AncestorAt(headers, genesis, newHead, c)
      ensures forall k: nat :: c < k <= headers[oldHead].number && k <= headers[newHead].number ==>
        AncestorAt(headers, genesis, oldHead, k) != AncestorAt(headers, genesis, newHead, k)
      ensures IsSegment(headers, genesis, oldHead, c, oldChain) && IsSegment(headers, genesis, newHead, c, newChain)
      ensures deletedTxs == TxsOf(bodies, oldChain)
    {
      hide Rooted, AncestorAt, Weighed, TxsOf;
      oldChain, newChain, deletedTxs := [], [], [];
      EmptyTxs(bodies);
      var oldBlock, newBlock := oldHead, newHead;
      AncestorOfSelf(headers, genesis, oldHead);
      AncestorOfSelf(headers, genesis, newHead);
      if headers[oldBlock].number > headers[newBlock].number {
        while headers[oldBlock].number != headers[newBlock].number
          invariant Down(oldHead, oldBlock, oldChain) && headers[oldBlock].number >= headers[newHead].number
          invariant deletedTxs == TxsOf(bodies, oldChain)
          decreases headers[oldBlock].number
        {
          StepDown(oldHead, oldBlock, oldChain);
          TxsOfSnoc(bodies, oldChain, oldBlock);
          oldChain := oldChain + [oldBlock];
          deletedTxs := deletedTxs + bodies[oldBlock];
          oldBlock := headers[oldBlock].parentHash;
        }
      } else {
        while headers[newBlock].number != headers[oldBlock].number
          invariant Down(newHead, newBlock, newChain) && headers[newBlock].number >= headers[oldHead].number
          decreases headers[newBlock].number
        {
          StepDown(newHead, newBlock, newChain);
          newChain := newChain + [newBlock];
          newBlock := headers[newBlock].parentHash;
        }
      }
      while oldBlock != newBlock
        invariant Down(oldHead, oldBlock, oldChain) && Down(newHead, newBlock, newChain)
        invariant headers[oldBlock].number == headers[newBlock].number
        invariant deletedTxs == TxsOf(bodies, oldChain)
        invariant forall k: nat :: headers[oldBlock].number < k <= headers[oldHead].number && k <= headers[newHead].number ==>
          AncestorAt(headers, genesis, oldHead, k) != AncestorAt(headers, genesis, newHead, k)
        decreases headers[oldBlock].number
      {
        NotBothGenesis(oldBlock, newBlock);
        StepDown(oldHead, oldBlock, oldChain);
        StepDown(newHead, newBlock, newChain);
        TxsOfSnoc(bodies, oldChain, oldBlock);
        oldChain := oldChain + [oldBlock];
        deletedTxs := deletedTxs + bodies[oldBlock];
        newChain := newChain + [newBlock];
        oldBlock := headers[oldBlock].parentHash;
        newBlock := headers[newBlock].parentHash;
      }
      c := headers[oldBlock].number;
    }

    /** at is the ancestor of top that the chain collected so far stops above. */
    ghost predicate Down(top: Hash, at: Hash, chain: seq<Hash>)
      requires Rooted(headers, genesis) && top in headers
      reads this
    {
      && at in headers && headers[at].number <= headers[top].number
      && at == AncestorAt(headers, genesis, top, headers[at].number)
      && IsSegment(headers, genesis, top, headers[at].number, chain)
    }

    lemma StepDown(top: Hash, at: Hash, chain: seq<Hash>)
      requires Rooted(headers, genesis) && top in headers && Down(top, at, chain) && headers[at].number > 0
      ensures HasParent(headers, at) && Down(top, headers[at].parentHash, chain + [at])
    {
      hide Rooted, AncestorAt;
      ParentIsAncestor(headers, genesis, at);
      AncestorOfAncestor(headers, genesis, top, headers[at].number, headers[at].number - 1);
    }

    lemma NotBothGenesis(a: Hash, b: Hash)
      requires Rooted(headers, genesis) && a in headers && b in headers && a != b
      requires headers[a].number == headers[b].number
      ensures headers[a].number > 0
    {
      if headers[a].number == 0 {
        AncestorOfSelf(headers, genesis, a);
        AncestorOfSelf(headers, genesis, b);
      }
    }

    /** The second half of reorg: the new chain is inserted oldest first. */
    method InsertAll(newHead: Hash, newChain: seq<Hash>, ghost c: nat) returns (addedTxs: seq<Tx>)
      requires Stored() && newHead in headers && c <= headers[newHead].number
      requires IsSegment(headers, genesis, newHead, c, newChain)
      modifies `canonical, `current, `currentHeader, `txLookup
      ensures Stored()
      ensures forall k: nat ::
        Lookup(canonical, k) == if c < k <= headers[newHead].number then Some(AncestorAt(headers, genesis, newHead, k)) else old(Lookup(canonical, k))
      ensures WrittenFor(bodies, newChain, old(txLookup), txLookup)
      ensures forall tx: Tx :: tx in addedTxs <==> Holds(bodies, newChain, tx)
    {
      hide Rooted, AncestorAt, Weighed, WrittenFor, Holds;
      addedTxs := [];
      ghost var was, numbers, top := txLookup, canonical, headers[newHead].number;
      assert newChain[|newChain|..] == [];
      NothingWritten(bodies, was);
      for i := |newChain| downto 0
        invariant Stored()
        invariant forall k: nat ::
          Lookup(canonical, k) == if c < k <= top - i then Some(AncestorAt(headers, genesis, newHead, k)) else Lookup(numbers, k)
        invariant WrittenFor(bodies, newChain[i..], was, txLookup)
        invariant forall tx: Tx :: tx in addedTxs <==> Holds(bodies, newChain[i..], tx)
      {
        var h := newChain[i];
        ghost var before := txLookup;
        Insert(h);
        WriteTxLookupEntries(h);
        addedTxs := addedTxs + bodies[h];
        WrittenMore(bodies, newChain, i, was, before, txLookup);
        forall tx: Tx {
          HoldsMore(bodies, newChain, i, tx);
        }
      }
      assert newChain[0..] == newChain;
    }

    /** reorg: the chain of the new head replaces that of the old one above their lowest
        common ancestor; transactions only the old one had are no longer looked up. */
    method Reorg(oldHead: Hash, newHead: Hash)
      requires Stored() && oldHead in headers && newHead in headers
      requires Lists(canonical, headers, genesis, oldHead)
      modifies `canonical, `current, `currentHeader, `txLookup
      ensures Stored() && Lists(canonical, headers, genesis, newHead)
      ensures forall k: nat :: k > headers[newHead].number ==> Lookup(canonical, k) == old(Lookup(canonical, k))
      ensures EndsAtOrBelow(canonical, headers[newHead].number) <==> EndsAtOrBelow(old(canonical), headers[newHead].number)
      ensures NoRepeats(headers, bodies, genesis) && TxIndexed(headers, bodies, genesis, oldHead, old(txLookup)) ==>
        TxIndexed(headers, bodies, genesis, newHead, txLookup)
    {
      hide Rooted, AncestorAt, Weighed, TxsOf, NoRepeats, TxIndexed, WrittenFor, Lists, Holds;
      var oldChain, newChain, deletedTxs, addedTxs;
      ghost var c;
      oldChain, newChain, deletedTxs, c := FindCommon(oldHead, newHead);
      ghost var was, numbers := txLookup, canonical;
      addedTxs := InsertAll(newHead, newChain, c);
      ghost var written := txLookup;
      forall tx: Tx {
        TxsHeld(bodies, oldChain, tx);
      }
      DropLookups(deletedTxs, addedTxs);
      ListsSwitched(headers, genesis, oldHead, newHead, c, numbers, canonical);
      SameAbove(numbers, canonical, headers[newHead].number);
      SwitchedFrom(headers, bodies, genesis, oldHead, newHead, c, oldChain, newChain, was, written, txLookup);
      if NoRepeats(headers, bodies, genesis) && TxIndexed(headers, bodies, genesis, oldHead, was) {
        SwitchKeepsIndex(headers, bodies, genesis, oldHead, newHead, c, oldChain, newChain, was, txLookup);
      }
    }

    /** Deleted transactions that were not added back are not looked up any more. */
    method DropLookups(deletedTxs: seq<Tx>, addedTxs: seq<Tx>)
      modifies `txLookup
      ensures forall tx: Tx :: Lookup(txLookup, tx) == if tx in deletedTxs && tx !in addedTxs then None else Lookup(old(txLookup), tx)
    {
      var gone := TxDifference(deletedTxs, addedTxs);
      for i := 0 to |gone|
        invariant forall tx: Tx :: Lookup(txLookup, tx) == if tx in gone[..i] then None else Lookup(old(txLookup), tx)
      {
        assert gone[..i + 1] == gone[..i] + [gone[i]];
        txLookup := txLookup - {gone[i]};
      }
      assert gone[..|gone|] == gone;
    }

    // ----- fork choice -----

    /** writeBlockWithState, without the state. Of two chains the heavier wins, of two equally
        heavy the shorter; of two equally long the current one if it is to be preserved, else
        the new one if it is, else the coin decides. */
    method WriteBlock(block: Block, currentPreserve: bool, blockPreserve: bool, coin: bool) returns (status: Status)
      requires Valid()
      requires block.header.parentHash in headers ==> headers[block.header.parentHash].number + 1 == block.header.number
      requires block.header.hash in headers ==> headers[block.header.hash] == block.header && bodies[block.header.hash] == block.txs
      modifies this
      ensures Valid()
      ensures status == UnknownAncestor <==> block.header.parentHash !in old(headers)
      ensures status == UnknownAncestor ==> headers == old(headers) && canonical == old(canonical) && current == old(current)
      ensures status != UnknownAncestor ==>
        var h, td := block.header, old(tds)[block.header.parentHash] + block.header.difficulty;
        && headers == old(headers)[h.hash := h] && bodies == old(bodies)[h.hash := block.txs] && tds == old(tds)[h.hash := td]
        && var localTd, localNumber := old(tds)[old(current)], old(headers)[old(current)].number;
        && (td > localTd ==> status == Canonical)
        && (td < localTd ==> status == Side)
        && (td == localTd && h.number < localNumber ==> status == Canonical)
        && (td == localTd && h.number > localNumber ==> status == Side)
        && (td == localTd && h.number == localNumber ==>
              && (currentPreserve ==> status == Side)
              && (!currentPreserve && blockPreserve ==> status == Canonical)
              && (!currentPreserve && !blockPreserve ==> (status == Canonical <==> coin)))
        && (status == Canonical || status == Side)
        && current == (if status == Canonical then h.hash else old(current))
        && (status == Side ==> canonical == old(canonical))
        && (forall k: nat :: k > h.number ==> Lookup(canonical, k) == old(Lookup(canonical, k)))
      ensures tds[current] >= old(tds)[old(current)]
    {
      hide Rooted, AncestorAt, Weighed, NoRepeats, TxIndexed, Lists;
      WeighedKnown(headers, tds, genesis);
      if block.header.parentHash !in tds {
        return UnknownAncestor;
      }
      var hash, head := block.header.hash, current;
      ghost var oldHeaders, oldBodies := headers, bodies;
      var localTd := tds[head];
      var externTd := block.header.difficulty + tds[block.header.parentHash];
      Store(block, externTd);
      var reorg := externTd > localTd;
      if !reorg && externTd == localTd {
        if block.header.number < headers[head].number {
          reorg := true;
        } else if block.header.number == headers[head].number {
          reorg := !currentPreserve && (blockPreserve || coin);
        }
      }
      if reorg {
        MakeHead(hash, head);
        status := Canonical;
      } else {
        status := Side;
      }
    }

    /** The block and its difficulty enter the database; the head stays. */
    method Store(block: Block, externTd: nat)
      requires Valid() && block.header.parentHash in headers && headers[block.header.parentHash].number + 1 == block.header.number
      requires block.header.hash in headers ==> headers[block.header.hash] == block.header && bodies[block.header.hash] == block.txs
      requires block.header.parentHash in tds && externTd == block.header.difficulty + tds[block.header.parentHash]
      modifies `headers, `bodies, `tds
      ensures Stored() && Lists(canonical, headers, genesis, current)
      ensures headers == old(headers)[block.header.hash := block.header] && bodies == old(bodies)[block.header.hash := block.txs]
      ensures tds == old(tds)[block.header.hash := externTd] && forall h :: h in old(tds) ==> tds[h] == old(tds)[h]
      ensures NoRepeats(headers, bodies, genesis) ==> TxIndexed(headers, bodies, genesis, current, txLookup)
    {
      hide Rooted, AncestorAt, Weighed, NoRepeats, TxIndexed, Lists;
      var x := block.header;
      Grows(headers, genesis, x);
      GrowsWeighed(headers, tds, genesis, x);
      WeighedKnown(headers, tds, genesis);
      ListsGrown(canonical, headers, headers[x.hash := x], genesis, current);
      IndexGrown(headers, bodies, headers[x.hash := x], bodies[x.hash := block.txs], genesis, current, txLookup);
      tds := tds[x.hash := externTd];
      headers := headers[x.hash := x];
      bodies := bodies[x.hash := block.txs];
    }

    /** The stored block becomes the head. */
    method MakeHead(hash: Hash, head: Hash)
      requires Stored() && hash in headers && head in headers && headers[hash].number > 0
      requires Lists(canonical, headers, genesis, head)
      requires NoRepeats(headers, bodies, genesis) ==> TxIndexed(headers, bodies, genesis, head, txLookup)
      modifies `canonical, `current, `currentHeader, `txLookup
      ensures Stored() && current == hash && Lists(canonical, headers, genesis, current)
      ensures forall k: nat :: k > headers[hash].number ==> Lookup(canonical, k) == old(Lookup(canonical, k))
      ensures NoRepeats(headers, bodies, genesis) ==> TxIndexed(headers, bodies, genesis, current, txLookup)
    {
      hide Rooted, AncestorAt, Weighed, NoRepeats, TxIndexed, Lists, WrittenFor, Holds;
      if headers[hash].parentHash != head {
        Reorg(head, hash);
        ghost var lookup := txLookup;
        WriteTxLookupEntries(hash);
        RewriteKeepsIndex(headers, bodies, genesis, hash, lookup, txLookup);
      } else {
        ghost var lookup := txLookup;
        WriteTxLookupEntries(hash);
        ExtensionSwitches(headers, bodies, genesis, head, hash, lookup, txLookup);
        if NoRepeats(headers, bodies, genesis) {
          SwitchKeepsIndex(headers, bodies, genesis, head, hash, headers[head].number, [], [hash], lookup, txLookup);
        }
      }
      ListsInserted(headers, genesis, head, hash, canonical);
      Insert(hash);
    }
  }

  /** A heavier but shorter chain takes over, and the table goes on past its head. */
  method ReorgLeavesEntry() returns (chain: BlockChain)
    ensures fresh(chain) && chain.Valid() && chain.current in chain.headers
    ensures chain.headers[chain.current].number == 1 && 2 in chain.canonical
    ensures !EndsAtOrBelow(chain.canonical, chain.headers[chain.current].number)
  {
    hide BlockChain.Valid, BlockChain.Stored;
    chain := new BlockChain(Block(Header(100, 0, 0, 1), []));
    var first := chain.WriteBlock(Block(Header(101, 100, 1, 1), []), false, false, false);
    var second := chain.WriteBlock(Block(Header(102, 101, 2, 1), []), false, false, false);
    assert chain.current == 102;
    HeadIsListed(chain);
    var rival := chain.WriteBlock(Block(Header(201, 100, 1, 9), []), false, false, false);
    assert chain.current == 201;
    assert Lookup(chain.canonical, 2) == Some(102);
  }

  lemma HeadIsListed(chain: BlockChain)
    requires chain.Valid()
    ensures chain.current in chain.headers && Lookup(chain.canonical, chain.headers[chain.current].number) == Some(chain.current)
  {
    AncestorOfSelf(chain.headers, chain.genesis, chain.current);
  }

  lemma NothingWritten(bodies: Bodies, was: map<Tx, Hash>)
    ensures WrittenFor(bodies, [], was, was)
    ensures forall tx: Tx :: !Holds(bodies, [], tx)
  {
  }

  lemma TxsHeld(bodies: Bodies, chain: seq<Hash>, tx: Tx)
    ensures tx in TxsOf(bodies, chain) <==> Holds(bodies, chain, tx)
  {
    TxsOfMembers(bodies, chain, tx);
  }

  lemma SwitchedFrom(hs: Headers, bodies: Bodies, genesis: Hash, oldHead: Hash, newHead: Hash, c: nat,
                     oldChain: seq<Hash>, newChain: seq<Hash>, was: map<Tx, Hash>, written: map<Tx, Hash>, now: map<Tx, Hash>)
    requires Rooted(hs, genesis) && oldHead in hs && newHead in hs && c <= hs[oldHead].number && c <= hs[newHead].number
    requires AncestorAt(hs, genesis, oldHead, c) == AncestorAt(hs, genesis, newHead, c)
    requires IsSegment(hs, genesis, oldHead, c, oldChain) && IsSegment(hs, genesis, newHead, c, newChain)
    requires WrittenFor(bodies, newChain, was, written)
    requires forall tx: Tx ::
      Lookup(now, tx) == if Holds(bodies, oldChain, tx) && !Holds(bodies, newChain, tx) then None else Lookup(written, tx)
    ensures Switched(hs, bodies, genesis, oldHead, newHead, c, oldChain, newChain, was, now)
  {
    hide Rooted, AncestorAt, IsSegment, Holds;
    forall tx: Tx
      ensures if Holds(bodies, newChain, tx) then tx in now && now[tx] in newChain && HasTx(bodies, now[tx], tx)
              else Lookup(now, tx) == if Holds(bodies, oldChain, tx) then None else Lookup(was, tx)
    {
      assert Lookup(now, tx) == if Holds(bodies, oldChain, tx) && !Holds(bodies, newChain, tx) then None else Lookup(written, tx);
    }
  }

  /** Below the common ancestor both chains are one. */
  lemma ListsSwitched(hs: Headers, genesis: Hash, oldHead: Hash, newHead: Hash, c: nat, was: map<nat, Hash>, now: map<nat, Hash>)
    requires Rooted(hs, genesis) && oldHead in hs && newHead in hs && c <= hs[oldHead].number && c <= hs[newHead].number
    requires AncestorAt(hs, genesis, oldHead, c) == AncestorAt(hs, genesis, newHead, c)
    requires Lists(was, hs, genesis, oldHead)
    requires forall k: nat ::
      Lookup(now, k) == if c < k <= hs[newHead].number then Some(AncestorAt(hs, genesis, newHead, k)) else Lookup(was, k)
    ensures Lists(now, hs, genesis, newHead)
  {
    hide Rooted, AncestorAt;
    forall k: nat | k <= hs[newHead].number
      ensures k in now && now[k] == AncestorAt(hs, genesis, newHead, k)
    {
      assert Lookup(now, k) == if c < k <= hs[newHead].number then Some(AncestorAt(hs, genesis, newHead, k)) else Lookup(was, k);
      if k <= c {
        AncestorOfAncestor(hs, genesis, oldHead, c, k);
        AncestorOfAncestor(hs, genesis, newHead, c, k);
      }
    }
  }

  /** Entering the head itself: on top of its parent's chain, or again. */
  lemma ListsInserted(hs: Headers, genesis: Hash, head: Hash, hash: Hash, canonical: map<nat, Hash>)
    requires Rooted(hs, genesis) && head in hs && hash in hs && hs[hash].number > 0
    requires Lists(canonical, hs, genesis, if hs[hash].parentHash == head then head else hash)
    ensures Lists(canonical[hs[hash].number := hash], hs, genesis, hash)
  {
    hide Rooted, AncestorAt;
    AncestorOfSelf(hs, genesis, hash);
    ParentIsAncestor(hs, genesis, hash);
    if hs[hash].parentHash == head {
      forall k: nat | k < hs[hash].number
        ensures AncestorAt(hs, genesis, head, k) == AncestorAt(hs, genesis, hash, k)
      {
        AncestorOfAncestor(hs, genesis, hash, hs[hash].number - 1, k);
      }
    }
  }

  /** A side block changes nothing for the head's chain. */
  lemma IndexGrown(hs: Headers, bodies: Bodies, hs': Headers, bodies': Bodies, genesis: Hash, head: Hash, lookup: map<Tx, Hash>)
    requires Rooted(hs, genesis) && Rooted(hs', genesis) && head in hs && hs.Keys == bodies.Keys
    requires forall h :: h in hs ==> h in hs' && hs'[h] == hs[h]
    requires forall h :: h in bodies ==> h in bodies' && bodies'[h] == bodies[h]
    requires NoRepeats(hs, bodies, genesis) ==> TxIndexed(hs, bodies, genesis, head, lookup)
    ensures NoRepeats(hs', bodies', genesis) ==> TxIndexed(hs', bodies', genesis, head, lookup)
  {
    hide Rooted, AncestorAt, OnChain;
    forall top: Hash, h: Hash | top in hs
      ensures OnChain(hs', genesis, top, h) <==> OnChain(hs, genesis, top, h)
      ensures OnChain(hs, genesis, top, h) ==> h in hs
    {
      OnChainGrown(hs, hs', genesis, top, h);
    }
    if NoRepeats(hs', bodies', genesis) {
      forall top: Hash, h: Hash, k: Hash, tx: Tx |
        top in hs && OnChain(hs, genesis, top, h) && OnChain(hs, genesis, top, k) && HasTx(bodies, h, tx) && HasTx(bodies, k, tx)
        ensures h == k
      {
        assert OnChain(hs', genesis, top, h) && OnChain(hs', genesis, top, k) && HasTx(bodies', h, tx) && HasTx(bodies', k, tx);
      }
      assert TxIndexed(hs, bodies, genesis, head, lookup);
      forall tx: Tx, h: Hash
        ensures Lookup(lookup, tx) == Some(h) <==> OnChain(hs', genesis, head, h) && HasTx(bodies', h, tx)
      {
        assert OnChain(hs, genesis, head, h) ==> (HasTx(bodies', h, tx) <==> HasTx(bodies, h, tx));
      }
    }
  }

  lemma OnChainGrown(hs: Headers, hs': Headers, genesis: Hash, top: Hash, h: Hash)
    requires Rooted(hs, genesis) && Rooted(hs', genesis) && top in hs
    requires forall h :: h in hs ==> h in hs' && hs'[h] == hs[h]
    ensures OnChain(hs', genesis, top, h) <==> OnChain(hs, genesis, top, h)
    ensures OnChain(hs, genesis, top, h) ==> h in hs
  {
    hide Rooted, AncestorAt;
    if h in hs' && hs'[h].number <= hs[top].number {
      GrownAncestor(hs, hs', genesis, top, hs'[h].number);
    }
  }

  /** Writing the head's entries once more changes no lookup. */
  lemma RewriteKeepsIndex(hs: Headers, bodies: Bodies, genesis: Hash, head: Hash, was: map<Tx, Hash>, now: map<Tx, Hash>)
    requires Rooted(hs, genesis) && head in hs
    requires forall tx: Tx :: Lookup(now, tx) == if HasTx(bodies, head, tx) then Some(head) else Lookup(was, tx)
    ensures TxIndexed(hs, bodies, genesis, head, was) ==> TxIndexed(hs, bodies, genesis, head, now)
  {
    hide Rooted, AncestorAt, OnChain;
    HeadIsOnChain(hs, genesis, head);
    if TxIndexed(hs, bodies, genesis, head, was) {
      forall tx: Tx
        ensures Lookup(now, tx) == Lookup(was, tx)
      {
        assert Lookup(was, tx) == Some(head) <==> OnChain(hs, genesis, head, head) && HasTx(bodies, head, tx);
      }
    }
  }

  lemma HeadIsOnChain(hs: Headers, genesis: Hash, head: Hash)
    requires Rooted(hs, genesis) && head in hs
    ensures OnChain(hs, genesis, head, head)
  {
    AncestorOfSelf(hs, genesis, head);
  }

  /** A child of the head extends its chain by one block. */
  lemma ExtensionSwitches(hs: Headers, bodies: Bodies, genesis: Hash, head: Hash, hash: Hash, was: map<Tx, Hash>, now: map<Tx, Hash>)
    requires Rooted(hs, genesis) && head in hs && hash in hs && hs[hash].number > 0 && hs[hash].parentHash == head
    requires forall tx: Tx :: Lookup(now, tx) == if HasTx(bodies, hash, tx) then Some(hash) else Lookup(was, tx)
    ensures hs[head].number <= hs[hash].number
    ensures Switched(hs, bodies, genesis, head, hash, hs[head].number, [], [hash], was, now)
  {
    hide Rooted, AncestorAt;
    ParentIsAncestor(hs, genesis, hash);
    AncestorOfSelf(hs, genesis, head);
    AncestorOfSelf(hs, genesis, hash);
    forall tx: Tx
      ensures Holds(bodies, [hash], tx) <==> HasTx(bodies, hash, tx)
      ensures !Holds(bodies, [], tx)
      ensures Lookup(now, tx) == if HasTx(bodies, hash, tx) then Some(hash) else Lookup(was, tx)
    {
      assert [hash][0] == hash;
    }
  }
}
