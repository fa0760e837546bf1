/** The tree of known headers: ancestors, total difficulties, and what it means for the
    number-to-hash table to list a chain. */
module HeaderTree {
  type Hash = nat

  datatype Header = Header(hash: Hash, parentHash: Hash, number: nat, difficulty: nat)

  type Headers = map<Hash, Header>

  /** Every known header but genesis has its parent known, one number below. */
  ghost predicate Rooted(hs: Headers, genesis: Hash) {
    && genesis in hs && hs[genesis].number == 0
    && forall h :: h in hs ==> hs[h].hash == h && (h == genesis || HasParent(hs, h))
  }

  predicate HasParent(hs: Headers, h: Hash) {
    h in hs && hs[h].number > 0 && hs[h].parentHash in hs && hs[hs[h].parentHash].number + 1 == hs[h].number
  }

  /** Total difficulties add up along parent links. */
  ghost predicate Weighed(hs: Headers, tds: map<Hash, nat>, genesis: Hash) {
    && tds.Keys == hs.Keys
    && forall h :: h in hs && h != genesis && hs[h].parentHash in hs ==> tds[h] == tds[hs[h].parentHash] + hs[h].difficulty
  }

  /** The ancestor of h at number n. */
  ghost function AncestorAt(hs: Headers, genesis: Hash, h: Hash, n: nat): (r: Hash)
    requires Rooted(hs, genesis) && h in hs && n <= hs[h].number
    ensures r in hs && hs[r].number == n
    decreases hs[h].number
  {
    if n == hs[h].number then h else AncestorAt(hs, genesis, hs[h].parentHash, n)
  }

  /** The table lists exactly the chain that ends in head, up to number n. */
  ghost predicate Lists(canonical: map<nat, Hash>, hs: Headers, genesis: Hash, head: Hash)
    requires Rooted(hs, genesis) && head in hs
  {
    forall k: nat :: k <= hs[head].number ==> k in canonical && canonical[k] == AncestorAt(hs, genesis, head, k)
  }

  lemma AncestorOfSelf(hs: Headers, genesis: Hash, h: Hash)
    requires Rooted(hs, genesis) && h in hs
    ensures AncestorAt(hs, genesis, h, hs[h].number) == h
    ensures AncestorAt(hs, genesis, h, 0) == genesis
  {
    var z := AncestorAt(hs, genesis, h, 0);
    assert z == genesis || HasParent(hs, z);
  }

  /** An ancestor's ancestors are one's own. */
  lemma {:induction false} AncestorOfAncestor(hs: Headers, genesis: Hash, h: Hash, m: nat, n: nat)
    requires Rooted(hs, genesis) && h in hs && n <= m <= hs[h].number
    ensures AncestorAt(hs, genesis, AncestorAt(hs, genesis, h, m), n) == AncestorAt(hs, genesis, h, n)
    decreases hs[h].number
  {
    if m < hs[h].number {
      AncestorOfAncestor(hs, genesis, hs[h].parentHash, m, n);
    }
  }

  lemma ParentIsAncestor(hs: Headers, genesis: Hash, h: Hash)
    requires Rooted(hs, genesis) && h in hs && hs[h].number > 0
    ensures HasParent(hs, h) && hs[h].parentHash == AncestorAt(hs, genesis, h, hs[h].number - 1)
  {
    assert h != genesis;
  }

  /** A new header with a known parent keeps the tree, and everybody's ancestors. */
  lemma Grows(hs: Headers, genesis: Hash, x: Header)
    requires Rooted(hs, genesis) && x.parentHash in hs && hs[x.parentHash].number + 1 == x.number
    requires x.hash in hs ==> hs[x.hash] == x
    ensures Rooted(hs[x.hash := x], genesis)
    ensures forall h, n: nat :: h in hs && n <= hs[h].number ==> AncestorAt(hs[x.hash := x], genesis, h, n) == AncestorAt(hs, genesis, h, n)
  {
    var hs' := hs[x.hash := x];
    forall h | h in hs'
      ensures hs'[h].hash == h && (h == genesis || HasParent(hs', h))
    {
      if h in hs && h != genesis {
        assert HasParent(hs, h);
      }
    }
    forall h, n: nat | h in hs && n <= hs[h].number
      ensures AncestorAt(hs', genesis, h, n) == AncestorAt(hs, genesis, h, n)
    {
      GrownAncestor(hs, hs', genesis, h, n);
    }
  }

  lemma {:induction false} GrownAncestor(hs: Headers, hs': Headers, genesis: Hash, h: Hash, n: nat)
    requires Rooted(hs, genesis) && Rooted(hs', genesis) && h in hs && n <= hs[h].number
    requires forall k :: k in hs ==> k in hs' && hs'[k] == hs[k]
    ensures AncestorAt(hs', genesis, h, n) == AncestorAt(hs, genesis, h, n)
    decreases hs[h].number
  {
    if n < hs[h].number {
      assert HasParent(hs, h);
      GrownAncestor(hs, hs', genesis, hs[h].parentHash, n);
    }
  }

  lemma GrowsWeighed(hs: Headers, tds: map<Hash, nat>, genesis: Hash, x: Header)
    requires Rooted(hs, genesis) && Weighed(hs, tds, genesis)
    requires x.parentHash in hs && hs[x.parentHash].number + 1 == x.number
    requires x.hash in hs ==> hs[x.hash] == x
    ensures Weighed(hs[x.hash := x], tds[x.hash := tds[x.parentHash] + x.difficulty], genesis)
    ensures forall h :: h in hs ==> tds[x.hash := tds[x.parentHash] + x.difficulty][h] == tds[h]
  {
    var hs', tds' := hs[x.hash := x], tds[x.hash := tds[x.parentHash] + x.difficulty];
    assert x.hash in hs ==> x.hash != genesis && tds[x.hash] == tds[x.parentHash] + x.difficulty;
    forall h | h in hs' && h != genesis && hs'[h].parentHash in hs'
      ensures tds'[h] == tds'[hs'[h].parentHash] + hs'[h].difficulty
    {
      if h in hs {
        assert HasParent(hs, h);
      }
    }
  }
}
