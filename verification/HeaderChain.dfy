/** The header chain: the heaviest known header is the head, and the number-to-hash table
    lists its ancestors. */
module HeaderChains {
  import opened Wrappers
  import opened HeaderTree

  datatype Status = Canonical | Side | UnknownAncestor

  /** No entry above the head. */
  predicate EndsAt(canonical: map<nat, Hash>, top: nat) {
    forall k: nat :: k in canonical ==> k <= top
  }

  predicate OnTable(hs: Headers, canonical: map<nat, Hash>, h: Hash) {
    h in hs && hs[h].number in canonical && canonical[hs[h].number] == h
  }

  /** What a cut of the canonical chain above a number asks of a header that stays: its
      parent is not cut off, and it is not heavier than the new head. */
  predicate Outlives(hs: Headers, tds: map<Hash, nat>, canonical: map<nat, Hash>, genesis: Hash, cut: Hash, head: nat, h: Hash) {
    && h in hs && (h != genesis ==> !(OnTable(hs, canonical, hs[h].parentHash) && hs[hs[h].parentHash].number > head))
    && h in tds && cut in tds && tds[h] <= tds[cut]
  }

  /** The table lists exactly the head's chain, and no known header is heavier. */
  ghost predicate Whole(hs: Headers, tds: map<Hash, nat>, canonical: map<nat, Hash>, genesis: Hash, head: Hash) {
    && Rooted(hs, genesis) && head in hs
    && Lists(canonical, hs, genesis, head) && EndsAt(canonical, hs[head].number)
    && Weighed(hs, tds, genesis)
    && forall h :: h in hs ==> tds[h] <= tds[head]
  }

  /** When the chain is still whole after a cut: exactly if every header that stays outlives
      it. */
  lemma CutTree(hs: Headers, hs': Headers, tds: map<Hash, nat>, tds': map<Hash, nat>, canonical: map<nat, Hash>,
                canonical': map<nat, Hash>, genesis: Hash, top: Hash, cut: Hash, head: nat)
    requires Whole(hs, tds, canonical, genesis, top)
    requires var n := if head < hs[top].number then head else hs[top].number;
             cut == AncestorAt(hs, genesis, top, n) && forall k: nat :: k in canonical' <==> k <= n
    requires forall h :: h in hs' <==> h in hs && !(OnTable(hs, canonical, h) && hs[h].number > head)
    requires forall h :: h in hs' ==> hs'[h] == hs[h]
    requires tds'.Keys == hs'.Keys && forall h :: h in tds' ==> tds'[h] == tds[h]
    requires forall k: nat :: k in canonical' ==> k in canonical && canonical'[k] == canonical[k]
    ensures Whole(hs', tds', canonical', genesis, cut) <==>
      forall h :: h in hs' ==> Outlives(hs, tds, canonical, genesis, cut, head, h)
  {
    hide AncestorAt, Lists, Weighed;
    WeighedKnown(hs, tds, genesis);
    if forall h :: h in hs' ==> Outlives(hs, tds, canonical, genesis, cut, head, h) {
      CutRooted(hs, hs', tds, canonical, genesis, cut, head);
      CutListed(hs, hs', tds, tds', canonical, canonical', genesis, top, cut);
    }
    if Whole(hs', tds', canonical', genesis, cut) {
      WeighedKnown(hs', tds', genesis);
      forall h | h in hs'
        ensures Outlives(hs, tds, canonical, genesis, cut, head, h)
      {
        assert h == genesis || HasParent(hs', h);
      }
    }
  }

  lemma CutRooted(hs: Headers, hs': Headers, tds: map<Hash, nat>, canonical: map<nat, Hash>, genesis: Hash, cut: Hash, head: nat)
    requires Rooted(hs, genesis)
    requires forall h :: h in hs' <==> h in hs && !(OnTable(hs, canonical, h) && hs[h].number > head)
    requires forall h :: h in hs' ==> hs'[h] == hs[h] && Outlives(hs, tds, canonical, genesis, cut, head, h)
    ensures Rooted(hs', genesis)
  {
    forall h | h in hs'
      ensures hs'[h].hash == h && (h == genesis || HasParent(hs', h))
    {
      assert h == genesis || HasParent(hs, h);
      assert Outlives(hs, tds, canonical, genesis, cut, head, h);
    }
  }

  lemma CutListed(hs: Headers, hs': Headers, tds: map<Hash, nat>, tds': map<Hash, nat>, canonical: map<nat, Hash>,
                  canonical': map<nat, Hash>, genesis: Hash, top: Hash, cut: Hash)
    requires Rooted(hs, genesis) && Rooted(hs', genesis) && top in hs && cut in hs' && Lists(canonical, hs, genesis, top)
    requires forall h :: h in hs' ==> h in hs && hs'[h] == hs[h]
    requires hs[cut].number <= hs[top].number && cut == AncestorAt(hs, genesis, top, hs[cut].number)
    requires forall k: nat :: k in canonical' <==> k <= hs[cut].number
    requires forall k: nat :: k in canonical' ==> k in canonical && canonical'[k] == canonical[k]
    requires Weighed(hs, tds, genesis) && tds'.Keys == hs'.Keys && forall h :: h in tds' ==> tds'[h] == tds[h]
    ensures Lists(canonical', hs', genesis, cut) && Weighed(hs', tds', genesis)
  {
    forall k: nat | k <= hs'[cut].number
      ensures k in canonical' && canonical'[k] == AncestorAt(hs', genesis, cut, k)
    {
      AncestorOfAncestor(hs, genesis, top, hs[cut].number, k);
      GrownAncestor(hs', hs, genesis, cut, k);
    }
  }

  class HeaderChain {
    const genesis: Hash
    var headers: Headers
    var tds: map<Hash, nat>
    var canonical: map<nat, Hash>
    var current: Hash

    /** The table is defined exactly on 0..head and lists the head's ancestors. */
    ghost predicate Indexed()
      reads this
    {
      && Rooted(headers, genesis) && current in headers
      && Lists(canonical, headers, genesis, current) && EndsAt(canonical, headers[current].number)
    }

    ghost predicate Valid()
      reads this
    {
      Whole(headers, tds, canonical, genesis, current)
    }

    constructor (header: Header)
      requires header.number == 0
      ensures Valid() && genesis == header.hash && headers == map[header.hash := header] && current == header.hash
    {
      genesis, current := header.hash, header.hash;
      headers, tds := map[header.hash := header], map[header.hash := header.difficulty];
      canonical := map[0 := header.hash];
      new;
      AncestorOfSelf(headers, genesis, current);
    }

    /** WriteHeader: the heaviest chain wins; between equals the coin decides. */
    method WriteHeader(header: Header, coin: bool) returns (status: Status)
      requires Valid()
      requires header.parentHash in headers ==> headers[header.parentHash].number + 1 == header.number
      requires header.hash in headers ==> headers[header.hash] == header
      modifies this
      ensures Valid()
      ensures status == UnknownAncestor <==> header.parentHash !in old(headers)
      ensures status == UnknownAncestor ==> headers == old(headers) && canonical == old(canonical) && current == old(current)
      ensures status != UnknownAncestor ==>
        var td := old(tds)[header.parentHash] + header.difficulty;
        && headers == old(headers)[header.hash := header] && tds == old(tds)[header.hash := td]
        && (status == Canonical <==> td > old(tds)[old(current)] || (td == old(tds)[old(current)] && coin))
        && (status == Canonical ==> current == header.hash)
        && (status == Side ==> current == old(current) && canonical == old(canonical))
    {
      hide Rooted, Lists, EndsAt, Weighed;
      if header.parentHash !in tds {
        WeighedKnown(headers, tds, genesis);
        return UnknownAncestor;
      }
      WeighedKnown(headers, tds, genesis);
      Grows(headers, genesis, header);
      GrowsWeighed(headers, tds, genesis, header);
      ListsGrown(canonical, headers, headers[header.hash := header], genesis, current);
      var localTd := tds[current];
      var externTd := header.difficulty + tds[header.parentHash];
      tds := tds[header.hash := externTd];
      headers := headers[header.hash := header];
      ghost var oldHead := current;
      ListedNumbers(canonical, headers, genesis, current);
      if externTd > localTd || (externTd == localTd && coin) {
        DeleteAbove(header.number, headers[oldHead].number);
        OverwriteStale(header, oldHead);
        canonical := canonical[header.number := header.hash];
        current := header.hash;
        status := Canonical;
      } else {
        status := Side;
      }
    }

    /** Deletes the assignments from number + 1 on, until the first gap. */
    method DeleteAbove(number: nat, ghost top: nat)
      requires forall k: nat :: k in canonical <==> k <= top
      modifies `canonical
      ensures forall k: nat :: k in canonical <==> k <= top && k <= number
      ensures forall k: nat :: k in canonical ==> canonical[k] == old(canonical)[k]
    {
      var i := number + 1;
      var doomed := {};
      while i in canonical
        invariant number + 1 <= i && (i <= top + 1 || i == number + 1)
        invariant forall k: nat :: k in doomed <==> number < k < i
        decreases top + 1 - i
      {
        doomed := doomed + {i};
        i := i + 1;
      }
      canonical := canonical - doomed;
    }

    /** Overwrites the assignments below the new head, down to the first that is right. */
    method OverwriteStale(header: Header, ghost oldHead: Hash)
      requires Rooted(headers, genesis) && oldHead in headers && header.hash in headers && headers[header.hash] == header
      requires header.number > 0
      requires forall k: nat :: k in canonical <==> k <= headers[oldHead].number && k <= header.number
      requires forall k: nat :: k in canonical ==> canonical[k] == AncestorAt(headers, genesis, oldHead, k)
      modifies `canonical
      ensures Lists(canonical[header.number := header.hash], headers, genesis, header.hash)
      ensures EndsAt(canonical[header.number := header.hash], header.number)
    {
      hide Rooted, AncestorAt;
      ghost var h, was := header.hash, canonical;
      ParentIsAncestor(headers, genesis, h);
      AncestorOfSelf(headers, genesis, h);
      AncestorOfSelf(headers, genesis, oldHead);
      var headHash := header.parentHash;
      var headNumber := header.number - 1;
      var headHeader := headers[headHash];
      while headNumber !in canonical || canonical[headNumber] != headHash
        invariant 0 <= headNumber < header.number && headHash == AncestorAt(headers, genesis, h, headNumber)
        invariant headHash in headers && headHeader == headers[headHash] && headHeader.number == headNumber
        invariant forall k: nat :: k in canonical ==> k <= header.number
        invariant forall k: nat :: headNumber < k < header.number ==> k in canonical && canonical[k] == AncestorAt(headers, genesis, h, k)
        invariant forall k: nat :: k <= headNumber ==> (k in canonical <==> k in was)
        invariant forall k: nat :: k <= headNumber && k in was ==> canonical[k] == was[k]
        decreases headNumber
      {
        assert headNumber > 0 by {
          assert 0 in was;
        }
        ParentIsAncestor(headers, genesis, headHash);
        AncestorOfAncestor(headers, genesis, h, headNumber, headNumber - 1);
        canonical := canonical[headNumber := headHash];
        headHash := headHeader.parentHash;
        headNumber := headHeader.number - 1;
        headHeader := headers[headHash];
      }
      forall k: nat | k <= headNumber
        ensures k in canonical && canonical[k] == AncestorAt(headers, genesis, h, k)
      {
        assert headNumber in was;
        AncestorOfAncestor(headers, genesis, h, headNumber, k);
        AncestorOfAncestor(headers, genesis, oldHead, headNumber, k);
      }
    }

    /** SetHead: the chain is cut above the new head, headers, difficulties and numbers alike.
        Side chains are left as they are, even where their fork point is gone. */
    method SetHead(head: nat)
      requires Valid()
      modifies this
      ensures var top := old(headers[current].number);
              var n := if head < top then head else top;
              && current == AncestorAt(old(headers), genesis, old(current), n)
              && (forall k: nat :: k in canonical <==> k <= n)
              && (forall k: nat :: k in canonical ==> canonical[k] == old(canonical)[k])
      ensures forall h :: h in headers <==> h in old(headers) && !(old(IsCanonical(h)) && old(headers)[h].number > head)
      ensures forall h :: h in headers ==> headers[h] == old(headers)[h]
      ensures headers.Keys == tds.Keys && forall h :: h in tds ==> tds[h] == old(tds)[h]
      ensures Valid() <==> forall h :: h in headers ==> Outlives(old(headers), old(tds), old(canonical), genesis, current, head, h)
    {
      hide Rooted, AncestorAt, Lists, EndsAt, Weighed, Outlives;
      WeighedKnown(headers, tds, genesis);
      ListedNumbers(canonical, headers, genesis, current);
      AncestorOfSelf(headers, genesis, current);
      var height := headers[current].number;
      ghost var top := current;
      var doomed: set<Hash> := {};
      while headers[current].number > head
        invariant headers == old(headers) && tds == old(tds) && canonical == old(canonical)
        invariant current in headers && headers[current].number <= height
        invariant current == AncestorAt(headers, genesis, top, headers[current].number)
        invariant headers[current].number >= head || current == top
        invariant forall h :: h in doomed <==> IsCanonical(h) && headers[h].number > headers[current].number
        decreases headers[current].number
      {
        var n := headers[current].number;
        doomed := doomed + {current};
        ParentIsAncestor(headers, genesis, current);
        AncestorOfAncestor(headers, genesis, top, n, n - 1);
        current := headers[current].parentHash;
      }
      var numbers: set<nat> := {};
      var i := height;
      while i > head
        invariant i <= height && (head <= i || i == height)
        invariant forall k: nat :: k in numbers <==> i < k <= height
      {
        numbers := numbers + {i};
        i := i - 1;
      }
      headers, tds := headers - doomed, tds - doomed;
      canonical := canonical - numbers;
      CutTree(old(headers), headers, old(tds), tds, old(canonical), canonical, genesis, top, current, head);
    }

    /** GetAncestor: the table's jump gives what walking parent links would. It gives up
        only when the budget runs out before a canonical header is met. */
    method GetAncestor(hash: Hash, number: nat, ancestor: nat, maxNonCanonical: nat) returns (r: Option<Hash>, at: nat, left: nat)
      requires Valid() && hash in headers && headers[hash].number == number
      ensures r.Some? ==> ancestor <= number && at == number - ancestor && r.value == AncestorAt(headers, genesis, hash, at)
      ensures r.None? <==> ancestor > number || (ancestor != 1 && ancestor > maxNonCanonical && FarFromCanonical(hash, maxNonCanonical))
      ensures left <= maxNonCanonical
    {
      hide Rooted, Lists, AncestorAt, Weighed, EndsAt;
      left := maxNonCanonical;
      if ancestor > number {
        return None, 0, left;
      }
      if ancestor == 1 {
        ParentIsAncestor(headers, genesis, hash);
        return Some(headers[hash].parentHash), number - 1, left;
      }
      var h, n, a := hash, number, ancestor;
      AncestorOfSelf(headers, genesis, hash);
      while a != 0
        invariant 0 <= a <= n && n - a == number - ancestor && n <= number && left + (number - n) == maxNonCanonical
        invariant h in headers && headers[h].number == n && h == AncestorAt(headers, genesis, hash, n)
        invariant forall k: nat :: n < k <= number ==> !IsCanonical(AncestorAt(headers, genesis, hash, k))
        decreases a
      {
        if n in canonical && canonical[n] == h {
          CanonicalJump(h, n - a);
          AncestorOfAncestor(headers, genesis, hash, n, n - a);
          assert IsCanonical(h);
          return Some(canonical[n - a]), n - a, left;
        }
        assert !IsCanonical(h);
        if left == 0 {
          return None, 0, left;
        }
        left := left - 1;
        a := a - 1;
        ParentIsAncestor(headers, genesis, h);
        AncestorOfAncestor(headers, genesis, hash, n, n - 1);
        h := headers[h].parentHash;
        n := n - 1;
      }
      return Some(h), n, left;
    }

    ghost predicate IsCanonical(h: Hash)
      reads this
    {
      OnTable(headers, canonical, h)
    }

    /** Neither the header nor the nearest `budget` of its ancestors are canonical. */
    ghost predicate FarFromCanonical(h: Hash, budget: nat)
      requires Rooted(headers, genesis) && h in headers
      reads this
    {
      forall k: nat :: k <= headers[h].number <= k + budget ==> !IsCanonical(AncestorAt(headers, genesis, h, k))
    }

    /** From a canonical header on, the table lists the ancestors. */
    lemma CanonicalJump(h: Hash, n: nat)
      requires Indexed() && IsCanonical(h) && n <= headers[h].number
      ensures n in canonical && canonical[n] == AncestorAt(headers, genesis, h, n)
    {
      hide Rooted, AncestorAt;
      AncestorOfAncestor(headers, genesis, current, headers[h].number, n);
    }
  }

  lemma ListedNumbers(canonical: map<nat, Hash>, hs: Headers, genesis: Hash, head: Hash)
    requires Rooted(hs, genesis) && head in hs
    requires Lists(canonical, hs, genesis, head) && EndsAt(canonical, hs[head].number)
    ensures forall k: nat :: k in canonical <==> k <= hs[head].number
    ensures forall k: nat :: k in canonical ==> canonical[k] == AncestorAt(hs, genesis, head, k)
  {
  }

  lemma WeighedKnown(hs: Headers, tds: map<Hash, nat>, genesis: Hash)
    requires Weighed(hs, tds, genesis)
    ensures tds.Keys == hs.Keys
  {
  }

  lemma ListsGrown(canonical: map<nat, Hash>, hs: Headers, hs': Headers, genesis: Hash, head: Hash)
    requires Rooted(hs, genesis) && Rooted(hs', genesis) && head in hs
    requires Lists(canonical, hs, genesis, head)
    requires forall h :: h in hs ==> h in hs' && hs'[h] == hs[h]
    ensures Lists(canonical, hs', genesis, head)
  {
    hide Rooted, AncestorAt;
    forall k: nat | k <= hs'[head].number
      ensures k in canonical && canonical[k] == AncestorAt(hs', genesis, head, k)
    {
      GrownAncestor(hs, hs', genesis, head, k);
    }
  }

  /** A cut that loses a fork point: the side header's parent goes, the side header stays. */
  method CutLosesForkPoint() returns (chain: HeaderChain)
    ensures fresh(chain) && 202 in chain.headers && chain.headers[202].parentHash !in chain.headers
    ensures !chain.Valid()
  {
    hide Whole, HeaderChain.Valid;
    chain := new HeaderChain(Header(100, 0, 0, 1));
    var first := chain.WriteHeader(Header(101, 100, 1, 3), false);
    HeadIsOnTable(chain);
    var side := chain.WriteHeader(Header(202, 101, 2, 0), false);
    assert chain.current == 101 && OnTable(chain.headers, chain.canonical, 101);
    HeadIsOnTable(chain);
    chain.SetHead(0);
    assert chain.headers[202].parentHash == 101;
    assert 202 in chain.headers && 101 !in chain.headers;
    OrphanIsInvalid(chain, 202);
  }

  lemma HeadIsOnTable(chain: HeaderChain)
    requires chain.Valid()
    ensures OnTable(chain.headers, chain.canonical, chain.current)
    ensures forall h :: OnTable(chain.headers, chain.canonical, h) ==> chain.headers[h].number <= chain.headers[chain.current].number
  {
    AncestorOfSelf(chain.headers, chain.genesis, chain.current);
  }

  lemma OrphanIsInvalid(chain: HeaderChain, h: Hash)
    requires h in chain.headers && h != chain.genesis && chain.headers[h].parentHash !in chain.headers
    ensures !chain.Valid()
  {
    assert !HasParent(chain.headers, h);
  }
}
