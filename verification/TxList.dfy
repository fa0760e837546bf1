/** An account's transactions: a nonce map with a heap of its nonces and a cached order, and
    on top of it the list with its cost and gas caps. `contents` is the list by ascending
    nonce, which every operation changes as a list. */
module TxLists {
  import opened Wrappers
  import opened Heap
  import opened Transactions

  const MAX_UINT64: nat := 0xffff_ffff_ffff_ffff

  /** The heap holds exactly the map's nonces. */
  ghost predicate Indexes(index: seq<nat>, items: map<nat, Tx>) {
    IsHeap(index, Itself) && multiset(index) == multiset(items.Keys)
  }

  class TxSortedMap {
    var items: map<nat, Tx>
    var index: seq<nat>
    var cache: Option<seq<Tx>>
    ghost var contents: seq<Tx>

    ghost predicate Valid()
      reads this
    {
      && Flattens(items, contents)
      && Indexes(index, items)
      && (cache.Some? ==> cache.value == contents)
    }

    constructor ()
      ensures Valid() && contents == []
    {
      items, index, cache, contents := map[], [], None, [];
    }

    method Get(nonce: nat) returns (tx: Option<Tx>)
      requires Valid()
      ensures tx.Some? ==> tx.value in contents && tx.value.nonce == nonce
      ensures tx.None? ==> forall t :: t in contents ==> t.nonce != nonce
    {
      return Lookup(items, nonce);
    }

    method Put(tx: Tx)
      requires Valid()
      modifies this
      ensures Valid() && contents == Placed(old(contents), tx)
    {
      if tx.nonce !in items {
        index := Push(index, Itself, tx.nonce);
      }
      PutFlattens(items, contents, tx);
      items := items[tx.nonce := tx];
      cache := None;
      contents := Placed(contents, tx);
    }

    /** Forward: pops off the nonces below the threshold; a cached order loses its front. */
    method Forward(threshold: nat) returns (removed: seq<Tx>)
      requires Valid()
      modifies this
      ensures Valid() && contents == Select(old(contents), Not(Below(threshold)))
      ensures removed == Select(old(contents), Below(threshold))
    {
      hide Flattens, Indexes, IsHeap, Select;
      removed := [];
      ghost var all := contents;
      while |index| > 0 && index[0] < threshold
        invariant |removed| <= |all| && removed == all[..|removed|] && contents == all[|removed|..]
        invariant Flattens(items, contents) && Indexes(index, items) && cache == old(cache)
        invariant forall i :: 0 <= i < |removed| ==> removed[i].nonce < threshold
        decreases |index|
      {
        LeastIsFirst(index, items, contents);
        var nonce;
        index, nonce := PopNonce();
        removed := removed + [items[nonce]];
        FirstGone(items, contents);
        items := items - {nonce};
        contents := contents[1..];
      }
      RestIsAbove(index, items, contents, threshold);
      if cache.Some? {
        cache := Some(cache.value[|removed|..]);
      }
      assert Ascending(all) by { OldAscends(old(items), all); }
      SelectBelow(all, threshold, |removed|);
    }

    method PopNonce() returns (rest: seq<nat>, nonce: nat)
      requires Indexes(index, items) && |index| > 0
      ensures nonce == index[0] && nonce in items && Indexes(rest, items - {nonce}) && |rest| < |index|
    {
      assert index[0] in multiset(index);
      rest, nonce := Pop(index, Itself);
      KeysWithout(items, nonce);
      assert multiset(rest) == multiset(index) - multiset{nonce};
    }

    /** Filter: removes all that meet the test. Heap and cache are ruined by that, and built
        anew. */
    method Filter(test: Test) returns (removed: seq<Tx>)
      requires Valid()
      modifies this
      ensures Valid() && contents == Select(old(contents), Not(test))
      ensures forall tx :: tx in removed <==> tx in old(contents) && Meets(tx, test)
      ensures |removed| == |Select(old(contents), test)|
    {
      hide Flattens, Indexes, IsHeap, Select;
      removed := [];
      ghost var all := contents;
      var rest := items.Keys;
      var kept: map<nat, Tx> := items;
      while rest != {}
        invariant rest <= items.Keys && items == old(items) && contents == all && Valid()
        invariant forall n: nat :: n in kept <==> n in items && (n in rest || !Meets(items[n], test))
        invariant forall n: nat :: n in kept ==> kept[n] == items[n]
        invariant forall tx :: tx in removed <==> tx.nonce in items && tx.nonce !in rest && items[tx.nonce] == tx && Meets(tx, test)
        invariant |removed| + |kept| == |items|
        decreases rest
      {
        var nonce :| nonce in rest;
        rest := rest - {nonce};
        FlattenNonce(items, all, nonce);
        if Meets(items[nonce], test) {
          removed := removed + [items[nonce]];
          SizeWithout(kept, nonce);
          kept := kept - {nonce};
        }
      }
      FilterFlattens(items, all, kept, test);
      FilterCounts(items, all, kept, test, |removed|);
      items := kept;
      contents := Select(all, Not(test));
      if |removed| > 0 {
        index := NoncesOf(items);
        cache := None;
      }
    }

    /** The map's nonces, heaped up. */
    method NoncesOf(items: map<nat, Tx>) returns (index: seq<nat>)
      ensures Indexes(index, items)
    {
      index := [];
      var rest := items.Keys;
      while rest != {}
        invariant rest <= items.Keys && multiset(index) + multiset(rest) == multiset(items.Keys)
        decreases rest
      {
        var nonce :| nonce in rest;
        rest := rest - {nonce};
        index := index + [nonce];
      }
      index := Init(index, Itself);
    }

    /** Cap: drops the highest nonces until threshold are left. */
    method Cap(threshold: nat) returns (drops: seq<Tx>)
      requires Valid()
      modifies this
      ensures Valid() && var k := if |old(contents)| <= threshold then |old(contents)| else threshold;
              && contents == old(contents)[..k]
              && |drops| == |old(contents)| - k
              && forall i :: 0 <= i < |drops| ==> drops[i] == old(contents)[|old(contents)| - 1 - i]
    {
      hide Flattens, Indexes, IsHeap, SortedBy, DroppedFrom;
      FlattenSize(items, contents);
      if |items| <= threshold {
        return [];
      }
      drops := [];
      ghost var all := contents;
      NothingDropped(all);
      index := Sort(index, Itself);
      SortedNonces(old(index), index, items, all);
      var size := |items|;
      while size > threshold
        invariant threshold <= size <= |all| && |index| == |all| && contents == all[..size]
        invariant Flattens(items, contents) && forall i :: 0 <= i < |all| ==> index[i] == all[i].nonce
        invariant DroppedFrom(all, size, drops)
        invariant cache == old(cache)
      {
        assert contents[size - 1] == all[size - 1];
        LastItem(items, contents);
        DropLast(items, contents);
        DroppedNext(all, size, drops);
        drops := drops + [items[index[size - 1]]];
        items := items - {index[size - 1]};
        contents := contents[..size - 1];
        size := size - 1;
      }
      AllDropped(all, size, drops);
      FirstNonces(index[..threshold], items, contents);
      index := Init(index[..threshold], Itself);
      HeapIndexes(index, items);
      if cache.Some? {
        cache := Some(cache.value[..|cache.value| - |drops|]);
      }
    }

    /** Remove: one nonce goes, out of the heap as well. */
    method Remove(nonce: nat) returns (ok: bool)
      requires Valid()
      modifies this
      ensures Valid() && contents == Select(old(contents), Not(With(nonce)))
      ensures ok <==> exists tx :: tx in old(contents) && tx.nonce == nonce
    {
      hide Flattens, IsHeap, Select;
      NonceListed(items, contents, nonce);
      SelectOthers(items, contents, nonce);
      if nonce !in items {
        return false;
      }
      assert nonce in multiset(index);
      var i := 0;
      while index[i] != nonce
        invariant 0 <= i < |index| && nonce in index[i..]
        decreases |index| - i
      {
        i := i + 1;
      }
      ghost var all := multiset(index);
      var gone;
      index, gone := RemoveAt(index, Itself, i);
      KeysWithout(items, nonce);
      assert multiset(index) == all - multiset{nonce};
      items := items - {nonce};
      cache := None;
      contents := Select(contents, Not(With(nonce)));
      return true;
    }

    /** Ready: the run of consecutive nonces at the front, if it starts low enough. */
    method Ready(start: nat) returns (ready: seq<Tx>)
      requires Valid()
      modifies this
      ensures Valid() && var k := ReadyLength(old(contents), start);
              ready == old(contents)[..k] && contents == old(contents)[k..]
    {
      hide Flattens, Indexes, IsHeap;
      LeastIsFirst(index, items, contents);
      if |index| == 0 || index[0] > start {
        return [];
      }
      ready := [];
      ghost var all := contents;
      ghost var k := 0;
      var next := index[0];
      while |index| > 0 && index[0] == next
        invariant k <= |all| && ready == all[..k] && contents == all[k..]
        invariant Flattens(items, contents) && Indexes(index, items)
        invariant next == all[0].nonce + k && forall i :: 0 <= i < k ==> all[i].nonce == all[0].nonce + i
        decreases |index|
      {
        LeastIsFirst(index, items, contents);
        assert contents[0] == all[k];
        assert all[k..][1..] == all[k + 1..];
        ready := ready + [items[next]];
        var nonce;
        index, nonce := PopNonce();
        FirstGone(items, contents);
        items := items - {next};
        contents := contents[1..];
        next := next + 1;
        k := k + 1;
      }
      LeastIsFirst(index, items, contents);
      RunLengthIs(all, k);
      cache := None;
    }

    /** Flatten: the transactions by nonce, sorted once and kept. */
    method Flatten() returns (txs: seq<Tx>)
      requires Valid()
      modifies `cache
      ensures Valid() && txs == contents && cache == Some(contents)
    {
      hide Indexes;
      if cache.None? {
        var s: seq<Tx> := [];
        var rest := items.Keys;
        while rest != {}
          invariant rest <= items.Keys
          invariant forall i :: 0 <= i < |s| ==> s[i].nonce in items && s[i].nonce !in rest && items[s[i].nonce] == s[i]
          invariant forall n: nat :: n in items && n !in rest ==> items[n] in s
          invariant forall i, j :: 0 <= i < j < |s| ==> s[i].nonce != s[j].nonce
          decreases rest
        {
          var nonce :| nonce in rest;
          rest := rest - {nonce};
          s := s + [items[nonce]];
        }
        var sorted := Sort(s, NonceOf);
        SortedFlattens(items, contents, s, sorted);
        cache := Some(sorted);
      }
      return cache.value;
    }
  }

  /** All but the first `size` have been dropped, last first. */
  ghost predicate DroppedFrom(all: seq<Tx>, size: nat, drops: seq<Tx>) {
    size <= |all| && |drops| == |all| - size && forall i :: 0 <= i < |drops| ==> drops[i] == all[|all| - 1 - i]
  }

  lemma NothingDropped(all: seq<Tx>)
    ensures DroppedFrom(all, |all|, [])
  {
  }

  lemma DroppedNext(all: seq<Tx>, size: nat, drops: seq<Tx>)
    requires DroppedFrom(all, size, drops) && size > 0
    ensures DroppedFrom(all, size - 1, drops + [all[size - 1]])
  {
  }

  lemma AllDropped(all: seq<Tx>, size: nat, drops: seq<Tx>)
    requires DroppedFrom(all, size, drops)
    ensures |drops| == |all| - size && forall i :: 0 <= i < |drops| ==> drops[i] == all[|all| - 1 - i]
  {
  }

  /** The position of the first transaction over the limits. */
  function FirstExceeding(s: seq<Tx>, costLimit: nat, gasLimit: nat): (k: nat)
    ensures k <= |s|
    ensures forall i :: 0 <= i < k ==> !Meets(s[i], Exceeding(costLimit, gasLimit))
    ensures k < |s| ==> Meets(s[k], Exceeding(costLimit, gasLimit))
  {
    if |s| == 0 || Meets(s[0], Exceeding(costLimit, gasLimit)) then 0 else 1 + FirstExceeding(s[1..], costLimit, gasLimit)
  }

  /** What filtering every transaction leaves: in a strict list, only those before the first
      that exceeds. */
  function FilteredAll(strict: bool, s: seq<Tx>, costLimit: nat, gasLimit: nat): seq<Tx> {
    if strict then s[..FirstExceeding(s, costLimit, gasLimit)] else Select(s, Not(Exceeding(costLimit, gasLimit)))
  }

  /** A replacement must beat the old price, by the bump. */
  predicate Outbids(tx: Tx, prior: Tx, priceBump: nat) {
    tx.price > prior.price && tx.price >= prior.price * (100 + priceBump) / 100
  }

  /** The bump is a percentage of the old price, rounded down. */
  lemma OutbidsMeans(tx: Tx, prior: Tx, priceBump: nat)
    ensures Outbids(tx, prior, priceBump) <==> tx.price > prior.price && 100 * (tx.price + 1) > prior.price * (100 + priceBump)
  {
  }

  class TxList {
    const strict: bool
    const txs: TxSortedMap
    var costcap: nat
    var gascap: nat

    ghost function Contents(): seq<Tx>
      reads this, txs
    {
      txs.contents
    }

    /** The caps bound every transaction's cost and gas. */
    ghost predicate Valid()
      reads this, txs
    {
      txs.Valid() && forall tx :: tx in txs.contents ==> tx.Cost() <= costcap && tx.gas <= gascap && tx.nonce <= MAX_UINT64
    }

    constructor (strict: bool)
      ensures Valid() && fresh(txs) && this.strict == strict && Contents() == []
    {
      this.strict, costcap, gascap := strict, 0, 0;
      txs := new TxSortedMap();
    }

    method Add(tx: Tx, priceBump: nat) returns (inserted: bool, replaced: Option<Tx>)
      requires Valid() && tx.nonce <= MAX_UINT64
      modifies this, txs
      ensures Valid()
      ensures inserted <==> forall t :: t in old(Contents()) && t.nonce == tx.nonce ==> Outbids(tx, t, priceBump)
      ensures Contents() == if inserted then Placed(old(Contents()), tx) else old(Contents())
      ensures replaced.Some? ==> inserted && replaced.value in old(Contents()) && replaced.value.nonce == tx.nonce
      ensures inserted && replaced.None? ==> forall t :: t in old(Contents()) ==> t.nonce != tx.nonce
    {
      var previous := txs.Get(tx.nonce);
      SameNonce(txs.items, txs.contents);
      if previous.Some? {
        var threshold := previous.value.price * (100 + priceBump) / 100;
        if previous.value.price >= tx.price || threshold > tx.price {
          return false, None;
        }
      }
      PlacedAscends(txs.contents, tx);
      txs.Put(tx);
      if costcap < tx.Cost() {
        costcap := tx.Cost();
      }
      if gascap < tx.gas {
        gascap := tx.gas;
      }
      return true, previous;
    }

    method Forward(threshold: nat) returns (removed: seq<Tx>)
      requires Valid()
      modifies txs
      ensures Valid()
      ensures Contents() == Select(old(Contents()), Not(Below(threshold))) && removed == Select(old(Contents()), Below(threshold))
      ensures GapFree(old(Contents())) ==> GapFree(Contents())
    {
      SelectMembers(txs.contents, Not(Below(threshold)));
      ForwardIsSuffix(txs.items, txs.contents, threshold);
      removed := txs.Forward(threshold);
    }

    /** Filter: the caps spare the work when nothing can exceed, but never change what is
        removed. Gap-free strict lists stay gap-free. */
    method Filter(costLimit: nat, gasLimit: nat) returns (removed: seq<Tx>, invalids: seq<Tx>)
      requires Valid()
      modifies this, txs
      ensures Valid() && Contents() == FilteredAll(strict, old(Contents()), costLimit, gasLimit)
      ensures forall tx :: tx in removed <==> tx in old(Contents()) && Meets(tx, Exceeding(costLimit, gasLimit))
      ensures forall tx :: tx in invalids <==>
        tx in old(Contents()) && !Meets(tx, Exceeding(costLimit, gasLimit)) && tx !in Contents()
      ensures strict && GapFree(old(Contents())) ==> GapFree(Contents())
    {
      hide Select, Flattens, Indexes, GapFree, FilteredAll, Ascending;
      ghost var s := txs.contents;
      var test := Exceeding(costLimit, gasLimit);
      OldAscends(txs.items, s);
      FilteredGapFree(strict, s, costLimit, gasLimit);
      if costcap <= costLimit && gascap <= gasLimit {
        NothingExceeds(strict, s, costLimit, gasLimit);
        return [], [];
      }
      costcap := costLimit;
      gascap := gasLimit;
      SelectMembers(s, Not(test));
      removed := txs.Filter(test);
      SelectMembers(s, test);
      invalids := [];
      if strict && |removed| > 0 {
        var lowest := LowestNonce(removed);
        LowestIsFirst(s, costLimit, gasLimit, removed, lowest);
        SelectMembers(txs.contents, Not(Above(lowest)));
        invalids := txs.Filter(Above(lowest));
      } else {
        NoneRemoved(strict, s, costLimit, gasLimit, removed);
      }
    }

    method LowestNonce(removed: seq<Tx>) returns (lowest: nat)
      ensures lowest <= MAX_UINT64 && forall j :: 0 <= j < |removed| ==> lowest <= removed[j].nonce
      ensures lowest == MAX_UINT64 || exists j :: 0 <= j < |removed| && removed[j].nonce == lowest
    {
      lowest := MAX_UINT64;
      for i := 0 to |removed|
        invariant lowest <= MAX_UINT64 && forall j :: 0 <= j < i ==> lowest <= removed[j].nonce
        invariant lowest == MAX_UINT64 || exists j :: 0 <= j < i && removed[j].nonce == lowest
      {
        if lowest > removed[i].nonce {
          lowest := removed[i].nonce;
        }
      }
    }

    method Cap(threshold: nat) returns (drops: seq<Tx>)
      requires Valid()
      modifies txs
      ensures Valid() && var k := if |old(Contents())| <= threshold then |old(Contents())| else threshold;
              && Contents() == old(Contents())[..k]
              && |drops| == |old(Contents())| - k
              && forall i :: 0 <= i < |drops| ==> drops[i] == old(Contents())[|old(Contents())| - 1 - i]
      ensures GapFree(old(Contents())) ==> GapFree(Contents())
    {
      drops := txs.Cap(threshold);
    }

    /** Remove: in a strict list everything behind the removed nonce is invalid. */
    method Remove(tx: Tx) returns (removed: bool, invalids: seq<Tx>)
      requires Valid()
      modifies txs
      ensures Valid()
      ensures removed <==> exists t :: t in old(Contents()) && t.nonce == tx.nonce
      ensures Contents() == if removed && strict then Select(old(Contents()), Below(tx.nonce))
                            else Select(old(Contents()), Not(With(tx.nonce)))
      ensures forall t :: t in invalids <==> removed && strict && t in old(Contents()) && t.nonce > tx.nonce
      ensures strict && removed && GapFree(old(Contents())) ==> GapFree(Contents())
    {
      hide Select, Flattens, Indexes, GapFree, Ascending;
      ghost var s := txs.contents;
      OldAscends(txs.items, s);
      MeetsNot(With(tx.nonce));
      SelectMembers(s, Not(With(tx.nonce)));
      removed := txs.Remove(tx.nonce);
      invalids := [];
      if removed && strict {
        BelowIsPrefix(s, tx.nonce);
        SelectMembers(txs.contents, Not(Above(tx.nonce)));
        invalids := txs.Filter(Above(tx.nonce));
      }
    }

    method Ready(start: nat) returns (ready: seq<Tx>)
      requires Valid()
      modifies txs
      ensures Valid() && var k := ReadyLength(old(Contents()), start);
              ready == old(Contents())[..k] && Contents() == old(Contents())[k..]
      ensures GapFree(ready)
      ensures ready == [] <==> old(Contents()) == [] || old(Contents())[0].nonce > start
      ensures forall i :: 0 <= i < |ready| ==> ready[i].nonce == ready[0].nonce + i
      ensures ready != [] && Contents() != [] ==> Contents()[0].nonce != ready[0].nonce + |ready|
    {
      RunIsGapFree(txs.contents);
      ReadyCounts(txs.contents, start);
      ready := txs.Ready(start);
    }

    method Flatten() returns (r: seq<Tx>)
      requires Valid()
      modifies txs
      ensures Valid() && r == Contents() == old(Contents())
    {
      r := txs.Flatten();
    }
  }

  // ----- lists under filters -----

  lemma SameNonce(items: map<nat, Tx>, s: seq<Tx>)
    requires Flattens(items, s)
    ensures forall x, y :: x in s && y in s && x.nonce == y.nonce ==> x == y
  {
  }

  lemma ForwardIsSuffix(items: map<nat, Tx>, s: seq<Tx>, threshold: nat)
    requires Flattens(items, s)
    ensures GapFree(s) ==> GapFree(Select(s, Not(Below(threshold))))
  {
    var k := CutAt(s, threshold);
    SelectBelow(s, threshold, k);
  }

  lemma CutAt(s: seq<Tx>, n: nat) returns (k: nat)
    requires Ascending(s)
    ensures k <= |s| && (forall i :: 0 <= i < k ==> s[i].nonce < n) && forall i :: k <= i < |s| ==> s[i].nonce >= n
  {
    k := 0;
    while k < |s| && s[k].nonce < n
      invariant k <= |s| && forall i :: 0 <= i < k ==> s[i].nonce < n
    {
      k := k + 1;
    }
  }

  lemma FilteredGapFree(strict: bool, s: seq<Tx>, costLimit: nat, gasLimit: nat)
    ensures strict && GapFree(s) ==> GapFree(FilteredAll(strict, s, costLimit, gasLimit))
  {
  }

  lemma NothingExceeds(strict: bool, s: seq<Tx>, costLimit: nat, gasLimit: nat)
    requires Ascending(s) && forall i :: 0 <= i < |s| ==> !Meets(s[i], Exceeding(costLimit, gasLimit))
    ensures FilteredAll(strict, s, costLimit, gasLimit) == s
    ensures Select(s, Not(Exceeding(costLimit, gasLimit))) == s
  {
    hide Meets, Select;
    var k := FirstExceeding(s, costLimit, gasLimit);
    SelectAll(s, Exceeding(costLimit, gasLimit));
  }

  lemma NoneRemoved(strict: bool, s: seq<Tx>, costLimit: nat, gasLimit: nat, removed: seq<Tx>)
    requires Ascending(s) && (!strict || removed == [])
    requires forall tx :: tx in removed <==> tx in s && Meets(tx, Exceeding(costLimit, gasLimit))
    ensures Select(s, Not(Exceeding(costLimit, gasLimit))) == FilteredAll(strict, s, costLimit, gasLimit)
  {
    if strict {
      forall i | 0 <= i < |s|
        ensures !Meets(s[i], Exceeding(costLimit, gasLimit))
      {
        assert s[i] in removed <==> s[i] in s && Meets(s[i], Exceeding(costLimit, gasLimit));
      }
      NothingExceeds(true, s, costLimit, gasLimit);
    }
  }

  /** Dropping the removed and then all above the lowest of them leaves what came before. */
  lemma LowestIsFirst(s: seq<Tx>, costLimit: nat, gasLimit: nat, removed: seq<Tx>, lowest: nat)
    requires Ascending(s) && |removed| > 0 && forall tx :: tx in s ==> tx.nonce <= MAX_UINT64
    requires forall tx :: tx in removed <==> tx in s && Meets(tx, Exceeding(costLimit, gasLimit))
    requires forall j :: 0 <= j < |removed| ==> lowest <= removed[j].nonce
    requires lowest == MAX_UINT64 || exists j :: 0 <= j < |removed| && removed[j].nonce == lowest
    ensures var test := Exceeding(costLimit, gasLimit);
            Select(Select(s, Not(test)), Not(Above(lowest))) == FilteredAll(true, s, costLimit, gasLimit)
    ensures var k := FirstExceeding(s, costLimit, gasLimit); k < |s| && s[k].nonce == lowest
  {
    var test, k := Exceeding(costLimit, gasLimit), FirstExceeding(s, costLimit, gasLimit);
    FirstIsLowest(s, costLimit, gasLimit, removed, lowest);
    var left := Select(s, Not(test));
    SelectMembers(s, Not(test));
    SelectAscends(s, Not(test));
    PrefixMembers(s, k);
    forall tx
      ensures tx in s[..k] <==> tx in left && Meets(tx, Not(Above(lowest)))
    {
      FrontPasses(s, costLimit, gasLimit, tx);
    }
    SelectIs(left, Not(Above(lowest)), s[..k]);
  }

  lemma FrontPasses(s: seq<Tx>, costLimit: nat, gasLimit: nat, tx: Tx)
    requires Ascending(s) && FirstExceeding(s, costLimit, gasLimit) < |s|
    ensures var test, k := Exceeding(costLimit, gasLimit), FirstExceeding(s, costLimit, gasLimit);
            tx in s[..k] <==> tx in s && Meets(tx, Not(test)) && Meets(tx, Not(Above(s[k].nonce)))
  {
    var k := FirstExceeding(s, costLimit, gasLimit);
    PrefixMembers(s, k);
    if tx in s[..k] {
      var i :| 0 <= i < k && s[i] == tx;
    } else if tx in s && tx.nonce == s[k].nonce {
      var i :| 0 <= i < |s| && s[i] == tx;
    }
  }

  lemma FirstIsLowest(s: seq<Tx>, costLimit: nat, gasLimit: nat, removed: seq<Tx>, lowest: nat)
    requires Ascending(s) && |removed| > 0 && forall tx :: tx in s ==> tx.nonce <= MAX_UINT64
    requires forall tx :: tx in removed <==> tx in s && Meets(tx, Exceeding(costLimit, gasLimit))
    requires forall j :: 0 <= j < |removed| ==> lowest <= removed[j].nonce
    requires lowest == MAX_UINT64 || exists j :: 0 <= j < |removed| && removed[j].nonce == lowest
    ensures var k := FirstExceeding(s, costLimit, gasLimit); k < |s| && s[k].nonce == lowest
  {
    var k := FirstExceeding(s, costLimit, gasLimit);
    assert removed[0] in removed;
    assert k < |s|;
    assert s[k] in removed;
    var j := if lowest == MAX_UINT64 then 0 else IndexOfNonce(removed, lowest);
    assert removed[j] in removed && removed[j] in s;
    var i :| 0 <= i < |s| && s[i] == removed[j];
  }

  function IndexOfNonce(s: seq<Tx>, n: nat): (j: nat)
    requires exists j :: 0 <= j < |s| && s[j].nonce == n
    ensures j < |s| && s[j].nonce == n
  {
    if s[0].nonce == n then 0 else 1 + IndexOfNonce(s[1..], n)
  }

  lemma PrefixMembers(s: seq<Tx>, k: nat)
    requires Ascending(s) && k < |s|
    ensures forall tx :: tx in s[..k] <==> tx in s && tx.nonce < s[k].nonce
  {
    forall tx | tx in s && tx.nonce < s[k].nonce
      ensures tx in s[..k]
    {
      var i :| 0 <= i < |s| && s[i] == tx;
      assert s[..k][i] == tx;
    }
  }

  /** Taking a nonce out and then all above it leaves a prefix. */
  lemma BelowIsPrefix(s: seq<Tx>, n: nat)
    requires Ascending(s)
    ensures Select(Select(s, Not(With(n))), Not(Above(n))) == Select(s, Below(n))
    ensures GapFree(s) ==> GapFree(Select(s, Below(n)))
  {
    hide Select, GapFree;
    BelowAmong(s, n);
    BelowGapFree(s, n);
  }

  lemma BelowAmong(s: seq<Tx>, n: nat)
    requires Ascending(s)
    ensures Select(Select(s, Not(With(n))), Not(Above(n))) == Select(s, Below(n))
  {
    hide Select;
    MeetsNot(With(n));
    MeetsNot(Above(n));
    SelectMembers(s, Not(With(n)));
    SelectAscends(s, Not(With(n)));
    SelectMembers(s, Below(n));
    SelectAscends(s, Below(n));
    SelectIs(Select(s, Not(With(n))), Not(Above(n)), Select(s, Below(n)));
  }

  lemma BelowGapFree(s: seq<Tx>, n: nat)
    requires Ascending(s)
    ensures GapFree(s) ==> GapFree(Select(s, Below(n)))
  {
    var k := CutAt(s, n);
    SelectBelow(s, n, k);
  }

  // ----- the map, its heap and its list -----

  lemma ItemListed(items: map<nat, Tx>, s: seq<Tx>, tx: Tx)
    requires Flattens(items, s)
    ensures tx in s <==> tx.nonce in items && items[tx.nonce] == tx
  {
    if tx in s {
      var i :| 0 <= i < |s| && s[i] == tx;
    }
  }

  lemma OldAscends(items: map<nat, Tx>, s: seq<Tx>)
    requires Flattens(items, s)
    ensures Ascending(s)
  {
  }

  lemma FlattenNonce(items: map<nat, Tx>, s: seq<Tx>, nonce: nat)
    requires Flattens(items, s) && nonce in items
    ensures items[nonce].nonce == nonce && items[nonce] in s
  {
  }

  lemma PutFlattens(items: map<nat, Tx>, s: seq<Tx>, tx: Tx)
    requires Flattens(items, s)
    ensures Flattens(items[tx.nonce := tx], Placed(s, tx))
    ensures multiset(items[tx.nonce := tx].Keys) == multiset(items.Keys) + if tx.nonce in items then multiset{} else multiset{tx.nonce}
  {
    hide Placed;
    var items', t := items[tx.nonce := tx], Placed(s, tx);
    PlacedAscends(s, tx);
    forall i | 0 <= i < |t|
      ensures t[i].nonce in items' && items'[t[i].nonce] == t[i]
    {
      assert t[i] in t;
      ItemListed(items, s, t[i]);
    }
    assert items'.Keys == items.Keys + {tx.nonce};
  }

  lemma KeysWithout(items: map<nat, Tx>, nonce: nat)
    requires nonce in items
    ensures multiset(items.Keys) == multiset((items - {nonce}).Keys) + multiset{nonce}
  {
    assert (items - {nonce}).Keys == items.Keys - {nonce};
  }

  /** The heap's root is the first nonce. */
  lemma LeastIsFirst(index: seq<nat>, items: map<nat, Tx>, s: seq<Tx>)
    requires Indexes(index, items) && Flattens(items, s)
    ensures |index| == |s|
    ensures |index| > 0 ==> index[0] == s[0].nonce && index[0] in items && items[index[0]] == s[0]
  {
    hide IsHeap;
    FlattenSize(items, s);
    assert |index| == |multiset(index)| == |multiset(items.Keys)| == |items.Keys|;
    if |index| > 0 {
      assert index[0] in multiset(index);
      assert s[0].nonce in multiset(index);
      var j :| 0 <= j < |index| && index[j] == s[0].nonce;
      RootIsLeast(index, Itself, j);
      FlattenNonce(items, s, index[0]);
      var i :| 0 <= i < |s| && s[i] == items[index[0]];
    }
  }

  lemma FirstGone(items: map<nat, Tx>, s: seq<Tx>)
    requires Flattens(items, s) && |s| > 0
    ensures Flattens(items - {s[0].nonce}, s[1..])
  {
    var rest := items - {s[0].nonce};
    forall n: nat | n in rest
      ensures rest[n].nonce == n && rest[n] in s[1..]
    {
      FlattenNonce(items, s, n);
      var i :| 0 <= i < |s| && s[i] == items[n];
      assert i > 0 && s[1..][i - 1] == items[n];
    }
  }

  lemma RestIsAbove(index: seq<nat>, items: map<nat, Tx>, s: seq<Tx>, threshold: nat)
    requires Indexes(index, items) && Flattens(items, s) && (|index| == 0 || index[0] >= threshold)
    ensures forall i :: 0 <= i < |s| ==> s[i].nonce >= threshold
  {
    LeastIsFirst(index, items, s);
  }

  lemma LastItem(items: map<nat, Tx>, s: seq<Tx>)
    requires Flattens(items, s) && |s| > 0
    ensures var last := s[|s| - 1]; last.nonce in items && items[last.nonce] == last
  {
  }

  lemma FilterFlattens(items: map<nat, Tx>, s: seq<Tx>, kept: map<nat, Tx>, test: Test)
    requires Flattens(items, s)
    requires forall n: nat :: n in kept <==> n in items && !Meets(items[n], test)
    requires forall n: nat :: n in kept ==> kept[n] == items[n]
    ensures Flattens(kept, Select(s, Not(test)))
    ensures forall tx :: tx in s <==> tx.nonce in items && items[tx.nonce] == tx
  {
    hide Flattens, Select;
    forall tx
      ensures tx in s <==> tx.nonce in items && items[tx.nonce] == tx
    {
      ItemListed(items, s, tx);
    }
    OldAscends(items, s);
    SelectAscends(s, Not(test));
    SelectMembers(s, Not(test));
    FlattenPart(items, s, kept, Select(s, Not(test)));
  }

  lemma FilterCounts(items: map<nat, Tx>, s: seq<Tx>, kept: map<nat, Tx>, test: Test, removed: nat)
    requires Flattens(items, s) && Flattens(kept, Select(s, Not(test))) && removed + |kept| == |items|
    requires forall n: nat :: n in kept ==> n in items && kept[n] == items[n]
    ensures removed == |Select(s, test)|
    ensures removed == 0 ==> kept == items && Select(s, Not(test)) == s
  {
    hide Flattens, Select;
    FlattenSize(items, s);
    FlattenSize(kept, Select(s, Not(test)));
    SelectMembers(s, test);
    if removed == 0 {
      SameSizeSame(items, kept);
      FlattensOnce(items, s, Select(s, Not(test)));
    }
  }

  lemma SameSizeSame(items: map<nat, Tx>, kept: map<nat, Tx>)
    requires |kept| == |items| && forall n: nat :: n in kept ==> n in items && kept[n] == items[n]
    ensures kept == items
  {
    var gone := items.Keys - kept.Keys;
    assert items.Keys == kept.Keys + gone;
    assert |items.Keys| == |kept.Keys| + |gone|;
  }

  lemma FlattensOnce(items: map<nat, Tx>, s: seq<Tx>, t: seq<Tx>)
    requires Flattens(items, s) && Flattens(items, t)
    ensures s == t
  {
    forall tx
      ensures tx in s <==> tx in t
    {
      ItemListed(items, s, tx);
      ItemListed(items, t, tx);
    }
    AscendingUnique(s, t);
  }

  /** Sorted, the heap's slice shows the list's nonces. */
  lemma SortedNonces(heap: seq<nat>, index: seq<nat>, items: map<nat, Tx>, s: seq<Tx>)
    requires Indexes(heap, items) && multiset(index) == multiset(heap) && SortedBy(index, Itself) && Flattens(items, s)
    ensures |index| == |s| && forall i :: 0 <= i < |s| ==> index[i] == s[i].nonce
  {
    hide IsHeap, Flattens, SortedBy;
    forall i | 0 <= i < |index|
      ensures index[i] in items && items[index[i]].nonce == index[i]
    {
      assert index[i] in multiset(index);
      FlattenNonce(items, s, index[i]);
    }
    StrictlySorted(index, items.Keys);
    var t := seq(|index|, i requires 0 <= i < |index| => items[index[i]]);
    OldAscends(items, s);
    forall tx
      ensures tx in t <==> tx in s
    {
      ItemListed(items, s, tx);
      ItemSorted(index, items, t, tx);
    }
    AscendingUnique(t, s);
  }

  lemma ItemSorted(index: seq<nat>, items: map<nat, Tx>, t: seq<Tx>, tx: Tx)
    requires multiset(index) == multiset(items.Keys) && |t| == |index|
    requires forall i :: 0 <= i < |index| ==> index[i] in items && t[i] == items[index[i]] && t[i].nonce == index[i]
    ensures tx in t <==> tx.nonce in items && items[tx.nonce] == tx
  {
    if tx.nonce in items && items[tx.nonce] == tx {
      assert tx.nonce in multiset(index);
      var i :| 0 <= i < |index| && index[i] == tx.nonce;
      assert t[i] == tx;
    }
  }

  lemma StrictlySorted(index: seq<nat>, keys: set<nat>)
    requires multiset(index) == multiset(keys) && SortedBy(index, Itself)
    ensures forall i, j :: 0 <= i < j < |index| ==> index[i] < index[j]
  {
    forall i, j | 0 <= i < j < |index|
      ensures index[i] < index[j]
    {
      assert Itself(index[i]) <= Itself(index[j]);
      CountedTwice(index, i, j);
    }
  }

  lemma CountedTwice<T>(s: seq<T>, i: nat, j: nat)
    requires i < j < |s|
    ensures s[i] == s[j] ==> multiset(s)[s[i]] >= 2
  {
    assert s == s[..j] + s[j..];
    assert s[i] in multiset(s[..j]) && s[j] in multiset(s[j..]);
  }

  lemma FirstNonces(index: seq<nat>, items: map<nat, Tx>, s: seq<Tx>)
    requires Flattens(items, s) && |index| == |s| && forall i :: 0 <= i < |s| ==> index[i] == s[i].nonce
    ensures multiset(index) == multiset(items.Keys)
  {
    forall i | 0 <= i < |index|
      ensures index[i] in items
    {
      assert s[i].nonce in items;
    }
    forall n: nat
      ensures multiset(index)[n] == multiset(items.Keys)[n]
    {
      if n in items {
        FlattenNonce(items, s, n);
        var i :| 0 <= i < |s| && s[i] == items[n];
        OnceOnly(index, i);
      }
    }
  }

  lemma OnceOnly(index: seq<nat>, i: nat)
    requires i < |index| && forall j, k :: 0 <= j < k < |index| ==> index[j] < index[k]
    ensures multiset(index)[index[i]] == 1
  {
    assert index == index[..i] + ([index[i]] + index[i + 1..]);
    assert index[i] !in index[..i] && index[i] !in index[i + 1..];
  }

  lemma HeapIndexes(index: seq<nat>, items: map<nat, Tx>)
    requires IsHeap(index, Itself) && multiset(index) == multiset(items.Keys)
    ensures Indexes(index, items)
  {
  }

  lemma NonceListed(items: map<nat, Tx>, s: seq<Tx>, nonce: nat)
    requires Flattens(items, s)
    ensures nonce in items <==> exists tx :: tx in s && tx.nonce == nonce
  {
    if nonce in items {
      FlattenNonce(items, s, nonce);
    }
    forall tx | tx in s && tx.nonce == nonce
      ensures nonce in items
    {
      ItemListed(items, s, tx);
    }
  }

  lemma SelectOthers(items: map<nat, Tx>, s: seq<Tx>, nonce: nat)
    requires Flattens(items, s)
    ensures Flattens(items - {nonce}, Select(s, Not(With(nonce))))
    ensures nonce !in items ==> Select(s, Not(With(nonce))) == s
  {
    hide Flattens, Select;
    forall n: nat | n in items
      ensures items[n].nonce == n
    {
      FlattenNonce(items, s, n);
    }
    FilterFlattens(items, s, items - {nonce}, With(nonce));
    if nonce !in items {
      assert items - {nonce} == items;
      FlattensOnce(items, s, Select(s, Not(With(nonce))));
    }
  }

  lemma {:induction false} RunLengthIs(s: seq<Tx>, k: nat)
    requires 1 <= k <= |s| && forall i :: 0 <= i < k ==> s[i].nonce == s[0].nonce + i
    requires k < |s| ==> s[k].nonce != s[0].nonce + k
    ensures RunLength(s) == k
  {
    if k > 1 {
      assert s[1].nonce == s[0].nonce + 1;
      var t := s[1..];
      assert forall i :: 0 <= i < |t| ==> t[i] == s[i + 1];
      RunLengthIs(t, k - 1);
    }
  }

  lemma SortedFlattens(items: map<nat, Tx>, s: seq<Tx>, all: seq<Tx>, sorted: seq<Tx>)
    requires Flattens(items, s) && multiset(sorted) == multiset(all) && SortedBy(sorted, NonceOf)
    requires forall i :: 0 <= i < |all| ==> all[i].nonce in items && items[all[i].nonce] == all[i]
    requires forall n: nat :: n in items ==> items[n] in all
    requires forall i, j :: 0 <= i < j < |all| ==> all[i].nonce != all[j].nonce
    ensures sorted == s
  {
    SortedAscends(all, sorted);
    forall tx
      ensures tx in sorted <==> tx in s
    {
      ItemListed(items, s, tx);
      assert tx in sorted <==> tx in multiset(all);
    }
    AscendingUnique(sorted, s);
  }

  lemma SortedAscends(all: seq<Tx>, sorted: seq<Tx>)
    requires multiset(sorted) == multiset(all) && SortedBy(sorted, NonceOf)
    requires forall i, j :: 0 <= i < j < |all| ==> all[i].nonce != all[j].nonce
    ensures Ascending(sorted)
  {
    forall i, j | 0 <= i < j < |sorted|
      ensures sorted[i].nonce < sorted[j].nonce
    {
      assert NonceOf(sorted[i]) <= NonceOf(sorted[j]);
      DistinctPair(all, sorted, i, j);
    }
  }

  lemma DistinctPair(all: seq<Tx>, sorted: seq<Tx>, i: nat, j: nat)
    requires multiset(sorted) == multiset(all) && i < j < |sorted|
    requires forall i, j :: 0 <= i < j < |all| ==> all[i].nonce != all[j].nonce
    ensures sorted[i].nonce != sorted[j].nonce
  {
    assert sorted[i] in multiset(all) && sorted[j] in multiset(all);
    var k :| 0 <= k < |all| && all[k] == sorted[i];
    var l :| 0 <= l < |all| && all[l] == sorted[j];
    CountedTwice(sorted, i, j);
    OnceAmong(all, k);
  }

  lemma OnceAmong(all: seq<Tx>, k: nat)
    requires k < |all| && forall i, j :: 0 <= i < j < |all| ==> all[i].nonce != all[j].nonce
    ensures multiset(all)[all[k]] == 1
  {
    assert all == all[..k] + ([all[k]] + all[k + 1..]);
    assert all[k] !in all[..k] && all[k] !in all[k + 1..];
  }
}
