/** The price and nonce merge: one heap of every account's next transaction, by price. */
module PriceMerge {
  import opened Wrappers
  import opened Heap
  import opened Transactions

  /** Highest price first. */
  function PriceKey(tx: Tx): int {
    0 - tx.price
  }

  /** Every account listed has something left, all of it its own. */
  predicate Owned(pending: Accounts) {
    forall a :: a in pending ==> |pending[a]| > 0 && forall i :: 0 <= i < |pending[a]| ==> pending[a][i].sender == a
  }

  function HeadsOf(pending: Accounts): set<Tx>
    requires Owned(pending)
  {
    set a | a in pending :: pending[a][0]
  }

  /** What is left when an account's next transaction is done with. */
  function Shifted(pending: Accounts, a: Address): Accounts
    requires a in pending && |pending[a]| > 0
  {
    if |pending[a]| == 1 then pending - {a} else pending[a := pending[a][1..]]
  }

  lemma ShiftedHeads(pending: Accounts, a: Address)
    requires Owned(pending) && a in pending
    ensures Owned(Shifted(pending, a))
    ensures multiset(HeadsOf(Shifted(pending, a))) ==
            multiset(HeadsOf(pending)) - multiset{pending[a][0]} + if |pending[a]| == 1 then multiset{} else multiset{pending[a][1]}
  {
    var next := Shifted(pending, a);
    assert pending[a][0] in HeadsOf(pending);
    RemovedHeads(pending, a);
    if |pending[a]| > 1 {
      AddedHeads(pending - {a}, a, pending[a][1..]);
      assert next == (pending - {a})[a := pending[a][1..]];
    }
  }

  lemma RemovedHeads(pending: Accounts, a: Address)
    requires Owned(pending) && a in pending
    ensures Owned(pending - {a})
    ensures multiset(HeadsOf(pending - {a})) == multiset(HeadsOf(pending)) - multiset{pending[a][0]}
  {
    var rest := pending - {a};
    assert HeadsOf(pending) == HeadsOf(rest) + {pending[a][0]} by {
      forall tx | tx in HeadsOf(rest)
        ensures tx in HeadsOf(pending)
      {
        var b :| b in rest && rest[b][0] == tx;
        assert b in pending && pending[b][0] == tx;
      }
      forall tx | tx in HeadsOf(pending) && tx != pending[a][0]
        ensures tx in HeadsOf(rest)
      {
        var b :| b in pending && pending[b][0] == tx;
        assert b in rest && rest[b][0] == tx;
      }
    }
    assert pending[a][0] !in HeadsOf(rest);
  }

  lemma SomeHead(pending: Accounts)
    requires Owned(pending)
    ensures pending != map[] ==> |HeadsOf(pending)| > 0
  {
    if pending != map[] {
      var a :| a in pending;
      assert pending[a][0] in HeadsOf(pending);
    }
  }

  lemma AddedHeads(rest: Accounts, a: Address, list: seq<Tx>)
    requires Owned(rest) && a !in rest && |list| > 0 && forall i :: 0 <= i < |list| ==> list[i].sender == a
    ensures Owned(rest[a := list])
    ensures multiset(HeadsOf(rest[a := list])) == multiset(HeadsOf(rest)) + multiset{list[0]}
  {
    var pending := rest[a := list];
    RemovedHeads(pending, a);
    assert pending - {a} == rest;
    assert list[0] in HeadsOf(pending) by {
      assert pending[a][0] == list[0];
    }
  }

  class TransactionsByPriceAndNonce {
    var txs: Accounts
    var heads: seq<Tx>
    /** What each account has left, its head first. */
    ghost var pending: Accounts

    ghost predicate Valid()
      reads this
    {
      && Owned(pending)
      && IsHeap(heads, PriceKey) && multiset(heads) == multiset(HeadsOf(pending))
      && forall a :: a in pending ==> a in txs && txs[a] == pending[a][1..]
    }

    constructor (accounts: Accounts)
      requires Owned(accounts)
      ensures Valid() && pending == accounts
    {
      var hs: seq<Tx> := [];
      var lists: Accounts := accounts;
      var rest := accounts.Keys;
      ghost var done: Accounts := map[];
      while rest != {}
        invariant rest <= accounts.Keys && done.Keys == accounts.Keys - rest && lists.Keys == accounts.Keys
        invariant forall a :: a in done ==> done[a] == accounts[a] && lists[a] == accounts[a][1..]
        invariant forall a :: a in rest ==> lists[a] == accounts[a]
        invariant Owned(done) && multiset(hs) == multiset(HeadsOf(done))
        decreases rest
      {
        var from :| from in rest;
        rest := rest - {from};
        AddedHeads(done, from, accounts[from]);
        done := done[from := accounts[from]];
        hs := hs + [lists[from][0]];
        lists := lists[from := lists[from][1..]];
      }
      assert done == accounts;
      hs := Init(hs, PriceKey);
      txs, heads, pending := lists, hs, accounts;
    }

    /** Peek: the next transaction of some account, at least as dear as all the others'. */
    method Peek() returns (tx: Option<Tx>)
      requires Valid()
      ensures tx.None? <==> pending == map[]
      ensures tx.Some? ==> |heads| > 0 && tx.value == heads[0] && NextOf(pending, tx.value)
    {
      if |heads| == 0 {
        assert |multiset(HeadsOf(pending))| == 0;
        SomeHead(pending);
        return None;
      }
      HeadIsNext();
      return Some(heads[0]);
    }

    lemma HeadIsNext()
      requires Valid() && |heads| > 0
      ensures NextOf(pending, heads[0])
    {
      assert heads[0] in multiset(heads);
      forall b | b in pending
        ensures pending[b][0].price <= heads[0].price
      {
        assert pending[b][0] in multiset(heads);
        var j :| 0 <= j < |heads| && heads[j] == pending[b][0];
        RootIsLeast(heads, PriceKey, j);
      }
    }

    /** Shift: the account moves on to its next transaction. */
    method Shift()
      requires Valid() && |heads| > 0
      modifies this
      ensures Valid() && pending == After(old(pending), old(heads[0]))
    {
      hide IsHeap, HeadsOf, Owned;
      HeadIsNext();
      HeadOwned(pending, txs, heads[0]);
      var acc := heads[0].sender;
      ShiftedHeads(pending, acc);
      ghost var before := heads;
      if acc in txs && |txs[acc]| > 0 {
        heads := heads[0 := txs[acc][0]];
        txs := txs[acc := txs[acc][1..]];
        Replaced(before, PriceKey, heads, 0);
        heads := Fix(heads, PriceKey, 0);
      } else {
        var gone;
        heads, gone := Heap.Pop(heads, PriceKey);
        assert multiset(heads) == multiset(before) - multiset{gone};
      }
      pending := Shifted(pending, acc);
    }

    /** Pop: the account's remaining transactions are all out. */
    method Pop()
      requires Valid() && |heads| > 0
      modifies this
      ensures Valid() && pending == old(pending) - {old(heads[0]).sender}
    {
      hide IsHeap;
      HeadIsNext();
      RemovedHeads(pending, heads[0].sender);
      ghost var before := heads;
      pending := pending - {heads[0].sender};
      var gone;
      heads, gone := Heap.Pop(heads, PriceKey);
      assert multiset(heads) == multiset(before) - multiset{gone};
    }

    /** Peek and Shift until nothing is left: the transactions of each account in order,
        none lost or repeated, always a dearest head first. */
    method Drain() returns (out: seq<Tx>)
      requires Valid()
      modifies this
      ensures Valid() && pending == map[]
      ensures forall a :: OfSender(out, a) == Left(old(pending), a)
      ensures Emits(old(pending), out)
    {
      hide Owned, HeadsOf, Emits, Accounted, NextOf;
      ghost var all := pending;
      out := [];
      NothingEmitted(all);
      while true
        invariant Valid() && Accounted(all, out, pending) && Emits(all, out) && pending == StateAt(all, out, |out|)
        decreases Places(pending)
      {
        var tx := Peek();
        if tx.None? {
          break;
        }
        NextIsListed(pending, tx.value);
        ShiftShrinks(pending, tx.value.sender);
        Emitted(all, out, pending, tx.value);
        Shift();
        out := out + [tx.value];
      }
      AllEmitted(all, out);
    }
  }

  /** Each transaction, when emitted, is a dearest head of what is left then. */
  ghost predicate Emits(all: Accounts, out: seq<Tx>) {
    forall i :: 0 <= i < |out| ==> NextOf(StateAt(all, out, i), out[i])
  }

  /** What was emitted of an account and what it has left make up its list. */
  ghost predicate Accounted(all: Accounts, out: seq<Tx>, pending: Accounts) {
    forall a :: OfSender(out, a) + Left(pending, a) == Left(all, a)
  }

  lemma NothingEmitted(all: Accounts)
    ensures Accounted(all, [], all) && Emits(all, [])
  {
  }

  lemma AllEmitted(all: Accounts, out: seq<Tx>)
    requires Accounted(all, out, map[])
    ensures forall a :: OfSender(out, a) == Left(all, a)
  {
    forall a
      ensures OfSender(out, a) == Left(all, a)
    {
      assert OfSender(out, a) + Left(map[], a) == Left(all, a);
    }
  }

  lemma NextIsListed(pending: Accounts, tx: Tx)
    requires NextOf(pending, tx)
    ensures tx.sender in pending && |pending[tx.sender]| > 0
  {
  }

  lemma HeadOwned(pending: Accounts, txs: Accounts, tx: Tx)
    requires NextOf(pending, tx) && tx.sender in txs && txs[tx.sender] == pending[tx.sender][1..]
    ensures |txs[tx.sender]| == |pending[tx.sender]| - 1
    ensures |txs[tx.sender]| > 0 ==> txs[tx.sender][0] == pending[tx.sender][1] && txs[tx.sender][1..] == pending[tx.sender][1..][1..]
  {
  }

  /** The transaction is its account's next, and no account's next costs more. */
  ghost predicate NextOf(pending: Accounts, tx: Tx) {
    && tx.sender in pending && |pending[tx.sender]| > 0 && pending[tx.sender][0] == tx
    && forall b :: b in pending && |pending[b]| > 0 ==> pending[b][0].price <= tx.price
  }

  function After(pending: Accounts, tx: Tx): Accounts {
    if tx.sender in pending && |pending[tx.sender]| > 0 then Shifted(pending, tx.sender) else pending
  }

  /** What is left after the first k transactions have been emitted. */
  function StateAt(pending: Accounts, out: seq<Tx>, k: nat): Accounts
    requires k <= |out|
  {
    if k == 0 then pending else After(StateAt(pending, out, k - 1), out[k - 1])
  }

  lemma {:induction false} StateAtPrefix(pending: Accounts, out: seq<Tx>, tx: Tx, k: nat)
    requires k <= |out|
    ensures StateAt(pending, out + [tx], k) == StateAt(pending, out, k)
  {
    if k > 0 {
      StateAtPrefix(pending, out, tx, k - 1);
    }
  }

  function OfSender(out: seq<Tx>, a: Address): seq<Tx> {
    if |out| == 0 then []
    else OfSender(out[..|out| - 1], a) + if out[|out| - 1].sender == a then [out[|out| - 1]] else []
  }

  lemma Emitted(all: Accounts, out: seq<Tx>, pending: Accounts, tx: Tx)
    requires NextOf(pending, tx) && pending == StateAt(all, out, |out|)
    requires Accounted(all, out, pending) && Emits(all, out)
    ensures var out' := out + [tx];
            && Accounted(all, out', Shifted(pending, tx.sender)) && Emits(all, out')
            && StateAt(all, out', |out'|) == Shifted(pending, tx.sender)
  {
    hide Emits, Accounted, NextOf, Shifted;
    NextIsListed(pending, tx);
    EmittedAccounts(all, out, pending, tx);
    EmittedNext(all, out, pending, tx);
  }

  lemma EmittedAccounts(all: Accounts, out: seq<Tx>, pending: Accounts, tx: Tx)
    requires NextOf(pending, tx) && Accounted(all, out, pending)
    ensures Accounted(all, out + [tx], Shifted(pending, tx.sender))
  {
    hide OfSender, Left, Shifted, NextOf;
    NextIsListed(pending, tx);
    forall a
      ensures OfSender(out + [tx], a) + Left(Shifted(pending, tx.sender), a) == Left(all, a)
    {
      EmittedAccount(out, pending, tx, a);
    }
  }

  lemma EmittedAccount(out: seq<Tx>, pending: Accounts, tx: Tx, a: Address)
    requires NextOf(pending, tx)
    ensures OfSender(out + [tx], a) + Left(Shifted(pending, tx.sender), a) == OfSender(out, a) + Left(pending, a)
  {
    OfSenderSnoc(out, tx, a);
    LeftShifted(pending, tx, a);
    var own, rest := if a == tx.sender then [tx] else [], Left(Shifted(pending, tx.sender), a);
    assert OfSender(out, a) + own + rest == OfSender(out, a) + (own + rest);
  }

  lemma OfSenderSnoc(out: seq<Tx>, tx: Tx, a: Address)
    ensures OfSender(out + [tx], a) == OfSender(out, a) + if a == tx.sender then [tx] else []
  {
    assert (out + [tx])[..|out|] == out;
  }

  lemma LeftShifted(pending: Accounts, tx: Tx, a: Address)
    requires NextOf(pending, tx)
    ensures Left(pending, a) == (if a == tx.sender then [tx] else []) + Left(Shifted(pending, tx.sender), a)
  {
    if a == tx.sender {
      assert pending[a] == [tx] + pending[a][1..];
    }
  }

  lemma EmittedNext(all: Accounts, out: seq<Tx>, pending: Accounts, tx: Tx)
    requires NextOf(pending, tx) && pending == StateAt(all, out, |out|) && Emits(all, out)
    ensures var out' := out + [tx];
            Emits(all, out') && tx.sender in pending && |pending[tx.sender]| > 0 && StateAt(all, out', |out'|) == Shifted(pending, tx.sender)
  {
    hide StateAt, NextOf, Shifted;
    var out' := out + [tx];
    NextIsListed(pending, tx);
    StateAtEnd(all, out, tx);
    forall i | 0 <= i < |out'|
      ensures NextOf(StateAt(all, out', i), out'[i])
    {
      StateAtPrefix(all, out, tx, i);
      assert i < |out| ==> NextOf(StateAt(all, out, i), out[i]);
    }
  }

  lemma StateAtEnd(all: Accounts, out: seq<Tx>, tx: Tx)
    ensures StateAt(all, out + [tx], |out| + 1) == After(StateAt(all, out, |out|), tx)
  {
    StateAtPrefix(all, out, tx, |out|);
  }

  lemma ShiftShrinks(pending: Accounts, a: Address)
    requires a in pending && |pending[a]| > 0
    ensures Places(Shifted(pending, a)) < Places(pending)
  {
    var n := |pending[a]|;
    assert (a, n - 1) in Places(pending) && (a, n - 1) !in Places(Shifted(pending, a));
  }
}
