/** The sum of all balances of a state, which value transfers do not change. */
module Balances {
  import opened Wrappers
  import opened StateObjects
  import opened Journals
  import opened StateRevert
  import opened StateDatabase

  ghost function Sum(m: map<Address, int>): int
    decreases |m|
  {
    if m == map[] then 0
    else
      var a :| a in m;
      m[a] + Sum(m - {a})
  }

  lemma Smaller(m: map<Address, int>, a: Address)
    requires a in m
    ensures |m - {a}| < |m|
  {
    assert (m - {a}).Keys == m.Keys - {a};
  }

  /** Any account may be counted first. */
  lemma {:induction false} SumWithout(m: map<Address, int>, a: Address)
    requires a in m
    ensures Sum(m) == m[a] + Sum(m - {a})
    decreases |m|
  {
    var b :| b in m && Sum(m) == m[b] + Sum(m - {b});
    if b != a {
      Smaller(m, a);
      Smaller(m, b);
      SumWithout(m - {b}, a);
      SumWithout(m - {a}, b);
      assert m - {b} - {a} == m - {a} - {b};
    }
  }

  function BalanceIn(m: map<Address, int>, a: Address): int {
    if a in m then m[a] else 0
  }

  /** The sum depends on the balances alone, not on who is listed with none. */
  lemma {:induction false} SumSame(m: map<Address, int>, n: map<Address, int>)
    requires forall a :: BalanceIn(m, a) == BalanceIn(n, a)
    ensures Sum(m) == Sum(n)
    decreases |m| + |n|
  {
    if m != map[] || n != map[] {
      var a :| a in m || a in n;
      SumAside(m, a);
      SumAside(n, a);
      assert BalanceIn(m, a) == BalanceIn(n, a);
      DropBoth(m, n, a);
      SmallerTogether(m, n, a);
      SumSame(m - {a}, n - {a});
    }
  }

  lemma SmallerTogether(m: map<Address, int>, n: map<Address, int>, a: Address)
    requires a in m || a in n
    ensures |m - {a}| + |n - {a}| < |m| + |n|
  {
    SumAside(m, a);
    SumAside(n, a);
    if a in m {
      Smaller(m, a);
    } else {
      Smaller(n, a);
    }
  }

  /** One account counted apart. */
  lemma SumAside(n: map<Address, int>, a: Address)
    ensures Sum(n) == BalanceIn(n, a) + Sum(n - {a})
    ensures |n - {a}| <= |n|
  {
    if a in n {
      SumWithout(n, a);
      Smaller(n, a);
    } else {
      assert n - {a} == n;
    }
  }

  lemma DropBoth(m: map<Address, int>, n: map<Address, int>, a: Address)
    requires forall b :: BalanceIn(m, b) == BalanceIn(n, b)
    ensures forall b :: BalanceIn(m - {a}, b) == BalanceIn(n - {a}, b)
  {
    forall b
      ensures BalanceIn(m - {a}, b) == BalanceIn(n - {a}, b)
    {
      assert BalanceIn(m, b) == BalanceIn(n, b);
    }
  }

  lemma SumShift(m: map<Address, int>, n: map<Address, int>, a: Address, d: int)
    requires forall b :: BalanceIn(n, b) == BalanceIn(m, b) + if b == a then d else 0
    ensures Sum(n) == Sum(m) + d
  {
    SumAside(m, a);
    SumAside(n, a);
    forall b
      ensures BalanceIn(n - {a}, b) == BalanceIn(m - {a}, b)
    {
      assert BalanceIn(n, b) == BalanceIn(m, b) + if b == a then d else 0;
    }
    SumSame(n - {a}, m - {a});
    assert BalanceIn(n, a) == BalanceIn(m, a) + d;
  }

  function BalancesOf(s: State): map<Address, int> {
    map a | a in s.objects.Keys + s.trie.Keys && Live(s, a).Some? :: Live(s, a).value.data.balance
  }

  ghost function Total(s: State): int {
    Sum(BalancesOf(s))
  }

  lemma BalanceAt(s: State, a: Address)
    ensures BalanceIn(BalancesOf(s), a) == BalanceOf(s, a)
  {
  }

  /** One account's balance moved by d; nobody's nonce, and nobody committed suicide. */
  ghost predicate Moved(s: State, t: State, a: Address, d: int) {
    && (forall b :: BalanceOf(t, b) == BalanceOf(s, b) + if b == a then d else 0)
    && (forall b :: NonceOf(t, b) == NonceOf(s, b))
    && (NobodyLeft(s) ==> NobodyLeft(t))
  }

  ghost predicate NobodyLeft(s: State) {
    forall a :: Live(s, a).Some? ==> !Live(s, a).value.suicided
  }

  lemma MovedTotal(s: State, t: State, a: Address, d: int)
    requires Moved(s, t, a, d)
    ensures Total(t) == Total(s) + d
  {
    forall b
      ensures BalanceIn(BalancesOf(t), b) == BalanceIn(BalancesOf(s), b) + if b == a then d else 0
    {
      BalanceAt(s, b);
      BalanceAt(t, b);
      assert BalanceOf(t, b) == BalanceOf(s, b) + if b == a then d else 0;
    }
    SumShift(BalancesOf(s), BalancesOf(t), a, d);
  }

  lemma SameTotal(s: State, t: State)
    requires forall a :: BalanceOf(s, a) == BalanceOf(t, a)
    ensures Total(s) == Total(t)
  {
    forall b
      ensures BalanceIn(BalancesOf(s), b) == BalanceIn(BalancesOf(t), b)
    {
      BalanceAt(s, b);
      BalanceAt(t, b);
    }
    SumSame(BalancesOf(s), BalancesOf(t));
  }

  lemma PutMoves(cs: CodeStore, s: State, a: Address, d: int)
    requires Sound(s)
    ensures Moved(s, Put(s, WithBalance(OrNew(cs, s, a), OrNew(cs, s, a).data.balance + d)), a, d)
  {
    LiveIsCoherent(s, a);
    var obj := WithBalance(OrNew(cs, s, a), OrNew(cs, s, a).data.balance + d);
    forall b {
      LivePut(s, obj, b);
    }
  }

  /** The accounts that leave at the end of the transaction have no balance to lose. */
  ghost predicate LeaveNothing(s: State, dirty: set<Address>) {
    forall a :: a in dirty && a in s.objects && s.objects[a].suicided ==> s.objects[a].data.balance == 0
  }

  /** Ending a transaction changes no balance exactly if those who committed suicide have
      none, which then keeps the sum. */
  lemma FinaliseKeepsBalances(cs: CodeStore, deleteEmpty: bool, s: State, t: State, dirty: set<Address>)
    requires FinalisedAll(cs, deleteEmpty, s, t, dirty)
    requires forall a :: a in dirty && a in s.objects ==> !s.objects[a].deleted
    ensures (forall a :: BalanceOf(t, a) == BalanceOf(s, a)) <==> LeaveNothing(s, dirty)
    ensures LeaveNothing(s, dirty) ==> Total(t) == Total(s)
  {
    forall a
      ensures BalanceOf(t, a) == if a in dirty && a in s.objects && s.objects[a].suicided then 0 else BalanceOf(s, a)
    {
      FinalisedBalance(cs, deleteEmpty, s, t, dirty, a);
    }
    if LeaveNothing(s, dirty) {
      forall a
        ensures BalanceOf(t, a) == BalanceOf(s, a)
      {
      }
      SameTotal(s, t);
    } else {
      var a :| a in dirty && a in s.objects && s.objects[a].suicided && s.objects[a].data.balance != 0;
      assert BalanceOf(t, a) == 0 && BalanceOf(s, a) != 0;
    }
  }

  lemma FinalisedBalance(cs: CodeStore, deleteEmpty: bool, s: State, t: State, dirty: set<Address>, a: Address)
    requires FinalisedAll(cs, deleteEmpty, s, t, dirty)
    requires a in dirty && a in s.objects ==> !s.objects[a].deleted
    ensures BalanceOf(t, a) == if a in dirty && a in s.objects && s.objects[a].suicided then 0 else BalanceOf(s, a)
    ensures NobodyLeft(s) && Live(t, a).Some? ==> !Live(t, a).value.suicided
  {
    if a in dirty && a in s.objects {
      assert Finalised(cs, deleteEmpty, s.objects[a], Live(t, a), Lookup(t.trie, a));
      assert Live(s, a) == Some(s.objects[a]);
    } else {
      assert Lookup(t.objects, a) == Lookup(s.objects, a) && Lookup(t.trie, a) == Lookup(s.trie, a);
      assert Live(t, a) == Live(s, a);
    }
  }

  /** An account with a nonce stays, so without suicides the end of a transaction changes no
      nonce either. */
  lemma FinaliseKeepsNonces(cs: CodeStore, deleteEmpty: bool, s: State, t: State, dirty: set<Address>)
    requires FinalisedAll(cs, deleteEmpty, s, t, dirty) && NobodyLeft(s)
    requires forall a :: a in dirty && a in s.objects ==> !s.objects[a].deleted
    ensures forall a :: NonceOf(t, a) == NonceOf(s, a)
  {
    FinalisedMeans(cs, deleteEmpty, s, t, dirty);
    forall a
      ensures NonceOf(t, a) == NonceOf(s, a)
    {
      if a in dirty && a in s.objects {
        assert Live(s, a) == Some(s.objects[a]);
      }
    }
  }

  /** If nobody has committed suicide, nobody loses anything. */
  lemma NobodyLeaves(cs: CodeStore, deleteEmpty: bool, s: State, t: State, dirty: set<Address>)
    requires FinalisedAll(cs, deleteEmpty, s, t, dirty) && NobodyLeft(s)
    requires forall a :: a in dirty && a in s.objects ==> !s.objects[a].deleted
    ensures LeaveNothing(s, dirty) && NobodyLeft(t)
  {
    forall a | a in dirty && a in s.objects
      ensures !s.objects[a].suicided
    {
      assert Live(s, a) == Some(s.objects[a]);
    }
    forall a | Live(t, a).Some?
      ensures !Live(t, a).value.suicided
    {
      FinalisedBalance(cs, deleteEmpty, s, t, dirty, a);
    }
  }

  // ----- steps in a row -----

  ghost predicate SameAccounts(s: State, t: State) {
    forall b :: Live(t, b) == Live(s, b)
  }

  /** One account's nonce went up by one; no balance moved. */
  ghost predicate Bumped(s: State, t: State, a: Address) {
    && (forall b :: BalanceOf(t, b) == BalanceOf(s, b))
    && (forall b :: NonceOf(t, b) == NonceOf(s, b) + if b == a then 1 else 0)
    && (NobodyLeft(s) ==> NobodyLeft(t))
  }

  lemma MovedAfterSame(s: State, s': State, t: State, a: Address, d: int)
    requires SameAccounts(s, s') && Moved(s', t, a, d)
    ensures Moved(s, t, a, d)
  {
    forall b
      ensures BalanceOf(s', b) == BalanceOf(s, b) && NonceOf(s', b) == NonceOf(s, b)
    {
      assert Live(s', b) == Live(s, b);
    }
    if NobodyLeft(s) {
      forall b | Live(s', b).Some?
        ensures !Live(s', b).value.suicided
      {
        assert Live(s', b) == Live(s, b);
      }
    }
  }

  lemma PutBumps(cs: CodeStore, s: State, s': State, a: Address)
    requires SameAccounts(s, s') && Sound(s')
    ensures var o := OrNew(cs, s', a);
            Bumped(s, Put(s', o.(data := o.data.(nonce := NonceOf(s, a) + 1))), a)
  {
    LiveIsCoherent(s', a);
    var o := OrNew(cs, s', a);
    var obj := o.(data := o.data.(nonce := NonceOf(s, a) + 1));
    forall b
      ensures BalanceOf(Put(s', obj), b) == BalanceOf(s, b)
      ensures NonceOf(Put(s', obj), b) == NonceOf(s, b) + if b == a then 1 else 0
      ensures NobodyLeft(s) && Live(Put(s', obj), b).Some? ==> !Live(Put(s', obj), b).value.suicided
    {
      LivePut(s', obj, b);
      assert Live(s', b) == Live(s, b) && Live(s', a) == Live(s, a);
    }
  }

  /** Creating an account that is not there changes no balance. */
  lemma CreateMoves(cs: CodeStore, s: State, a: Address)
    requires Sound(s) && Live(s, a).None?
    ensures Moved(s, Put(s, NewObject(a, cs.EmptyAccount())), a, 0)
  {
    var obj := NewObject(a, cs.EmptyAccount());
    forall b {
      LivePut(s, obj, b);
    }
  }

  lemma NothingMoved(s: State, t: State, a: Address)
    requires SameAccounts(s, t)
    ensures Moved(s, t, a, 0)
  {
    MovedAfterSame(s, t, t, a, 0);
  }
}
