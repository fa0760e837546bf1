/** What the pool holds can be paid for: the price of all its gas and the value fit the
    sender's balance. And what can be paid for is not dropped for want of funds. */
module PoolFunds {
  import opened Wrappers
  import opened Transactions
  import opened TxPartition
  import opened TxLists
  import opened PoolFairness
  import opened PoolSteps

  /** The balance pays for all the gas and the value, and the gas fits a block. */
  predicate Affords(x: Tx, balance: nat, maxGas: nat) {
    x.price * x.gas + x.value <= balance && x.gas <= maxGas
  }

  lemma ExceedingMeans(balance: nat, maxGas: nat)
    ensures forall x :: Meets(x, Exceeding(balance, maxGas)) <==> !Affords(x, balance, maxGas)
  {
  }

  /** The account can still send the transaction, and pay for it. */
  predicate Covered(t: PoolRules, a: Address, x: Tx) {
    NonceAt(t.stateNonces, a) <= x.nonce && Affords(x, NonceAt(t.balances, a), t.maxGas)
  }

  ghost predicate AllCovered(t: PoolRules, v: PoolView) {
    forall x :: IsPlaced(v, x) ==> Covered(t, x.sender, x)
  }

  ghost predicate KnownCovered(t: PoolRules, all: All) {
    forall x :: Known(all, x) ==> Covered(t, x.sender, x)
  }

  lemma PlacedCovered(t: PoolRules, v: PoolView, all: All)
    requires forall x :: Known(all, x) <==> IsPlaced(v, x)
    ensures KnownCovered(t, all) <==> AllCovered(t, v)
  {
  }

  /** Nothing is in the lists that was not there before. */
  ghost predicate Within(was: PoolView, now: PoolView) {
    forall x :: IsPlaced(now, x) ==> IsPlaced(was, x)
  }

  lemma NothingAdded(v: PoolView)
    ensures Within(v, v)
  {
  }

  lemma WithinTwice(u: PoolView, v: PoolView, w: PoolView)
    requires Within(u, v) && Within(v, w)
    ensures Within(u, w)
  {
  }

  lemma WithinCovered(t: PoolRules, was: PoolView, now: PoolView)
    requires AllCovered(t, was) && Within(was, now)
    ensures AllCovered(t, now)
  {
  }

  /** One more, admitted; local accounts have no credit. */
  lemma OneMoreCovered(t: PoolRules, t': PoolRules, was: All, now: All, tx: Tx)
    requires KnownCovered(t, was) && Covered(t, tx.sender, tx) && forall x :: Known(now, x) ==> x == tx || Known(was, x)
    requires t'.stateNonces == t.stateNonces && t'.balances == t.balances && t'.maxGas == t.maxGas
    ensures KnownCovered(t', now)
  {
  }

  /** The conditions of admission, in the transaction's own terms. */
  lemma MayEnterMeans(t: PoolRules, gasPrice: nat, tx: Tx, local: bool)
    ensures MayEnter(t, gasPrice, tx, local) <==>
      && Covered(t, tx.sender, tx) && tx.nonce <= MAX_UINT64
      && (tx.price >= gasPrice || local || tx.sender in t.locals)
  {
  }

  /** Of a batch only what is covered was accepted, and it was not refused for its own sake
      unless its sender cannot pay or it pays too little. */
  predicate Screened(t: PoolRules, gasPrice: nat, txs: seq<Tx>, local: bool, verdicts: seq<Verdict>, results: seq<AddResult>) {
    && |results| <= |txs| == |verdicts|
    && forall i :: 0 <= i < |results| ==> ScreenedAs(t, gasPrice, txs[i], local, verdicts[i].malformed, results[i])
  }

  predicate ScreenedAs(t: PoolRules, gasPrice: nat, tx: Tx, local: bool, malformed: bool, r: AddResult) {
    && (r.Added? ==> Covered(t, tx.sender, tx) && !malformed && tx.nonce <= MAX_UINT64)
    && (r.Added? && !local && tx.sender !in t.locals ==> tx.price >= gasPrice)
    && (r == Invalid && !malformed && tx.nonce <= MAX_UINT64 && Covered(t, tx.sender, tx) ==>
          !local && tx.sender !in t.locals && tx.price < gasPrice)
  }

  lemma NothingScreened(t: PoolRules, gasPrice: nat, txs: seq<Tx>, local: bool, verdicts: seq<Verdict>)
    requires |txs| == |verdicts|
    ensures Screened(t, gasPrice, txs, local, verdicts, [])
  {
  }

  lemma ScreenedNext(t: PoolRules, t': PoolRules, gasPrice: nat, txs: seq<Tx>, local: bool, verdicts: seq<Verdict>,
                     results: seq<AddResult>, r: AddResult)
    requires Screened(t, gasPrice, txs, local, verdicts, results) && |results| < |txs|
    requires t.(locals := t'.locals) == t' && (local || t.locals == t'.locals)
    requires ScreenedAs(t', gasPrice, txs[|results|], local, verdicts[|results|].malformed, r)
    ensures Screened(t, gasPrice, txs, local, verdicts, results + [r])
  {
  }

  // ----- promotion -----

  lemma UsableCovered(t: PoolRules, q: seq<Tx>, a: Address)
    ensures forall x :: x in Usable(q, NonceAt(t.stateNonces, a), NonceAt(t.balances, a), t.maxGas) <==>
                        x in q && Covered(t, a, x)
  {
    hide Select;
    var n, balance := NonceAt(t.stateNonces, a), NonceAt(t.balances, a);
    MeetsNot(Below(n));
    MeetsNot(Exceeding(balance, t.maxGas));
    SelectMembers(q, Not(Below(n)));
    SelectMembers(Select(q, Not(Below(n))), Not(Exceeding(balance, t.maxGas)));
  }

  lemma PartsOf(s: seq<Tx>, k: nat)
    requires k <= |s|
    ensures forall x :: x in s <==> x in s[..k] || x in s[k..]
  {
    assert s == s[..k] + s[k..];
  }

  lemma FirstsIn(s: seq<Tx>, k: nat)
    requires k <= |s|
    ensures forall x :: x in s[..k] ==> x in s
  {
  }

  /** Promotion drops of the queue what the account cannot send or pay for, and of the rest
      only what is too much. */
  lemma PromotedCovered(t: PoolRules, was: PoolView, now: PoolView, a: Address, x: Tx)
    requires Promoted(t, was, now, a)
    ensures x in Left(now.pending, a) || x in Left(now.queue, a) ==>
      x in Left(was.pending, a) || (x in Left(was.queue, a) && Covered(t, a, x))
    ensures x in Left(was.queue, a) && Covered(t, a, x) && (a in t.locals || |Left(now.queue, a)| < t.accountQueue) ==>
      x in Left(now.pending, a) || x in Left(now.queue, a)
    ensures x in Left(was.pending, a) ==> x in Left(now.pending, a)
  {
    hide Usable, ReadyLength, Covered;
    var q := Usable(Left(was.queue, a), NonceAt(t.stateNonces, a), NonceAt(t.balances, a), t.maxGas);
    UsableCovered(t, Left(was.queue, a), a);
    var k := ReadyLength(q, Tracked(was.tracked, t.stateNonces, a));
    PartsOf(q, k);
    if a !in t.locals && |q[k..]| > t.accountQueue {
      FirstsIn(q[k..], t.accountQueue);
    }
  }

  lemma PromotedOrAlike(t: PoolRules, was: PoolView, now: PoolView)
    requires forall a :: Promoted(t, was, now, a) || Alike(t, was, now, a)
    ensures Within(was, now)
  {
    hide Promoted, Covered;
    forall x | IsPlaced(now, x)
      ensures IsPlaced(was, x)
    {
      if Promoted(t, was, now, x.sender) {
        PromotedCovered(t, was, now, x.sender, x);
      } else {
        assert Alike(t, was, now, x.sender);
      }
    }
  }

  lemma SettledPlaced(t: PoolRules, ready: PoolView, now: PoolView, accountSlots: nat, globalSlots: nat, globalQueue: nat)
    requires Settled(t, ready, now, accountSlots, globalSlots, globalQueue)
    ensures Within(ready, now)
  {
    forall x | IsPlaced(now, x)
      ensures IsPlaced(ready, x)
    {
      var a := x.sender;
      assert Left(now.queue, a) <= Left(ready.queue, a);
      if a in now.pending {
        FirstsIn(ready.pending[a], |now.pending[a]|);
      }
    }
  }

  // ----- a new head -----

  /** Demotion drops of the pending list exactly what the account cannot send or pay for any
      more; whatever stays pending it can. */
  lemma DemotedCovered(t: PoolRules, was: PoolView, now: PoolView, a: Address, x: Tx)
    requires Demoted(t, was, now, a) && Ascending(Left(was.pending, a))
    ensures x in Left(now.pending, a) || x in Left(now.queue, a) <==>
      x in Left(was.queue, a) || (x in Left(was.pending, a) && Covered(t, a, x))
    ensures x in Left(now.pending, a) ==> x in Left(was.pending, a) && Covered(t, a, x)
  {
    hide Executable, IsPostponed, Ascending;
    DemotedOrDropped(Left(was.pending, a), NonceAt(t.stateNonces, a), NonceAt(t.balances, a), t.maxGas, x);
  }

  /** After demotion, and promotion of everybody, all is covered, whatever there was. */
  lemma RenewedCovered(t: PoolRules, was: PoolView, mid: PoolView, now: PoolView)
    requires forall a :: Demoted(t, was, mid, a) && Promoted(t, mid, now, a) && Ascending(Left(was.pending, a))
    ensures AllCovered(t, now)
  {
    hide Demoted, Promoted, Covered, Ascending;
    forall x | IsPlaced(now, x)
      ensures Covered(t, x.sender, x)
    {
      PromotedCovered(t, mid, now, x.sender, x);
      DemotedCovered(t, was, mid, x.sender, x);
    }
  }
}
