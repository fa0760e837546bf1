/** The transaction pool: additions and replacements, promotion of what has become
    executable, demotion after a new head, and the limits that keep it fair. */
module TxPools {
  import opened Wrappers
  import opened Transactions
  import opened TxPartition
  import opened TxLists
  import opened PoolFairness
  import opened PoolSteps
  import opened PoolFunds
  import opened PoolReset
  import opened Prques

  class TxPool {
    const globalSlots: nat
    const accountSlots: nat
    const accountQueue: nat
    const globalQueue: nat
    const priceBump: nat
    var pending: Accounts
    var queue: Accounts
    var all: All
    var tracked: map<Address, nat>      // nonces set in pendingState
    var stateNonces: map<Address, nat>  // currentState
    var balances: map<Address, nat>
    var currentMaxGas: nat
    var gasPrice: nat
    var locals: set<Address>
    var beats: map<Address, nat>
    var clock: nat                      // the system time

    ghost predicate Moving(floating: set<Tx>)
      reads this
    {
      Partition(pending, queue, all, floating) && accountSlots > 0
    }

    ghost predicate Valid()
      reads this
    {
      Moving({})
    }

    ghost predicate InRuns()
      reads this
    {
      Contiguous(pending, tracked, stateNonces)
    }

    /** Everything pooled can still be sent, and paid for. */
    ghost predicate Payable()
      reads this
    {
      KnownCovered(Rules(), all)
    }

    constructor (globalSlots: nat, accountSlots: nat, accountQueue: nat, globalQueue: nat, priceBump: nat,
                 stateNonces: map<Address, nat>, balances: map<Address, nat>, maxGas: nat, gasPrice: nat, locals: set<Address>)
      requires accountSlots > 0
      ensures Valid() && InRuns() && Payable() && pending == map[] && queue == map[] && all == map[] && tracked == map[]
      ensures this.globalSlots == globalSlots && this.accountSlots == accountSlots && this.accountQueue == accountQueue
      ensures this.globalQueue == globalQueue && this.priceBump == priceBump
      ensures Rules() == PoolRules(stateNonces, balances, maxGas, locals, accountQueue) && this.gasPrice == gasPrice
    {
      this.globalSlots, this.accountSlots, this.accountQueue := globalSlots, accountSlots, accountQueue;
      this.globalQueue, this.priceBump := globalQueue, priceBump;
      this.stateNonces, this.balances, this.currentMaxGas := stateNonces, balances, maxGas;
      this.gasPrice, this.locals := gasPrice, locals;
      pending, queue, all, tracked, beats, clock := map[], map[], map[], map[], map[], 0;
    }

    function Now(): PoolView
      reads this
    {
      PoolView(pending, queue, tracked, beats)
    }

    function Rules(): PoolRules
      reads this
    {
      PoolRules(stateNonces, balances, currentMaxGas, locals, accountQueue)
    }

    function StateNonce(a: Address): nat
      reads this
    {
      NonceAt(stateNonces, a)
    }

    function PendingNonce(a: Address): nat
      reads this
    {
      Tracked(tracked, stateNonces, a)
    }

    function Balance(a: Address): nat
      reads this
    {
      NonceAt(balances, a)
    }

    predicate Acceptable(tx: Tx, local: bool)
      reads this
    {
      MayEnter(Rules(), gasPrice, tx, local)
    }

    // ----- moving transactions -----

    /** What was taken out of the lists is forgotten. */
    method ForgetAll(gone: seq<Tx>, ghost floating: set<Tx>)
      requires Moving(floating) && (forall i :: 0 <= i < |gone| ==> gone[i] in floating)
      requires forall i, j :: 0 <= i < j < |gone| ==> gone[i] != gone[j]
      modifies `all
      ensures Moving(floating - set tx | tx in gone)
      ensures all == old(all) - set i | 0 <= i < |gone| :: gone[i].hash
    {
      hide Partition;
      ghost var left := floating;
      for i := 0 to |gone|
        invariant left == floating - (set tx | tx in gone[..i]) && Moving(left)
        invariant all == old(all) - set j | 0 <= j < i :: gone[j].hash
      {
        assert gone[i] in left;
        Forget(pending, queue, all, left, gone[i]);
        all := all - {gone[i].hash};
        left := left - {gone[i]};
        assert gone[..i + 1] == gone[..i] + [gone[i]];
      }
      assert gone[..|gone|] == gone;
    }

    /** enqueueTx: into the queue, unless a queued one with the nonce is not outbid. */
    method EnqueueTx(tx: Tx, ghost floating: set<Tx>) returns (inserted: bool, replaced: bool)
      requires Moving(floating)
      requires tx in floating || (tx.hash !in all && forall t :: Known(all, t) && SameSlot(t, tx) ==> t in Left(queue, tx.sender))
      modifies `queue, `all
      ensures Moving(floating - {tx})
      ensures tx in floating ==> inserted && !replaced && all == old(all)
      ensures inserted ==> (replaced <==> exists t :: t in Left(old(queue), tx.sender) && t.nonce == tx.nonce)
      ensures inserted <==> forall t :: t in Left(old(queue), tx.sender) && t.nonce == tx.nonce ==> Outbids(tx, t, priceBump)
      ensures queue == if inserted then WithList(old(queue), tx.sender, Placed(Left(old(queue), tx.sender), tx)) else old(queue)
      ensures inserted ==> Known(all, tx) && forall h :: h in all ==> h in old(all) || h == tx.hash
      ensures inserted && tx !in floating ==>
        forall t :: Known(all, t) <==> t == tx || (Known(old(all), t) && !SameSlot(t, tx))
      ensures !inserted ==> all == old(all)
    {
      hide Partition, Placed, Outbids;
      var list := Left(queue, tx.sender);
      var prior := TxAt(list, tx.nonce);
      QueueFacts(floating, tx);
      if tx !in floating {
        KnownInstead(pending, queue, all, floating, tx, prior);
      }
      if prior.Some? && !Outbids(tx, prior.value, priceBump) {
        UnknownFloats(pending, queue, all, floating, tx);
        assert floating - {tx} == floating;
        return false, false;
      }
      if tx in floating {
        PutQueue(pending, queue, all, floating, tx);
      } else {
        UnknownFloats(pending, queue, all, floating, tx);
        assert floating - {tx} == floating;
        if prior.Some? {
          ReplaceQueued(pending, queue, all, floating, tx, prior.value);
        } else {
          NewQueued(pending, queue, all, floating, tx);
        }
      }
      queue := WithList(queue, tx.sender, Placed(list, tx));
      if prior.Some? {
        all := all - {prior.value.hash};
      }
      if tx.hash !in all {
        all := all[tx.hash := tx];
      }
      return true, prior.Some?;
    }

    /** A queued list has one transaction per nonce, and none for the slot of one floating. */
    lemma QueueFacts(floating: set<Tx>, tx: Tx)
      requires Moving(floating)
      ensures forall x, y :: x in Left(queue, tx.sender) && y in Left(queue, tx.sender) && x.nonce == y.nonce ==> x == y
      ensures tx in floating ==> Known(all, tx) && forall t :: t in Left(queue, tx.sender) ==> t.nonce != tx.nonce
      ensures forall t :: t in Left(queue, tx.sender) ==> t.sender == tx.sender && Known(all, t)
    {
      LeftIsListed(queue, all, tx.sender);
      if tx in floating {
        SlotIsFree(pending, queue, all, floating, tx);
      }
    }

    predicate Full()
      reads this
    {
      |all| >= globalSlots + globalQueue
    }

    /** add: a replacement goes where the replaced one is, anything else into the queue. When
        the pool is full, `underpriced` and `drops` are what the price heap says, and `roomy`
        are the lists once room has been made. */
    method Add(tx: Tx, local: bool, malformed: bool, underpriced: bool, drops: seq<Hash>) returns (r: AddResult, ghost roomy: PoolView)
      requires Valid()
      modifies `pending, `queue, `all, `tracked, `beats, `locals
      ensures Valid() && (old(InRuns()) ==> InRuns()) && (old(Payable()) ==> Payable())
      ensures tx.hash in old(all) <==> r == KnownTransaction
      ensures (r == Invalid) == (
        && tx.hash !in old(all)
        && (malformed || tx.gas > currentMaxGas || tx.price * tx.gas + tx.value > Balance(tx.sender)
            || tx.nonce < StateNonce(tx.sender) || tx.nonce > MAX_UINT64
            || (tx.price < gasPrice && !local && tx.sender !in old(locals))))
      ensures (r == Underpriced) == (
        && tx.hash !in old(all) && r != Invalid
        && !local && underpriced && |old(all)| >= globalSlots + globalQueue)
      ensures Refused(r) ==> all == old(all) && Now() == old(Now())
      ensures !old(Full()) ==> roomy == old(Now())
      ensures !Refused(r) ==>
        && (forall t :: IsPlaced(roomy, t) <==> Known(old(all), t) && !(old(Full()) && t.hash in drops))
        && (r.Added? <==> forall t :: IsPlaced(roomy, t) && SameSlot(t, tx) ==> Outbids(tx, t, priceBump))
      ensures r.Added? ==>
        && (pending, queue) == Taken(roomy.pending, roomy.queue, tx) && tracked == roomy.tracked && beats == roomy.beats
        && (r.replaced <==> exists t :: IsPlaced(roomy, t) && SameSlot(t, tx))
        && Known(all, tx) && IsPlaced(Now(), tx)
        && (forall t :: Known(all, t) <==> t == tx || (IsPlaced(roomy, t) && !SameSlot(t, tx)))
      ensures r == ReplaceUnderpriced ==> Now() == roomy && forall t :: Known(all, t) <==> IsPlaced(roomy, t)
      ensures !Refused(r) ==> forall h :: h in all ==> h in old(all) || h == tx.hash
      ensures locals == if r.Added? && local && tx in Left(queue, tx.sender) then old(locals) + {tx.sender} else old(locals)
    {
      hide Partition, Contiguous, Taken, Outbids, SameSlot, Known, Payable, Covered, IsPlaced;
      roomy := Now();
      if tx.hash in all {
        return KnownTransaction, roomy;
      }
      AcceptableMeans(tx, local);
      if malformed || !Acceptable(tx, local) {
        return Invalid, roomy;
      }
      if Full() && !local && underpriced {
        return Underpriced, roomy;
      }
      r, roomy := Admit(tx, local, drops);
    }

    /** validateTx, in the transaction's own terms. */
    lemma AcceptableMeans(tx: Tx, local: bool)
      ensures Acceptable(tx, local) <==>
        && Covered(Rules(), tx.sender, tx) && tx.nonce <= MAX_UINT64
        && (tx.price >= gasPrice || local || tx.sender in locals)
      ensures Covered(Rules(), tx.sender, tx) <==>
        && tx.gas <= currentMaxGas && tx.price * tx.gas + tx.value <= Balance(tx.sender) && tx.nonce >= StateNonce(tx.sender)
    {
      MayEnterMeans(Rules(), gasPrice, tx, local);
    }

    /** A valid transaction: room is made for it if the pool is full. */
    method Admit(tx: Tx, local: bool, drops: seq<Hash>) returns (r: AddResult, ghost roomy: PoolView)
      requires Valid() && tx.hash !in all && Covered(Rules(), tx.sender, tx)
      modifies `pending, `queue, `all, `tracked, `beats, `locals
      ensures Valid() && (old(InRuns()) ==> InRuns()) && (old(Payable()) ==> Payable())
      ensures r.Added? || r == ReplaceUnderpriced
      ensures !old(Full()) ==> roomy == old(Now())
      ensures forall t :: IsPlaced(roomy, t) <==> Known(old(all), t) && !(old(Full()) && t.hash in drops)
      ensures r.Added? <==> forall t :: IsPlaced(roomy, t) && SameSlot(t, tx) ==> Outbids(tx, t, priceBump)
      ensures r.Added? ==>
        && (pending, queue) == Taken(roomy.pending, roomy.queue, tx) && tracked == roomy.tracked && beats == roomy.beats
        && (r.replaced <==> exists t :: IsPlaced(roomy, t) && SameSlot(t, tx))
        && Known(all, tx) && IsPlaced(Now(), tx)
        && (forall t :: Known(all, t) <==> t == tx || (IsPlaced(roomy, t) && !SameSlot(t, tx)))
      ensures r == ReplaceUnderpriced ==> Now() == roomy && forall t :: Known(all, t) <==> IsPlaced(roomy, t)
      ensures forall h :: h in all ==> h in old(all) || h == tx.hash
      ensures locals == if r.Added? && local && tx in Left(queue, tx.sender) then old(locals) + {tx.sender} else old(locals)
    {
      hide Partition, Contiguous, Taken, Outbids, SameSlot, Known, KnownCovered, Covered;
      KnownIsPlaced();
      if Full() {
        RemoveAll(drops);
      }
      roomy := Now();
      KnownIsPlaced();
      KnownMinus(old(all), all, old(Full()), drops);
      ghost var rules := Rules();
      r := Enter(tx, local);
      KnownIsPlaced();
      if old(Payable()) {
        OneMoreCovered(rules, Rules(), old(all), all, tx);
      }
    }

    lemma KnownHashes()
      requires Valid()
      ensures forall h :: h in all <==> exists x :: IsPlaced(Now(), x) && x.hash == h
    {
      KnownIsPlaced();
      forall h | h in all
        ensures exists x :: IsPlaced(Now(), x) && x.hash == h
      {
        assert Known(all, all[h]);
      }
    }

    /** What is known is pending or queued. */
    lemma KnownIsPlaced()
      requires Valid()
      ensures forall t :: Known(all, t) <==> IsPlaced(Now(), t)
    {
      forall t
        ensures Known(all, t) <==> IsPlaced(Now(), t)
      {
        LeftIsListed(pending, all, t.sender);
        LeftIsListed(queue, all, t.sender);
      }
    }

    /** The transaction takes the place of its rival, if it outbids it, or joins the queue. */
    method Enter(tx: Tx, local: bool) returns (r: AddResult)
      requires Valid() && tx.hash !in all
      modifies `pending, `queue, `all, `locals
      ensures Valid() && (old(InRuns()) ==> InRuns())
      ensures r.Added? || r == ReplaceUnderpriced
      ensures r.Added? <==> forall t :: Known(old(all), t) && SameSlot(t, tx) ==> Outbids(tx, t, priceBump)
      ensures r.Added? ==>
        && (pending, queue) == Taken(old(pending), old(queue), tx) && Known(all, tx)
        && (r.replaced <==> exists t :: Known(old(all), t) && SameSlot(t, tx))
        && (forall t :: Known(all, t) <==> t == tx || (Known(old(all), t) && !SameSlot(t, tx)))
      ensures r == ReplaceUnderpriced ==> all == old(all) && pending == old(pending) && queue == old(queue)
      ensures forall h :: h in all ==> h in old(all) || h == tx.hash
      ensures locals == if r.Added? && local && tx in Left(queue, tx.sender) then old(locals) + {tx.sender} else old(locals)
    {
      hide Partition, Contiguous, Placed, Outbids;
      var list := Left(pending, tx.sender);
      var prior := TxAt(list, tx.nonce);
      SlotFacts(tx);
      if prior.Some? {
        if !Outbids(tx, prior.value, priceBump) {
          return ReplaceUnderpriced;
        }
        Replace(tx, prior.value);
        NotQueued(tx);
        return Added(true);
      }
      RivalIsQueued(tx);
      var inserted, replaced := Queue(tx);
      if !inserted {
        return ReplaceUnderpriced;
      }
      if local {
        locals := locals + {tx.sender};
      }
      return Added(replaced);
    }

    /** All known rivals for a slot are the pending one, if there is one, or else queued. */
    lemma SlotFacts(tx: Tx)
      requires Valid()
      ensures forall t :: t in Left(pending, tx.sender) && t.nonce == tx.nonce ==> Known(all, t) && SameSlot(t, tx)
      ensures forall t :: t in Left(queue, tx.sender) && t.nonce == tx.nonce ==> Known(all, t) && SameSlot(t, tx)
      ensures forall x, y :: Known(all, x) && Known(all, y) && SameSlot(x, tx) && SameSlot(y, tx) ==> x == y
    {
      hide Partition, Known, Ascending;
      PartitionListed(pending, queue, all, {});
      LeftIsListed(pending, all, tx.sender);
      LeftIsListed(queue, all, tx.sender);
      OnePerSlotHolds(pending, queue, all, {}, tx);
    }

    lemma NotQueued(tx: Tx)
      requires Valid() && tx in Left(pending, tx.sender)
      ensures tx !in Left(queue, tx.sender)
    {
      if tx in Left(queue, tx.sender) {
        NoncesAreDisjoint(pending, queue, all, tx, tx);
      }
    }

    /** Room is made by removing what the price heap gives up. */
    method RemoveAll(drops: seq<Hash>)
      requires Valid()
      modifies `pending, `queue, `all, `tracked, `beats
      ensures Valid() && (old(InRuns()) ==> InRuns())
      ensures forall h :: h in all <==> h in old(all) && h !in drops
      ensures forall h :: h in all ==> all[h] == old(all)[h]
    {
      hide Valid, InRuns;
      for i := 0 to |drops|
        invariant Valid() && (old(InRuns()) ==> InRuns())
        invariant forall h :: h in all <==> h in old(all) && h !in drops[..i]
        invariant forall h :: h in all ==> all[h] == old(all)[h]
      {
        RemoveTx(drops[i]);
        assert drops[..i + 1] == drops[..i] + [drops[i]];
      }
      assert drops[..|drops|] == drops;
    }

    /** A pending transaction is replaced in place. */
    method Replace(tx: Tx, prior: Tx)
      requires Valid() && tx.hash !in all && prior in Left(pending, tx.sender) && prior.nonce == tx.nonce
      modifies `pending, `all
      ensures Valid() && (old(InRuns()) ==> InRuns()) && Known(all, tx) && tx in Left(pending, tx.sender)
      ensures pending == WithList(old(pending), tx.sender, Placed(Left(old(pending), tx.sender), tx))
      ensures forall t :: Known(all, t) <==> t == tx || (Known(old(all), t) && !SameSlot(t, tx))
      ensures forall h :: h in all ==> h in old(all) || h == tx.hash
    {
      hide Partition, Contiguous, Placed;
      SlotFacts(tx);
      KnownInstead(pending, queue, all, {}, tx, Some(prior));
      ReplacePending(pending, queue, all, {}, tx, prior);
      ReplaceInRun(pending, queue, all, tracked, stateNonces, tx, prior);
      pending := WithList(pending, tx.sender, Placed(Left(pending, tx.sender), tx));
      all := (all - {prior.hash})[tx.hash := tx];
    }

    /** Anything else is queued. */
    method Queue(tx: Tx) returns (inserted: bool, replaced: bool)
      requires Valid() && tx.hash !in all && forall t :: Known(all, t) && SameSlot(t, tx) ==> t in Left(queue, tx.sender)
      modifies `queue, `all
      ensures Valid() && (inserted ==> Known(all, tx) && tx in Left(queue, tx.sender))
      ensures inserted <==> forall t :: t in Left(old(queue), tx.sender) && t.nonce == tx.nonce ==> Outbids(tx, t, priceBump)
      ensures inserted ==> (replaced <==> exists t :: t in Left(old(queue), tx.sender) && t.nonce == tx.nonce)
      ensures queue == if inserted then WithList(old(queue), tx.sender, Placed(Left(old(queue), tx.sender), tx)) else old(queue)
      ensures inserted ==> forall t :: Known(all, t) <==> t == tx || (Known(old(all), t) && !SameSlot(t, tx))
      ensures !inserted ==> all == old(all)
      ensures forall h :: h in all ==> h in old(all) || h == tx.hash
    {
      hide Partition, Placed, Outbids;
      assert {} - {tx} == {};
      LeftIsAscending({}, tx.sender);
      PlacedAscends(Left(queue, tx.sender), tx);
      inserted, replaced := EnqueueTx(tx, {});
    }

    /** A rival for the slot of a transaction without a pending one is queued. */
    lemma RivalIsQueued(tx: Tx)
      requires Valid() && forall t :: t in Left(pending, tx.sender) ==> t.nonce != tx.nonce
      ensures forall t :: Known(all, t) && SameSlot(t, tx) ==> t in Left(queue, tx.sender)
    {
    }

    /** removeTx: out of whichever list has it. Pending transactions behind it go back to the
        queue, and the tracked nonce falls back. */
    method RemoveTx(hash: Hash)
      requires Valid()
      modifies `pending, `queue, `all, `tracked, `beats
      ensures Valid() && (old(InRuns()) ==> InRuns()) && (old(Payable()) ==> Payable())
      ensures all.Keys == old(all).Keys - {hash} && forall h :: h in all ==> all[h] == old(all)[h]
      ensures hash in old(all) ==>
        var tx := old(all)[hash];
        var s, q := Left(old(pending), tx.sender), Left(old(queue), tx.sender);
        if tx in s then
          pending == WithList(old(pending), tx.sender, Select(s, Below(tx.nonce)))
          && forall t :: t in Left(queue, tx.sender) <==> t in q || (t in s && t.nonce > tx.nonce)
        else pending == old(pending) && tracked == old(tracked) && queue == WithList(old(queue), tx.sender, Select(q, Not(With(tx.nonce))))
      ensures hash in old(all) ==>
        var tx := old(all)[hash];
        beats == if tx in Left(old(pending), tx.sender) && tx.sender !in pending then old(beats) - {tx.sender} else old(beats)
    {
      hide Partition, Contiguous, Select, Placed, Outbids;
      if hash !in all {
        return;
      }
      var tx := all[hash];
      var addr := tx.sender;
      KnownByHash(hash);
      ghost var q := Left(queue, addr);
      var list := Left(pending, addr);
      var present := TxAt(list, tx.nonce);
      all := all - {hash};
      if present.Some? {
        var invalids := Select(list, Above(tx.nonce));
        pending := WithList(pending, addr, Select(list, Below(tx.nonce)));
        if addr !in pending {
          beats := beats - {addr};
        }
        if PendingNonce(addr) > tx.nonce {
          tracked := tracked[addr := tx.nonce];
        }
        EnqueueAll(addr, invalids);
        InvalidsJoin(list, q, Left(queue, addr), invalids, tx);
      } else {
        queue := WithList(queue, addr, Select(Left(queue, addr), Not(With(tx.nonce))));
      }
    }

    /** Where a known transaction is, and what taking it out leaves. */
    lemma KnownByHash(hash: Hash)
      requires Valid() && hash in all
      ensures var tx := all[hash];
              var s, q := Left(pending, tx.sender), Left(queue, tx.sender);
              && tx.hash == hash && Ascending(s) && Ascending(q)
              && (forall t :: t in s && t.nonce == tx.nonce ==> t == tx)
              && (tx in s ==> Partition(WithList(pending, tx.sender, Select(s, Below(tx.nonce))), queue, all - {hash},
                                        AsSet(Select(s, Above(tx.nonce)))))
              && (tx in s && InRuns() ==> NonceAt(stateNonces, tx.sender) <= tx.nonce < Tracked(tracked, stateNonces, tx.sender))
              && (tx in s && InRuns() ==>
                    Contiguous(WithList(pending, tx.sender, Select(s, Below(tx.nonce))), tracked[tx.sender := tx.nonce], stateNonces))
              && Ascending(Select(s, Above(tx.nonce))) && (forall t :: t in Select(s, Above(tx.nonce)) ==> t.sender == tx.sender)
              && (tx !in s ==> Partition(pending, WithList(queue, tx.sender, Select(q, Not(With(tx.nonce)))), all - {hash}, {}))
    {
      hide Partition, Contiguous, Select;
      var tx := all[hash];
      var s := Left(pending, tx.sender);
      PartitionListed(pending, queue, all, {});
      LeftIsListed(pending, all, tx.sender);
      LeftIsListed(queue, all, tx.sender);
      OwnSlot(pending, queue, all, tx);
      SelectMembers(s, Above(tx.nonce));
      SelectAscends(s, Above(tx.nonce));
      if tx in s {
        RemovePending(pending, queue, all, tx);
        if InRuns() {
          RunCut(pending, tracked, stateNonces, tx);
        }
      } else {
        RemoveQueued(pending, queue, all, tx);
      }
    }

    /** Postponed transactions go back to the queue. */
    method EnqueueAll(addr: Address, invalids: seq<Tx>)
      requires Moving(AsSet(invalids)) && Ascending(invalids) && forall t :: t in invalids ==> t.sender == addr
      modifies `queue, `all
      ensures Valid() && all == old(all)
      ensures forall t :: t in Left(queue, addr) <==> t in Left(old(queue), addr) || t in invalids
      ensures forall b :: b != addr ==> Left(queue, b) == Left(old(queue), b)
    {
      hide Partition, Placed, Outbids, AsSet;
      NothingListed(invalids);
      for i := 0 to |invalids|
        invariant Moving(AsSet(invalids[i..])) && all == old(all)
        invariant forall t :: t in Left(queue, addr) <==> t in Left(old(queue), addr) || t in invalids[..i]
        invariant forall b :: b != addr ==> Left(queue, b) == Left(old(queue), b)
      {
        AsSetTail(invalids, i);
        assert invalids[i] in invalids;
        EnqueueOne(invalids[i], AsSet(invalids[i..]));
      }
      assert invalids[..|invalids|] == invalids;
    }

    method EnqueueOne(tx: Tx, ghost floating: set<Tx>)
      requires Moving(floating) && tx in floating
      modifies `queue, `all
      ensures Moving(floating - {tx}) && all == old(all)
      ensures forall t :: t in Left(queue, tx.sender) <==> t in Left(old(queue), tx.sender) || t == tx
      ensures forall b :: b != tx.sender ==> Left(queue, b) == Left(old(queue), b)
    {
      hide Partition, Placed, Outbids;
      QueueFacts(floating, tx);
      LeftIsAscending(floating, tx.sender);
      PlacedAscends(Left(queue, tx.sender), tx);
      var _, _ := EnqueueTx(tx, floating);
    }

    lemma LeftIsAscending(floating: set<Tx>, a: Address)
      requires Moving(floating)
      ensures Ascending(Left(queue, a)) && Ascending(Left(pending, a))
    {
      LeftIsListed(queue, all, a);
      LeftIsListed(pending, all, a);
    }

    // ----- promotion -----

    /** promoteTx: a queued transaction becomes pending, and the tracked nonce follows it. */
    method PromoteTx(addr: Address, tx: Tx, ghost floating: set<Tx>)
      requires Moving(floating) && tx in floating && tx.sender == addr
      modifies `pending, `tracked, `beats
      ensures Moving(floating - {tx})
      ensures pending == WithList(old(pending), addr, Placed(Left(old(pending), addr), tx))
      ensures tracked == old(tracked)[addr := tx.nonce + 1] && beats == old(beats)[addr := clock]
    {
      hide Partition, Placed;
      PutPending(pending, queue, all, floating, tx);
      pending := WithList(pending, addr, Placed(Left(pending, addr), tx));
      beats := beats[addr := clock];
      tracked := tracked[addr := tx.nonce + 1];
    }

    /** Promotes a run of queued transactions, which extends the pending one. */
    method PromoteReady(addr: Address, ready: seq<Tx>)
      requires Moving(AsSet(ready)) && Ascending(ready) && GapFree(ready) && forall t :: t in ready ==> t.sender == addr
      requires InRuns() && |ready| > 0 ==> ready[0].nonce == PendingNonce(addr)
      modifies `pending, `tracked, `beats
      ensures Valid() && (old(InRuns()) ==> InRuns())
      ensures forall b :: b != addr ==> Left(pending, b) == Left(old(pending), b)
      ensures forall t :: t in Left(pending, addr) <==> t in Left(old(pending), addr) || t in ready
      ensures PendingNonce(addr) == if |ready| > 0 then ready[|ready| - 1].nonce + 1 else old(PendingNonce(addr))
      ensures forall b :: b != addr ==> PendingNonce(b) == old(PendingNonce(b))
    {
      hide Partition, Placed, Contiguous, AsSet;
      NothingListed(ready);
      for i := 0 to |ready|
        invariant Moving(AsSet(ready[i..])) && (old(InRuns()) ==> InRuns())
        invariant forall b :: b != addr ==> Left(pending, b) == Left(old(pending), b) && PendingNonce(b) == old(PendingNonce(b))
        invariant forall t :: t in Left(pending, addr) <==> t in Left(old(pending), addr) || t in ready[..i]
        invariant PendingNonce(addr) == if i > 0 then ready[i - 1].nonce + 1 else old(PendingNonce(addr))
      {
        AsSetTail(ready, i);
        assert ready[i] in ready;
        PromoteOne(addr, ready[i], AsSet(ready[i..]), old(InRuns()));
      }
      assert ready[..|ready|] == ready;
    }

    method PromoteOne(addr: Address, tx: Tx, ghost floating: set<Tx>, ghost inRuns: bool)
      requires Moving(floating) && tx in floating && tx.sender == addr
      requires inRuns ==> InRuns() && tx.nonce == PendingNonce(addr)
      modifies `pending, `tracked, `beats
      ensures Moving(floating - {tx}) && (inRuns ==> InRuns())
      ensures forall b :: b != addr ==> Left(pending, b) == Left(old(pending), b) && PendingNonce(b) == old(PendingNonce(b))
      ensures forall t :: t in Left(pending, addr) <==> t in Left(old(pending), addr) || t == tx
      ensures PendingNonce(addr) == tx.nonce + 1
    {
      hide Partition, Placed, Contiguous;
      LeftIsAscending(floating, addr);
      PlacedAscends(Left(pending, addr), tx);
      PutPending(pending, queue, all, floating, tx);
      if inRuns {
        RunExtended(pending, tracked, stateNonces, tx);
      }
      PromoteTx(addr, tx, floating);
    }

    /** Part of an account's queue is dropped for good. */
    method DropQueued(addr: Address, kept: seq<Tx>, gone: seq<Tx>)
      requires Valid() && Ascending(kept) && Ascending(gone)
      requires forall t :: t in Left(queue, addr) <==> t in kept || t in gone
      requires (forall t :: t in kept ==> t !in gone) || (forall t :: t in gone ==> t !in kept)
      modifies `queue, `all
      ensures Valid() && queue == WithList(old(queue), addr, kept)
      ensures forall h :: h in all ==> h in old(all)
    {
      hide Partition, Ascending;
      TakeQueue(pending, queue, all, {}, addr, kept, AsSet(gone));
      queue := WithList(queue, addr, kept);
      assert {} + AsSet(gone) == AsSet(gone);
      AscendingDistinct(gone);
      ForgetAll(gone, AsSet(gone));
      assert AsSet(gone) - (set tx | tx in gone) == {};
    }

    /** What promoteExecutables does for one account: old and unpayable transactions go, the
        executable run is promoted, and what exceeds the queue limit goes too. */
    method PromoteAccount(addr: Address)
      requires Valid()
      modifies `pending, `queue, `all, `tracked, `beats
      ensures Valid() && (old(InRuns()) ==> InRuns())
      ensures Promoted(Rules(), old(Now()), Now(), addr)
      ensures forall b :: b != addr ==> Alike(Rules(), old(Now()), Now(), b)
      ensures forall h :: h in all ==> h in old(all)
    {
      hide Partition, Contiguous, Usable, Ascending, GapFree, ReadyLength;
      if addr !in queue {
        NothingUsable(StateNonce(addr), Balance(addr), currentMaxGas);
        return;
      }
      ghost var before := Left(queue, addr);
      var list := DropUnusable(addr);
      ReadyFacts(addr, list, before);
      assert forall b :: PendingNonce(b) == old(PendingNonce(b));
      PromoteList(addr, list);
      assert forall b :: Tracked(tracked, stateNonces, b) == PendingNonce(b);
    }

    /** The executable run of an account's queue is promoted, and the rest capped. */
    method PromoteList(addr: Address, list: seq<Tx>)
      requires Valid() && list == Left(queue, addr) && Ascending(list) && forall t :: t in list ==> t.sender == addr
      requires var k := ReadyLength(list, PendingNonce(addr));
               GapFree(list[..k]) && (InRuns() && k > 0 ==> list[0].nonce == PendingNonce(addr))
      modifies `pending, `queue, `all, `tracked, `beats
      ensures Valid() && (old(InRuns()) ==> InRuns())
      ensures forall b :: b != addr ==> Left(pending, b) == Left(old(pending), b) && Left(queue, b) == Left(old(queue), b)
      ensures forall b :: b != addr ==> PendingNonce(b) == old(PendingNonce(b))
      ensures var k := ReadyLength(list, old(PendingNonce(addr)));
              && (forall t :: t in Left(pending, addr) <==> t in Left(old(pending), addr) || t in list[..k])
              && PendingNonce(addr) == (if k > 0 then list[k - 1].nonce + 1 else old(PendingNonce(addr)))
              && Left(queue, addr) == (if addr in locals || |list[k..]| <= accountQueue then list[k..] else list[k..][..accountQueue])
      ensures forall h :: h in all ==> h in old(all)
    {
      hide Partition, Contiguous, Ascending, GapFree, ReadyLength, WithList, Left, Tracked, AsSet;
      var k := ReadyLength(list, PendingNonce(addr));
      CutPrefix(list, k);
      SplitQueue(addr, list, k);
      LeftWith(queue, addr, list[k..]);
      queue := WithList(queue, addr, list[k..]);
      assert forall b :: PendingNonce(b) == old(PendingNonce(b));
      PromoteReady(addr, list[..k]);
      label promoted:
      CapQueue(addr, list[k..]);
      assert forall b :: PendingNonce(b) == old@promoted(PendingNonce(b));
    }

    /** Old and unpayable transactions leave an account's queue. */
    method DropUnusable(addr: Address) returns (list: seq<Tx>)
      requires Valid()
      modifies `queue, `all
      ensures Valid() && list == Usable(Left(old(queue), addr), StateNonce(addr), Balance(addr), currentMaxGas)
      ensures queue == WithList(old(queue), addr, list) && Ascending(list)
      ensures forall h :: h in all ==> h in old(all)
    {
      hide Partition, Select, Ascending;
      list := Left(queue, addr);
      LeftIsAscending({}, addr);
      Cut(list, Below(StateNonce(addr)));
      ghost var young := Select(list, Not(Below(StateNonce(addr))));
      DropQueued(addr, Select(list, Not(Below(StateNonce(addr)))), Select(list, Below(StateNonce(addr))));
      WithTwice(old(queue), addr, young, Select(young, Not(Exceeding(Balance(addr), currentMaxGas))));
      list := Select(list, Not(Below(StateNonce(addr))));
      Cut(list, Exceeding(Balance(addr), currentMaxGas));
      DropQueued(addr, Select(list, Not(Exceeding(Balance(addr), currentMaxGas))), Select(list, Exceeding(Balance(addr), currentMaxGas)));
      list := Select(list, Not(Exceeding(Balance(addr), currentMaxGas)));
    }

    /** The queue limit, from which local accounts are exempt. */
    method CapQueue(addr: Address, list: seq<Tx>)
      requires Valid() && list == Left(queue, addr) && Ascending(list)
      modifies `queue, `all
      ensures Valid() && forall b :: b != addr ==> Left(queue, b) == Left(old(queue), b)
      ensures Left(queue, addr) == if addr in locals || |list| <= accountQueue then list else list[..accountQueue]
      ensures forall h :: h in all ==> h in old(all)
    {
      hide Partition, Ascending;
      if addr !in locals && |list| > accountQueue {
        CutPrefix(list, accountQueue);
        DropQueued(addr, list[..accountQueue], list[accountQueue..]);
      }
    }

    /** What is ready extends the pending run: lower nonces are either old or taken. */
    lemma ReadyFacts(addr: Address, list: seq<Tx>, before: seq<Tx>)
      requires Valid() && list == Usable(before, StateNonce(addr), Balance(addr), currentMaxGas) && Left(queue, addr) == list
      ensures var k := ReadyLength(list, PendingNonce(addr));
              && GapFree(list[..k]) && (forall t :: t in list ==> t.sender == addr)
              && (InRuns() && k > 0 ==> list[0].nonce == PendingNonce(addr))
    {
      hide Partition, Select;
      RunIsGapFree(list);
      PartitionListed(pending, queue, all, {});
      LeftIsListed(queue, all, addr);
      if InRuns() && ReadyLength(list, PendingNonce(addr)) > 0 {
        assert list[0] in list;
        UsableIsRecent(before, StateNonce(addr), Balance(addr), currentMaxGas, list[0]);
        assert IsRun(Left(pending, addr), StateNonce(addr), PendingNonce(addr));
        if list[0].nonce < PendingNonce(addr) {
          var t := Left(pending, addr)[list[0].nonce - StateNonce(addr)];
          NoncesAreDisjoint(pending, queue, all, t, list[0]);
        }
      }
    }

    lemma SplitQueue(addr: Address, list: seq<Tx>, k: nat)
      requires Valid() && Left(queue, addr) == list && k <= |list| && Ascending(list[..k]) && Ascending(list[k..])
      requires forall t :: t in list <==> t in list[k..] || t in list[..k]
      requires forall t :: t in list[k..] ==> t !in list[..k]
      ensures Partition(pending, WithList(queue, addr, list[k..]), all, AsSet(list[..k]))
    {
      hide Partition;
      TakeQueue(pending, queue, all, {}, addr, list[k..], AsSet(list[..k]));
      assert {} + AsSet(list[..k]) == AsSet(list[..k]);
    }

    // ----- the pending limit -----

    /** The last pending transaction of an account is dropped. */
    method CutOne(addr: Address)
      requires Valid() && addr in pending && |pending[addr]| > 1
      modifies `pending, `all, `tracked
      ensures Valid() && (old(InRuns()) ==> InRuns()) && pending == CutLast(old(pending), addr)
      ensures forall h :: h in all ==> h in old(all)
    {
      hide Partition, Contiguous;
      var list := pending[addr];
      var tx := list[|list| - 1];
      CutFacts(addr);
      pending := pending[addr := list[..|list| - 1]];
      all := all - {tx.hash};
      if PendingNonce(addr) > tx.nonce {
        tracked := tracked[addr := tx.nonce];
      }
    }

    lemma CutFacts(addr: Address)
      requires Valid() && addr in pending && |pending[addr]| > 1
      ensures var s := pending[addr];
              var tx := s[|s| - 1];
              && Partition(pending[addr := s[..|s| - 1]], queue, all - {tx.hash}, {})
              && (InRuns() ==> tx.nonce < PendingNonce(addr))
              && (InRuns() ==> Contiguous(pending[addr := s[..|s| - 1]], tracked[addr := tx.nonce], stateNonces))
    {
      hide Partition, Contiguous, Select, Ascending, Known;
      var s := pending[addr];
      var tx, front := s[|s| - 1], s[..|s| - 1];
      PartitionListed(pending, queue, all, {});
      LeftIsListed(pending, all, addr);
      LastApart(s);
      TakePending(pending, queue, all, {}, addr, front, {tx});
      assert WithList(pending, addr, front) == pending[addr := front];
      Forget(pending[addr := front], queue, all, {} + {tx}, tx);
      assert {} + {tx} - {tx} == {};
      if InRuns() {
        RunCut(pending, tracked, stateNonces, tx);
      }
    }

    /** One round: every offender loses one transaction. */
    method CutRound(os: seq<Address>, total: nat) returns (left: nat)
      requires Valid() && total == |Places(pending)| && Distinct(os)
      requires forall i :: 0 <= i < |os| ==> os[i] in pending && |pending[os[i]]| > 1
      modifies `pending, `all, `tracked
      ensures Valid() && (old(InRuns()) ==> InRuns()) && left == |Places(pending)| == total - |os|
      ensures Prefixes(pending, old(pending)) && SameBut(pending, old(pending), os)
      ensures forall i :: 0 <= i < |os| ==> os[i] in pending && |pending[os[i]]| == |old(pending)[os[i]]| - 1
      ensures forall h :: h in all ==> h in old(all)
    {
      hide Valid, InRuns;
      left := total;
      ghost var was := pending;
      for i := 0 to |os|
        invariant Valid() && (old(InRuns()) ==> InRuns()) && left == |Places(pending)| == total - i
        invariant Prefixes(pending, was) && SameBut(pending, was, os)
        invariant forall k :: 0 <= k < i ==> |pending[os[k]]| == |was[os[k]]| - 1
        invariant forall k :: i <= k < |os| ==> pending[os[k]] == was[os[k]]
        invariant forall h :: h in all ==> h in old(all)
      {
        CutLastPlaces(pending, os[i]);
        assert os[i] in os;
        CutOne(os[i]);
        left := left - 1;
      }
    }

    /** Rounds until the total is within the limit or the offenders are down to the
        threshold; no round more than that. */
    method LowerTo(os: seq<Address>, threshold: nat, total: nat, ghost level: nat) returns (left: nat, ghost level': nat)
      requires Valid() && total == |Places(pending)| && Distinct(os) && |os| > 0
      requires Level(pending, os, level) && 0 < threshold <= level
      modifies `pending, `all, `tracked
      ensures Valid() && (old(InRuns()) ==> InRuns()) && left == |Places(pending)|
      ensures Prefixes(pending, old(pending)) && SameBut(pending, old(pending), os)
      ensures Level(pending, os, level') && threshold <= level'
      ensures left <= globalSlots || level' == threshold
      ensures pending == old(pending) || (level' < level && left + |os| > globalSlots)
      ensures forall h :: h in all ==> h in old(all)
    {
      hide Valid, InRuns, Prefixes, SameBut;
      left, level' := total, level;
      ghost var was := pending;
      NoCut(was, os);
      while left > globalSlots && |pending[os[|os| - 1]]| > threshold
        invariant Valid() && (old(InRuns()) ==> InRuns()) && left == |Places(pending)|
        invariant Prefixes(pending, was) && SameBut(pending, was, os)
        invariant Level(pending, os, level') && threshold <= level'
        invariant pending == was || (level' < level && left + |os| > globalSlots)
        invariant forall h :: h in all ==> h in old(all)
        decreases level'
      {
        ghost var before := pending;
        left := CutRound(os, left);
        CutMore(was, before, pending, os, level');
        level' := level' - 1;
      }
    }

    /** The pending limit of promoteExecutables. */
    method TruncatePending()
      requires Valid()
      modifies `pending, `all, `tracked
      ensures Valid() && (old(InRuns()) ==> InRuns())
      ensures Fair(old(pending), pending, locals, accountSlots, globalSlots)
      ensures |Places(old(pending))| <= globalSlots ==> tracked == old(tracked)
      ensures forall h :: h in all ==> h in old(all)
    {
      hide Partition, Contiguous, Cutting, Fair, Prefixes, SameBut, Level, ItemsOf, Prque.Valid;
      ghost var was := pending;
      var total := CountPending();
      if total <= globalSlots {
        NobodyCut(was, locals, accountSlots, globalSlots);
        return;
      }
      var spammers := CollectSpammers();
      ghost var rest := Spammers(was, locals, accountSlots);
      ghost var level: nat := 0;
      var offenders: seq<Address> := [];
      CuttingStarts(was, locals, accountSlots, globalSlots);
      var empty := spammers.Empty();
      while total > globalSlots && !empty
        invariant fresh(spammers) && fresh(spammers.cont) && fresh(spammers.cont.blocks) && spammers.Valid()
        invariant empty <==> spammers.cont.flat == []
        invariant Valid() && (old(InRuns()) ==> InRuns()) && total == |Places(pending)|
        invariant Cutting(was, pending, locals, accountSlots, globalSlots, offenders, rest, level)
        invariant rest <= was.Keys && multiset(spammers.cont.flat) == multiset(ItemsOf(was, rest))
        invariant |offenders| == 0 ==> level == 0
        invariant forall h :: h in all ==> h in old(all)
        decreases |spammers.cont.flat|
      {
        ghost var flat := spammers.cont.flat;
        var offender, priority := spammers.Pop();
        ItemPopped(was, rest, flat, spammers.cont.flat, Item(offender, priority));
        assert |flat| == |multiset(flat)| == |multiset(spammers.cont.flat)| + 1;
        total, level := LowerOthers(was, offenders, offender, total, rest, level);
        offenders := offenders + [offender];
        rest := rest - {offender};
        empty := spammers.Empty();
      }
      if total > globalSlots {
        NothingLeft(was, rest, spammers.cont.flat);
      }
      LowerAll(was, offenders, total, rest, level);
    }

    /** Equalises the offenders so far with the next one. */
    method LowerOthers(ghost was: Accounts, offenders: seq<Address>, offender: Address, total: nat,
                       ghost rest: set<Address>, ghost level: nat) returns (left: nat, ghost level': nat)
      requires Valid() && total == |Places(pending)| && total > globalSlots && offender in rest
      requires Cutting(was, pending, locals, accountSlots, globalSlots, offenders, rest, level) && (|offenders| == 0 ==> level == 0)
      requires forall b :: b in rest ==> b in was && offender in was && |was[b]| <= |was[offender]|
      modifies `pending, `all, `tracked
      ensures Valid() && (old(InRuns()) ==> InRuns()) && left == |Places(pending)|
      ensures Cutting(was, pending, locals, accountSlots, globalSlots, offenders + [offender], rest - {offender}, level')
      ensures forall h :: h in all ==> h in old(all)
    {
      hide Partition, Contiguous, Cutting, Prefixes, SameBut, Level;
      CuttingFacts(was, pending, locals, accountSlots, globalSlots, offenders, rest, level, offender);
      if |offenders| > 0 {
        var threshold := |pending[offender]|;
        AllAtLevel(was, pending, locals, accountSlots, globalSlots, offenders, rest, level);
        ghost var before := pending;
        CutSoFar(was, pending, locals, accountSlots, globalSlots, offenders, rest, level);
        left, level' := LowerTo(offenders, threshold, total, level);
        LoweredNoFurther(was, before, pending, offenders, level, level', globalSlots);
        NextOffender(was, before, pending, locals, accountSlots, globalSlots, offenders, rest, level, offender, level');
      } else {
        FirstOffender(was, locals, accountSlots, globalSlots, rest, offender);
        assert offenders + [offender] == [offender];
        left, level' := total, |was[offender]|;
      }
    }

    /** If that was not enough, all offenders go down together. */
    method LowerAll(ghost was: Accounts, offenders: seq<Address>, total: nat, ghost rest: set<Address>, ghost level: nat)
      requires Valid() && total == |Places(pending)| && |Places(was)| > globalSlots && (total > globalSlots ==> rest == {})
      requires Cutting(was, pending, locals, accountSlots, globalSlots, offenders, rest, level)
      modifies `pending, `all, `tracked
      ensures Valid() && (old(InRuns()) ==> InRuns())
      ensures Fair(was, pending, locals, accountSlots, globalSlots)
      ensures forall h :: h in all ==> h in old(all)
    {
      hide Partition, Contiguous, Cutting, Fair, Prefixes, SameBut, Level;
      if total > globalSlots && |offenders| > 0 {
        AllAtLevel(was, pending, locals, accountSlots, globalSlots, offenders, rest, level);
        ghost var before := pending;
        var left;
        ghost var level';
        CutSoFar(was, pending, locals, accountSlots, globalSlots, offenders, rest, level);
        left, level' := LowerTo(offenders, accountSlots, total, level);
        LoweredNoFurther(was, before, pending, offenders, level, level', globalSlots);
        FairLate(was, before, pending, locals, accountSlots, globalSlots, offenders, level, level');
      } else {
        FairEarly(was, pending, locals, accountSlots, globalSlots, offenders, rest, level);
      }
    }

    /** The number of pending transactions. */
    method CountPending() returns (total: nat)
      ensures total == |Places(pending)|
    {
      total := 0;
      var rest := pending.Keys;
      ghost var counted: Accounts := map[];
      while rest != {}
        invariant rest <= pending.Keys && counted.Keys == pending.Keys - rest
        invariant forall a :: a in counted ==> counted[a] == pending[a]
        invariant total == |Places(counted)|
        decreases rest
      {
        var a :| a in rest;
        rest := rest - {a};
        CountList(counted, a, pending[a]);
        counted := counted[a := pending[a]];
        total := total + |pending[a]|;
      }
      assert counted == pending;
    }

    /** The spam order: those over their slots, by length. */
    method CollectSpammers() returns (spammers: Prque)
      ensures fresh(spammers) && fresh(spammers.cont) && fresh(spammers.cont.blocks) && spammers.Valid()
      ensures multiset(spammers.cont.flat) == multiset(ItemsOf(pending, Spammers(pending, locals, accountSlots)))
    {
      hide Prque.Valid, ItemsOf;
      spammers := new Prque();
      var rest := pending.Keys;
      ghost var found: set<Address> := {};
      NoItems(pending);
      while rest != {}
        invariant fresh(spammers) && fresh(spammers.cont) && fresh(spammers.cont.blocks) && spammers.Valid()
        invariant rest <= pending.Keys
        invariant found == set a | a in Spammers(pending, locals, accountSlots) && a !in rest
        invariant multiset(spammers.cont.flat) == multiset(ItemsOf(pending, found))
        decreases rest
      {
        var a :| a in rest;
        rest := rest - {a};
        if a !in locals && |pending[a]| > accountSlots {
          ItemsAdd(pending, found, a);
          spammers.Push(a, |pending[a]|);
          found := found + {a};
        }
      }
      assert found == Spammers(pending, locals, accountSlots);
    }

    // ----- the queue limit -----

    /** removeTx, for a queued transaction. */
    method DropQueuedTx(tx: Tx)
      requires Valid() && tx in Left(queue, tx.sender)
      modifies `pending, `queue, `all, `tracked, `beats
      ensures Valid() && (old(InRuns()) ==> InRuns()) && pending == old(pending)
      ensures |Places(queue)| == |Places(old(queue))| - 1 && tracked == old(tracked)
      ensures forall t :: t in Left(queue, tx.sender) <==> t in Left(old(queue), tx.sender) && t != tx
      ensures forall b :: b != tx.sender ==> Left(queue, b) == Left(old(queue), b)
      ensures forall h :: h in all ==> h in old(all)
    {
      hide Partition, Contiguous, Select;
      QueuedFacts(tx);
      RemoveTx(tx.hash);
    }

    lemma QueuedFacts(tx: Tx)
      requires Valid() && tx in Left(queue, tx.sender)
      ensures Known(all, tx) && tx !in Left(pending, tx.sender)
      ensures var q := Left(queue, tx.sender);
              var r := Select(q, Not(With(tx.nonce)));
              && (forall t :: t in r <==> t in q && t != tx)
              && |Places(WithList(queue, tx.sender, r))| == |Places(queue)| - 1
    {
      hide Partition, Select;
      var q := Left(queue, tx.sender);
      PartitionListed(pending, queue, all, {});
      LeftIsListed(queue, all, tx.sender);
      OwnSlot(pending, queue, all, tx);
      PlacedOver(q, tx);
      OneWith(q, tx);
      OneLessPlace(queue, tx.sender, Select(q, Not(With(tx.nonce))));
      if tx in Left(pending, tx.sender) {
        NoncesAreDisjoint(pending, queue, all, tx, tx);
      }
    }

    /** An account's newest queued transactions go, all of them or as many as needed. */
    method DropNewest(addr: Address, count: nat)
      requires Valid() && addr in queue && count <= |queue[addr]|
      modifies `pending, `queue, `all, `tracked, `beats
      ensures Valid() && (old(InRuns()) ==> InRuns()) && pending == old(pending)
      ensures |Places(queue)| == |Places(old(queue))| - count && tracked == old(tracked)
      ensures Left(queue, addr) == old(queue)[addr][..|old(queue)[addr]| - count]
      ensures forall b :: b != addr ==> Left(queue, b) == Left(old(queue), b)
      ensures forall h :: h in all ==> h in old(all)
    {
      hide Valid, InRuns, Places;
      var txs := queue[addr];
      QueueList(addr);
      var left := count;
      var i := |txs|;
      assert txs[..i] == txs;
      while i > 0 && left > 0
        invariant 0 <= i <= |txs| && 0 <= left && left + (|txs| - i) == count
        invariant Valid() && (old(InRuns()) ==> InRuns()) && pending == old(pending)
        invariant |Places(queue)| == |Places(old(queue))| - (count - left) && tracked == old(tracked)
        invariant forall t :: t in Left(queue, addr) <==> t in txs[..i]
        invariant forall b :: b != addr ==> Left(queue, b) == Left(old(queue), b)
        invariant forall h :: h in all ==> h in old(all)
      {
        i := i - 1;
        PrefixWithoutLast(txs, i);
        DropQueuedTx(txs[i]);
        left := left - 1;
      }
      IsPrefix(txs, i, addr);
    }

    lemma IsPrefix(txs: seq<Tx>, i: nat, addr: Address)
      requires Valid() && i <= |txs| && Ascending(txs) && forall t :: t in Left(queue, addr) <==> t in txs[..i]
      ensures Left(queue, addr) == txs[..i]
    {
      LeftIsListed(queue, all, addr);
      AscendingUnique(Left(queue, addr), txs[..i]);
    }

    lemma QueueList(addr: Address)
      requires Valid() && addr in queue
      ensures Ascending(queue[addr]) && forall t :: t in queue[addr] ==> t.sender == addr
    {
      LeftIsListed(queue, all, addr);
    }

    function BeatOf(a: Address): int
      reads this
    {
      if a in beats then beats[a] else 0
    }

    /** The queue limit of promoteExecutables: the accounts heard of last lose first, until
        the total is within the limit or only local accounts have anything queued. */
    method TruncateQueue()
      requires Valid()
      modifies `pending, `queue, `all, `tracked, `beats
      ensures Valid() && (old(InRuns()) ==> InRuns()) && pending == old(pending)
      ensures Evicted(old(queue), queue, locals, old(beats), globalQueue) && tracked == old(tracked)
      ensures forall h :: h in all ==> h in old(all)
    {
      hide Partition, Contiguous, Places, Evicting, Evicted, TxPool.ByBeat, PoolFairness.Distinct;
      var queued := CountQueued();
      if queued <= globalQueue {
        NothingEvicted(queue, locals, beats, globalQueue);
        return;
      }
      var addresses := NonLocals();
      ghost var order := addresses;
      NoneEmpty();
      OrderMeans(order);
      EvictingStarts(queue, order);
      var drop := queued - globalQueue;
      while drop > 0 && |addresses| > 0
        invariant Valid() && (old(InRuns()) ==> InRuns()) && pending == old(pending)
        invariant drop >= 0 && |Places(queue)| == globalQueue + drop && tracked == old(tracked)
        invariant |addresses| <= |order| && addresses == order[..|addresses|]
        invariant Evicting(old(queue), queue, order, |addresses|, drop > 0)
        invariant forall h :: h in all ==> h in old(all)
        decreases |addresses|
      {
        var addr := addresses[|addresses| - 1];
        ghost var was, n := queue, |addresses| - 1;
        NextEvicted(old(queue), queue, order, n);
        addresses := addresses[..|addresses| - 1];
        var size := |queue[addr]|;
        if size <= drop {
          DropNewest(addr, size);
          drop := drop - size;
          EvictingNext(old(queue), was, queue, order, n, 0, drop > 0);
        } else {
          DropNewest(addr, drop);
          EvictingNext(old(queue), was, queue, order, n, size - drop, false);
          drop := 0;
        }
      }
      NoneEmpty();
      AllEvicted(old(queue), queue, locals, old(beats), globalQueue, order, |addresses|, drop > 0);
    }

    lemma OrderMeans(s: seq<Address>)
      requires ByBeat(s)
      ensures InBeatOrder(s, beats)
    {
    }

    lemma NoneEmpty()
      requires Valid()
      ensures forall a :: a in queue ==> queue[a] != []
    {
    }

    predicate ByBeat(s: seq<Address>)
      reads this
    {
      forall i, j :: 0 <= i < j < |s| ==> BeatOf(s[i]) <= BeatOf(s[j])
    }

    method InsertByBeat(s: seq<Address>, a: Address) returns (r: seq<Address>)
      requires ByBeat(s) && PoolFairness.Distinct(s) && a !in s
      ensures ByBeat(r) && PoolFairness.Distinct(r) && forall x :: x in r <==> x in s || x == a
    {
      var i := 0;
      while i < |s| && BeatOf(s[i]) <= BeatOf(a)
        invariant 0 <= i <= |s|
        invariant forall k :: 0 <= k < i ==> BeatOf(s[k]) <= BeatOf(a)
      {
        i := i + 1;
      }
      InsertedByBeat(s, a, i);
      r := s[..i] + [a] + s[i..];
    }

    lemma InsertedByBeat(s: seq<Address>, a: Address, i: nat)
      requires ByBeat(s) && PoolFairness.Distinct(s) && a !in s && i <= |s|
      requires (forall k :: 0 <= k < i ==> BeatOf(s[k]) <= BeatOf(a)) && (i < |s| ==> BeatOf(a) < BeatOf(s[i]))
      ensures var r := s[..i] + [a] + s[i..];
              ByBeat(r) && PoolFairness.Distinct(r) && forall x :: x in r <==> x in s || x == a
    {
      var r := s[..i] + [a] + s[i..];
      forall j, k | 0 <= j < k < |r|
        ensures BeatOf(r[j]) <= BeatOf(r[k]) && r[j] != r[k]
      {
        InsertedAt(s, a, i, j);
        InsertedAt(s, a, i, k);
      }
      forall x
        ensures x in r <==> x in s || x == a
      {
        InsertedMembers(s, a, i);
        assert x in r <==> x in multiset(r);
      }
    }

    /** Non-local accounts with queued transactions, those heard of longest ago first. */
    method NonLocals() returns (addresses: seq<Address>)
      ensures forall i :: 0 <= i < |addresses| ==> addresses[i] in queue && addresses[i] !in locals
      ensures PoolFairness.Distinct(addresses) && ByBeat(addresses)
      ensures forall a :: a in queue ==> a in locals || a in addresses
    {
      addresses := [];
      var rest := queue.Keys;
      while rest != {}
        invariant rest <= queue.Keys
        invariant forall a :: a in queue && a !in rest ==> a in locals || a in addresses
        invariant forall a :: a in addresses ==> a in queue && a !in locals && a !in rest
        invariant PoolFairness.Distinct(addresses) && ByBeat(addresses)
        decreases rest
      {
        var a :| a in rest;
        rest := rest - {a};
        if a !in locals {
          addresses := InsertByBeat(addresses, a);
        }
      }
    }

    method CountQueued() returns (total: nat)
      ensures total == |Places(queue)|
    {
      total := 0;
      var rest := queue.Keys;
      ghost var counted: Accounts := map[];
      while rest != {}
        invariant rest <= queue.Keys && counted.Keys == queue.Keys - rest
        invariant forall a :: a in counted ==> counted[a] == queue[a]
        invariant total == |Places(counted)|
        decreases rest
      {
        var a :| a in rest;
        rest := rest - {a};
        CountList(counted, a, queue[a]);
        counted := counted[a := queue[a]];
        total := total + |queue[a]|;
      }
      assert counted == queue;
    }

    /** promoteExecutables, for some accounts or for all that have something queued. */
    method PromoteExecutables(accounts: Option<seq<Address>>) returns (ghost ready: PoolView)
      requires Valid()
      modifies `pending, `queue, `all, `tracked, `beats
      ensures Valid() && (old(InRuns()) ==> InRuns()) && (old(Payable()) ==> Payable())
      ensures accounts.Some? && PoolFairness.Distinct(accounts.value) ==>
        PromotedFirst(Rules(), old(Now()), ready, accounts.value, |accounts.value|)
      ensures accounts.None? ==> forall a :: Promoted(Rules(), old(Now()), ready, a)
      ensures Settled(Rules(), ready, Now(), accountSlots, globalSlots, globalQueue)
      ensures |Places(ready.pending)| <= globalSlots ==> tracked == ready.tracked
      ensures Ordered(ready) && |Places(ready.pending)| <= |old(all)|
      ensures forall h :: h in all ==> h in old(all)
    {
      hide Valid, InRuns, Promoted, Alike, PromotedFirst, Fair, Evicted, PoolFairness.Distinct, Places, Ordered, IsPlaced, Known,
           Covered, Within;
      KnownIsPlaced();
      PlacedCovered(Rules(), Now(), all);
      NothingAdded(Now());
      var addrs;
      if accounts.Some? {
        addrs := accounts.value;
      } else {
        addrs := Listing(queue.Keys);
      }
      PromotingStarts(Rules(), Now(), addrs);
      for i := 0 to |addrs|
        invariant Valid() && (old(InRuns()) ==> InRuns())
        invariant PoolFairness.Distinct(addrs) ==> PromotedFirst(Rules(), old(Now()), Now(), addrs, i)
        invariant Within(old(Now()), Now())
        invariant forall h :: h in all ==> h in old(all)
      {
        ghost var mid := Now();
        PromoteAccount(addrs[i]);
        PromotedOrAlike(Rules(), mid, Now());
        WithinTwice(old(Now()), mid, Now());
        if PoolFairness.Distinct(addrs) {
          PromotingNext(Rules(), old(Now()), mid, Now(), addrs, i);
        }
      }
      ready := Now();
      ValidIsOrdered();
      FewerPending();
      NotGrown(old(all), all);
      if accounts.None? {
        AllPromoted(Rules(), old(Now()), ready, addrs);
      }
      TruncatePending();
      TruncateQueue();
      SettledPlaced(Rules(), ready, Now(), accountSlots, globalSlots, globalQueue);
      WithinTwice(old(Now()), ready, Now());
      KnownIsPlaced();
      PlacedCovered(Rules(), Now(), all);
      if old(Payable()) {
        WithinCovered(Rules(), old(Now()), Now());
      }
    }

    // ----- a new head -----

    /** Part of an account's pending list goes, for good or back to the queue. */
    method DropPending(addr: Address, kept: seq<Tx>, gone: seq<Tx>, postponed: seq<Tx>)
      requires Valid() && Ascending(kept) && Ascending(gone) && Ascending(postponed)
      requires forall t :: t in Left(pending, addr) <==> t in kept || t in gone || t in postponed
      requires forall t :: t in kept ==> t !in gone && t !in postponed
      requires forall t :: t in gone ==> t !in postponed
      modifies `pending, `queue, `all
      ensures Valid() && pending == WithList(old(pending), addr, kept)
      ensures forall t :: t in Left(queue, addr) <==> t in Left(old(queue), addr) || t in postponed
      ensures forall b :: b != addr ==> Left(queue, b) == Left(old(queue), b)
      ensures forall h :: h in all ==> h in old(all)
    {
      hide Partition, Ascending;
      LeftOwned(addr);
      TakePending(pending, queue, all, {}, addr, kept, AsSet(gone) + AsSet(postponed));
      pending := WithList(pending, addr, kept);
      assert {} + (AsSet(gone) + AsSet(postponed)) == AsSet(gone) + AsSet(postponed);
      AscendingDistinct(gone);
      ForgetAll(gone, AsSet(gone) + AsSet(postponed));
      assert AsSet(gone) + AsSet(postponed) - (set tx | tx in gone) == AsSet(postponed);
      EnqueueAll(addr, postponed);
    }

    lemma LeftOwned(addr: Address)
      requires Valid()
      ensures Ascending(Left(pending, addr)) && forall t :: t in Left(pending, addr) ==> t.sender == addr
    {
      LeftIsListed(pending, all, addr);
    }

    /** demoteUnexecutables for one account: what is too old or unpayable goes, what is
        behind that is postponed, and so is everything if the first nonce is missing. */
    method DemoteAccount(addr: Address)
      requires Valid() && addr in pending
      modifies `pending, `queue, `all, `beats
      ensures Valid() && forall b :: b != addr ==> Left(pending, b) == Left(old(pending), b) && Left(queue, b) == Left(old(queue), b)
      ensures Left(pending, addr) == Executable(Left(old(pending), addr), StateNonce(addr), Balance(addr), currentMaxGas)
      ensures forall t :: t in Left(queue, addr) <==>
        t in Left(old(queue), addr) || IsPostponed(t, Left(old(pending), addr), StateNonce(addr), Balance(addr), currentMaxGas)
      ensures beats == if addr in pending then old(beats) else old(beats) - {addr}
      ensures forall h :: h in all ==> h in old(all)
    {
      hide Partition, Select, Ascending, FilteredAll;
      var nonce, list := StateNonce(addr), pending[addr];
      LeftOwned(addr);
      ghost var was := pending;
      Cut(list, Below(nonce));
      var young := Select(list, Not(Below(nonce)));
      NoneAscend();
      DropPending(addr, young, Select(list, Below(nonce)), []);
      WithTwice(was, addr, young, []);
      DemoteFacts(young, Balance(addr), currentMaxGas);
      var k := FirstExceeding(young, Balance(addr), currentMaxGas);
      var fit := young[..k];
      DropPending(addr, fit, Select(young, Exceeding(Balance(addr), currentMaxGas)),
                  Select(young[k..], Not(Exceeding(Balance(addr), currentMaxGas))));
      WithTwice(was, addr, young, fit);
      var first := TxAt(fit, nonce);
      if |fit| > 0 && first.None? {
        DropPending(addr, [], [], fit);
        WithTwice(was, addr, fit, []);
      }
      PostponedFacts(list, nonce, Balance(addr), currentMaxGas);
      if addr !in pending {
        beats := beats - {addr};
      }
    }

    method DemoteUnexecutables()
      requires Valid()
      modifies `pending, `queue, `all, `beats
      ensures Valid()
      ensures forall a :: Left(pending, a) == Executable(Left(old(pending), a), StateNonce(a), Balance(a), currentMaxGas)
      ensures forall a, t :: t in Left(queue, a) <==>
        t in Left(old(queue), a) || IsPostponed(t, Left(old(pending), a), StateNonce(a), Balance(a), currentMaxGas)
      ensures forall h :: h in all ==> h in old(all)
    {
      hide Valid, Executable, IsPostponed;
      var rest := pending.Keys;
      ghost var was := pending;
      forall a {
        NothingExecutable(StateNonce(a), Balance(a), currentMaxGas);
      }
      while rest != {}
        invariant Valid() && rest <= pending.Keys && rest <= was.Keys
        invariant forall a :: a in rest ==> Left(pending, a) == Left(was, a)
        invariant forall a :: a !in rest ==> Left(pending, a) == Executable(Left(was, a), StateNonce(a), Balance(a), currentMaxGas)
        invariant forall a :: a in rest ==> Left(queue, a) == Left(old(queue), a)
        invariant forall a, t :: a !in rest ==> (t in Left(queue, a) <==>
          t in Left(old(queue), a) || IsPostponed(t, Left(was, a), StateNonce(a), Balance(a), currentMaxGas))
        invariant forall h :: h in all ==> h in old(all)
        decreases rest
      {
        var addr :| addr in rest;
        rest := rest - {addr};
        NonePendingEmpty();
        DemoteAccount(addr);
        forall a | a in rest
          ensures a in pending
        {
          assert Left(pending, a) == Left(was, a) && Left(was, a) != [];
        }
      }
    }

    lemma NonePendingEmpty()
      requires Valid()
      ensures forall a :: a in pending ==> pending[a] != []
    {
    }

    /** addTxsLocked: a batch of additions, which make up `added`; then the senders of what was
        new are promoted, which makes `lifted`, and the limits are kept. */
    method AddAll(txs: seq<Tx>, local: bool, verdicts: seq<Verdict>)
      returns (results: seq<AddResult>, ghost added: PoolView, ghost lifted: PoolView)
      requires Valid() && |verdicts| == |txs|
      modifies `pending, `queue, `all, `tracked, `beats, `locals
      ensures Valid() && (old(InRuns()) ==> InRuns()) && (old(Payable()) ==> Payable()) && |results| == |txs|
      ensures Screened(old(Rules()), gasPrice, txs, local, verdicts, results)
      ensures forall h :: h in all ==> h in old(all) || exists i :: 0 <= i < |txs| && txs[i].hash == h
      ensures |all| <= |old(all)| + |txs|
      ensures Ordered(added) && Ordered(lifted)
      ensures |old(all)| + |txs| <= globalSlots + globalQueue ==>
        (added.pending, added.queue) == Injected(old(pending), old(queue), txs, results) && added.tracked == old(tracked)
      ensures |old(all)| + |txs| <= globalSlots + globalQueue ==>
        Decided(old(Rules()), gasPrice, priceBump, old(Now()), txs, local, verdicts, results)
      ensures AllRefused(results) ==> added == old(Now()) && all == old(all)
      ensures local || locals == old(locals)
      ensures forall a :: if a in Senders(txs, results) then Promoted(Rules(), added, lifted, a) else Alike(Rules(), added, lifted, a)
      ensures if Senders(txs, results) == {} then Now() == lifted == added
              else Settled(Rules(), lifted, Now(), accountSlots, globalSlots, globalQueue)
      ensures |Places(lifted.pending)| <= globalSlots ==> tracked == lifted.tracked
      ensures |old(all)| + |txs| <= globalSlots ==> |Places(lifted.pending)| <= globalSlots
    {
      hide Valid, InRuns, Payable, Injected, Senders, Promoted, Alike, Settled, Places, AllRefused, Ordered, Decided, Screened;
      var dirty;
      results, dirty := AddEach(txs, local, verdicts);
      RefusedSendNothing(txs, results);
      added, lifted := Now(), Now();
      ValidIsOrdered();
      FewerPending();
      NobodyPromoted(Rules(), added);
      if |dirty| > 0 {
        var addrs := Listing(dirty);
        ghost var before := all;
        lifted := PromoteExecutables(Some(addrs));
        NotGrown(before, all);
        ListedPromoted(Rules(), added, lifted, addrs, dirty);
      }
    }

    /** The additions, one by one, and the senders of what was new. */
    method AddEach(txs: seq<Tx>, local: bool, verdicts: seq<Verdict>) returns (results: seq<AddResult>, dirty: set<Address>)
      requires Valid() && |verdicts| == |txs|
      modifies `pending, `queue, `all, `tracked, `beats, `locals
      ensures Valid() && (old(InRuns()) ==> InRuns()) && (old(Payable()) ==> Payable()) && |results| == |txs|
      ensures Screened(old(Rules()), gasPrice, txs, local, verdicts, results)
      ensures forall h :: h in all ==> h in old(all) || exists i :: 0 <= i < |txs| && txs[i].hash == h
      ensures |all| <= |old(all)| + |txs|
      ensures |old(all)| + |txs| <= globalSlots + globalQueue ==>
        && (pending, queue) == Injected(old(pending), old(queue), txs, results) && tracked == old(tracked)
        && Decided(old(Rules()), gasPrice, priceBump, old(Now()), txs, local, verdicts, results)
      ensures AllRefused(results) ==> Now() == old(Now()) && all == old(all)
      ensures dirty == Senders(txs, results) && (local || locals == old(locals))
    {
      hide Valid, InRuns, Payable, Taken, AllRefused, Batched, Outcome, Senders, Screened, ScreenedAs;
      results, dirty := [], {};
      NoneInjected(pending, queue, txs);
      NothingBatched(Rules(), gasPrice, priceBump, Now(), txs, local, verdicts);
      NothingScreened(Rules(), gasPrice, txs, local, verdicts);
      for i := 0 to |txs|
        invariant Valid() && (old(InRuns()) ==> InRuns()) && (old(Payable()) ==> Payable()) && |results| == i
        invariant Screened(old(Rules()), gasPrice, txs, local, verdicts, results)
        invariant forall h :: h in all ==> h in old(all) || exists k :: 0 <= k < i && txs[k].hash == h
        invariant |all| <= |old(all)| + i
        invariant dirty == Senders(txs[..i], results) && (local || locals == old(locals))
        invariant |old(all)| + |txs| <= globalSlots + globalQueue ==>
          Batched(old(Rules()), gasPrice, priceBump, old(Now()), txs, local, verdicts, results, Now())
        invariant AllRefused(results) ==> Now() == old(Now()) && all == old(all)
      {
        ghost var before, mid, rules := all, Now(), Rules();
        var r := AddOne(txs[i], local, verdicts[i]);
        GrownByOne(before, all, txs[i].hash);
        OneMoreRefused(results, r);
        if |old(all)| + |txs| <= globalSlots + globalQueue {
          SameOutcome(rules, old(Rules()), gasPrice, priceBump, mid, txs[i], local, verdicts[i].malformed);
          BatchedNext(old(Rules()), gasPrice, priceBump, old(Now()), txs, local, verdicts, results, mid, r, Now());
        }
        ScreenedNext(old(Rules()), rules, gasPrice, txs, local, verdicts, results, r);
        SendersNext(txs, i, results, r);
        results := results + [r];
        if r.Added? && !r.replaced {
          dirty := dirty + {txs[i].sender};
        }
      }
      assert txs[..|txs|] == txs;
      if |old(all)| + |txs| <= globalSlots + globalQueue {
        BatchedMeans(old(Rules()), gasPrice, priceBump, old(Now()), txs, local, verdicts, results, Now());
      }
    }

    /** No more is pending than is known. */
    lemma FewerPending()
      requires Valid()
      ensures |Places(pending)| <= |all|
    {
      hide Partition, Places;
      PartitionListed(pending, queue, all, {});
      PlacesAreKnown(pending, all);
    }

    lemma ValidIsOrdered()
      requires Valid()
      ensures Ordered(Now())
    {
      forall a
        ensures OrderedAt(Now(), a)
      {
        LeftIsAscending({}, a);
        forall x, y | x in Left(pending, a) && y in Left(queue, a)
          ensures x.nonce != y.nonce
        {
          LeftIsListed(pending, all, a);
          NoncesAreDisjoint(pending, queue, all, x, y);
        }
      }
    }

    /** One of a batch. */
    method AddOne(tx: Tx, local: bool, verdict: Verdict) returns (r: AddResult)
      requires Valid()
      modifies `pending, `queue, `all, `tracked, `beats, `locals
      ensures Valid() && (old(InRuns()) ==> InRuns()) && (old(Payable()) ==> Payable())
      ensures forall h :: h in all ==> h in old(all) || h == tx.hash
      ensures Refused(r) ==> all == old(all) && Now() == old(Now())
      ensures local || locals == old(locals)
      ensures ScreenedAs(old(Rules()), gasPrice, tx, local, verdict.malformed, r)
      ensures !old(Full()) ==>
        && tracked == old(tracked)
        && (pending, queue) == (if r.Added? then Taken(old(pending), old(queue), tx) else (old(pending), old(queue)))
        && r == old(Outcome(Rules(), gasPrice, priceBump, Now(), tx, local, verdict.malformed))
    {
      hide Valid, InRuns, Payable, Taken, Known, IsPlaced, SameSlot, Outbids, MayEnter, Covered;
      KnownHashes();
      AcceptableMeans(tx, local);
      ghost var roomy;
      r, roomy := Add(tx, local, verdict.malformed, verdict.underpriced, verdict.drops);
    }

    /** reset: the pool moves to a new head. The lists go through the additions, the promotion
        of their senders, the limits, demotion, promotion, and the limits again. With nothing
        to inject, runs become runs from the new state's nonces. With something, a list
        without gaps becomes one exactly if it fills, as long as the pool is not full and the
        limits take nothing from the pending lists. */
    method Reset(stateNonces: map<Address, nat>, balances: map<Address, nat>, maxGas: nat, reinject: seq<Tx>, verdicts: seq<Verdict>)
      returns (results: seq<AddResult>, ghost added: PoolView, ghost lifted: PoolView, ghost injected: PoolView,
               ghost demoted: PoolView, ghost ready: PoolView)
      requires Valid() && |verdicts| == |reinject|
      modifies this
      ensures Valid() && this.stateNonces == stateNonces && this.balances == balances && currentMaxGas == maxGas
      ensures Payable() && Screened(Rules(), gasPrice, reinject, false, verdicts, results)
      ensures |results| == |reinject| && gasPrice == old(gasPrice) && locals == old(locals)
      ensures |old(all)| + |reinject| <= globalSlots + globalQueue ==>
        && (added.pending, added.queue) == Injected(old(pending), old(queue), reinject, results)
        && Decided(Rules(), gasPrice, priceBump, old(Now()).(tracked := map[]), reinject, false, verdicts, results)
      ensures forall a :: if a in Senders(reinject, results) then Promoted(Rules(), added, lifted, a) else Alike(Rules(), added, lifted, a)
      ensures if Senders(reinject, results) == {} then injected == lifted == added
              else Settled(Rules(), lifted, injected, accountSlots, globalSlots, globalQueue)
      ensures forall a :: Demoted(Rules(), injected, demoted, a)
      ensures forall a :: Promoted(Rules(), demoted, ready, a)
      ensures Settled(Rules(), ready, Now(), accountSlots, globalSlots, globalQueue)
      ensures reinject == [] ==> injected == old(Now()).(tracked := map[])
      ensures reinject == [] && old(InRuns()) ==> InRuns()
      ensures |old(all)| + |reinject| <= globalSlots ==> WithinLimit(lifted, ready, globalSlots)
      ensures |old(all)| + |reinject| <= globalSlots + globalQueue && WithinLimit(lifted, ready, globalSlots) ==>
        forall a :: GapFree(Left(old(pending), a)) ==>
          (IsRun(Left(pending, a), NonceAt(stateNonces, a), PendingNonce(a)) <==>
           Fills(Rules(), added.pending, added.queue, a in Senders(reinject, results), a))
      ensures |old(all)| + |reinject| <= globalSlots + globalQueue && WithinLimit(lifted, ready, globalSlots) && old(InRuns()) ==>
        (InRuns() <==> forall a :: Fills(Rules(), added.pending, added.queue, a in Senders(reinject, results), a))
    {
      hide Partition, Contiguous, Promoted, Settled, Demoted, DemotedAll, GapFree, Gapless, Injected, Senders, Places, Ordered,
           Alike, AllRefused, Fills, IsRun, Decided, Payable, Screened;
      RunsHaveNoGaps(pending, tracked, this.stateNonces);
      ValidIsOrdered();
      ghost var was := Now();
      results, added, lifted := Reinject(stateNonces, balances, maxGas, reinject, verdicts);
      injected := Now();
      ValidIsOrdered();
      ghost var known := all;
      Demote();
      NotGrown(known, all);
      demoted := Now();
      ValidIsOrdered();
      DemotedMeans(Rules(), injected, demoted);
      if old(InRuns()) && reinject == [] {
        GaplessStays(Rules(), injected, demoted);
        DemotedInRuns(injected);
      }
      ready := PromoteExecutables(None);
      ReadyIsPayable(injected, demoted, ready);
      if |old(all)| + |reinject| <= globalSlots + globalQueue && WithinLimit(lifted, ready, globalSlots) {
        InjectedKept(Rules(), added, lifted, injected, Senders(reinject, results) == {}, accountSlots, globalSlots, globalQueue);
        SettledQueue(Rules(), ready, Now(), accountSlots, globalSlots, globalQueue);
        forall a | GapFree(Left(was.pending, a))
          ensures IsRun(Left(pending, a), NonceAt(stateNonces, a), PendingNonce(a)) <==>
                  Fills(Rules(), added.pending, added.queue, a in Senders(reinject, results), a)
        {
          ResetRuns(Rules(), was, reinject, results, added, lifted, injected, demoted, ready, a);
        }
        RunsEverywhere(pending, tracked, stateNonces);
      }
    }

    /** After demotion and promotion the limits leave nothing that is not covered. */
    lemma ReadyIsPayable(injected: PoolView, demoted: PoolView, ready: PoolView)
      requires Valid() && Ordered(injected) && forall a :: Demoted(Rules(), injected, demoted, a)
      requires forall a :: Promoted(Rules(), demoted, ready, a)
      requires Settled(Rules(), ready, Now(), accountSlots, globalSlots, globalQueue)
      ensures Payable()
    {
      hide Valid, Demoted, Promoted, Settled, Ascending, AllCovered, Within, KnownCovered, IsPlaced, Known;
      forall a
        ensures Ascending(Left(injected.pending, a))
      {
        assert OrderedAt(injected, a);
      }
      RenewedCovered(Rules(), injected, demoted, ready);
      SettledPlaced(Rules(), ready, Now(), accountSlots, globalSlots, globalQueue);
      WithinCovered(Rules(), ready, Now());
      KnownIsPlaced();
      PlacedCovered(Rules(), Now(), all);
    }

    /** The first step of reset: the new state is taken, and what the reorganisation dropped is
        added again. */
    method Reinject(stateNonces: map<Address, nat>, balances: map<Address, nat>, maxGas: nat, reinject: seq<Tx>, verdicts: seq<Verdict>)
      returns (results: seq<AddResult>, ghost added: PoolView, ghost lifted: PoolView)
      requires Valid() && |verdicts| == |reinject|
      modifies this
      ensures Valid() && this.stateNonces == stateNonces && this.balances == balances && currentMaxGas == maxGas
      ensures Screened(Rules(), gasPrice, reinject, false, verdicts, results)
      ensures |results| == |reinject| && Ordered(lifted) && |all| <= |old(all)| + |reinject|
      ensures |old(all)| + |reinject| <= globalSlots + globalQueue ==>
        && (added.pending, added.queue) == Injected(old(pending), old(queue), reinject, results) && added.tracked == map[]
        && Decided(Rules(), gasPrice, priceBump, old(Now()).(tracked := map[]), reinject, false, verdicts, results)
      ensures gasPrice == old(gasPrice) && locals == old(locals)
      ensures forall a :: if a in Senders(reinject, results) then Promoted(Rules(), added, lifted, a) else Alike(Rules(), added, lifted, a)
      ensures if Senders(reinject, results) == {} then Now() == lifted == added
              else Settled(Rules(), lifted, Now(), accountSlots, globalSlots, globalQueue)
      ensures |Places(lifted.pending)| <= globalSlots ==> tracked == lifted.tracked
      ensures |old(all)| + |reinject| <= globalSlots ==> |Places(lifted.pending)| <= globalSlots
      ensures reinject == [] ==> Now() == old(Now()).(tracked := map[])
    {
      hide Partition, Contiguous, Promoted, Settled, Injected, Senders, Places, Ordered, Alike, Decided, Payable, Screened;
      this.stateNonces, this.balances, currentMaxGas := stateNonces, balances, maxGas;
      tracked := map[];
      results, added, lifted := AddAll(reinject, false, verdicts);
      assert reinject == [] ==> AllRefused(results) && Senders([], []) == {} by { NoneInjected(old(pending), old(queue), reinject); }
    }

    /** The second step of reset: what is no longer executable goes, and the tracked nonces
        follow. */
    method Demote()
      requires Valid()
      modifies `pending, `queue, `all, `tracked, `beats
      ensures Valid() && DemotedAll(Rules(), old(Now()), Now())
      ensures forall h :: h in all ==> h in old(all)
    {
      hide Partition, Executable, IsPostponed;
      DemoteUnexecutables();
      UpdateNonces();
    }

    /** Lists without gaps leave runs. */
    lemma DemotedInRuns(was: PoolView)
      requires Valid() && DemotedAll(Rules(), was, Now()) && Gapless(Rules(), was, Now())
      ensures InRuns()
    {
      hide Executable, GapFree, IsPostponed;
      forall a
        ensures IsRun(Left(pending, a), StateNonce(a), PendingNonce(a))
      {
        LeftOwned(a);
        assert Demoted(Rules(), was, Now(), a);
        ExecutableIsRun(Left(was.pending, a), StateNonce(a), Balance(a), currentMaxGas);
      }
      RunsAreContiguous(pending, tracked, stateNonces);
    }

    /** Every pending list's last nonce becomes the tracked one. */
    method UpdateNonces()
      requires Valid()
      modifies `tracked
      ensures Valid()
      ensures forall a :: a in pending ==> |pending[a]| > 0 && PendingNonce(a) == pending[a][|pending[a]| - 1].nonce + 1
      ensures forall a :: a !in pending ==> PendingNonce(a) == old(PendingNonce(a))
    {
      hide Partition;
      NonePendingEmpty();
      var rest := pending.Keys;
      while rest != {}
        invariant Valid() && rest <= pending.Keys
        invariant forall a :: a in pending && a !in rest ==> PendingNonce(a) == pending[a][|pending[a]| - 1].nonce + 1
        invariant forall a :: a !in pending ==> PendingNonce(a) == old(PendingNonce(a))
        decreases rest
      {
        var a :| a in rest;
        rest := rest - {a};
        var txs := pending[a];
        tracked := tracked[a := txs[|txs| - 1].nonce + 1];
      }
    }
  }

  /** The members of a set, in some order. */
  method Listing(s: set<Address>) returns (r: seq<Address>)
    ensures PoolFairness.Distinct(r) && forall a :: a in s <==> a in r
  {
    r := [];
    var rest := s;
    while rest != {}
      invariant PoolFairness.Distinct(r) && forall a :: a in r ==> a !in rest
      invariant rest <= s && forall a :: a in s <==> a in rest || a in r
      decreases rest
    {
      var a :| a in rest;
      rest := rest - {a};
      r := r + [a];
    }
  }

  /** Where runs end: a reorganisation that brings back the first of an account's mined
      transactions but not the second leaves a gap before the pending third. */
  method ReinjectionLeavesGap() returns (pool: TxPool, ghost before: PoolView)
    ensures fresh(pool) && pool.Valid() && Contiguous(before.pending, before.tracked, map[1 := 2])
    ensures pool.stateNonces == map[1 := 0] && !IsRun(Left(pool.pending, 1), 0, pool.PendingNonce(1)) && !pool.InRuns()
  {
    hide TxPool.Valid, TxPool.InRuns, Injected, Promoted, Demoted, Settled, Decided, Ordered, Fills, Places, Alike, OnlyThird,
         IsRun, Senders, GapFree, WithinLimit;
    pool := PoolWithThird();
    before := pool.Now();
    InRunsMeans(pool);
    StillOnlyThird(before, before.(tracked := map[]));
    var results, added, _, _, _, _ := pool.Reset(map[1 := 0], map[1 := 100], 100, [FIRST], [Verdict(false, false, [])]);
    FirstAccepted(pool.Rules(), before.(tracked := map[]), results);
    FirstDoesNotFill(pool.Rules(), before.(tracked := map[]), added);
    NoRunAt(pool.pending, pool.tracked, pool.stateNonces, 1);
    InRunsMeans(pool);
  }

  /** A pool with one pending transaction, the account's third. */
  method PoolWithThird() returns (pool: TxPool)
    ensures fresh(pool) && pool.Valid() && pool.InRuns() && OnlyThird(pool.Now()) && |pool.all| <= 1
    ensures pool.globalSlots == pool.globalQueue == pool.priceBump == 10 && pool.gasPrice == 0
    ensures pool.Rules() == PoolRules(map[1 := 2], map[1 := 100], 100, {}, 10)
  {
    hide TxPool.Valid, TxPool.InRuns, Settled, Ordered, PromotedFirst, Places, OnlyThird;
    pool := PoolQueueingThird();
    ghost var known, queued := pool.all, pool.Now();
    ghost var ready := pool.PromoteExecutables(Some([1]));
    NotGrown(known, pool.all);
    ThirdIsPending(pool.Rules(), queued, ready);
    SettledQueue(pool.Rules(), ready, pool.Now(), 4, 10, 10);
    StillOnlyThird(ready, pool.Now());
  }

  /** A new pool that has been given that transaction. */
  method PoolQueueingThird() returns (pool: TxPool)
    ensures fresh(pool) && pool.Valid() && pool.InRuns() && |pool.all| <= 1
    ensures pool.pending == map[] && pool.queue == map[1 := [THIRD]] && pool.tracked == map[]
    ensures pool.globalSlots == pool.globalQueue == pool.priceBump == 10 && pool.accountSlots == 4 && pool.gasPrice == 0
    ensures pool.Rules() == PoolRules(map[1 := 2], map[1 := 100], 100, {}, 10)
  {
    hide TxPool.Valid, TxPool.InRuns, Taken, Outbids;
    pool := new TxPool(10, 4, 10, 10, 10, map[1 := 2], map[1 := 100], 100, 0, {});
    ghost var known := pool.all;
    NothingPlaced(pool.Now());
    var r, _ := pool.Add(THIRD, false, false, false, []);
    GrownByOne(known, pool.all, THIRD.hash);
    OnlyQueued();
  }

  lemma InRunsMeans(pool: TxPool)
    ensures pool.InRuns() <==> Contiguous(pool.pending, pool.tracked, pool.stateNonces)
  {
  }
}
