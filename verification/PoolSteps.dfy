/** What the pool's steps do to its lists, account by account: promotion, demotion, and the
    limits, and when what is left runs without a gap. */
module PoolSteps {
  import opened Wrappers
  import opened Transactions
  import opened TxPartition
  import opened TxLists
  import opened PoolFairness

  datatype AddResult = Added(replaced: bool) | KnownTransaction | Invalid | Underpriced | ReplaceUnderpriced

  /** The list holds exactly the nonces from start up to end. */
  predicate IsRun(s: seq<Tx>, start: nat, end: nat) {
    start + |s| == end && forall i :: 0 <= i < |s| ==> s[i].nonce == start + i
  }

  function NonceAt(nonces: map<Address, nat>, a: Address): nat {
    if a in nonces then nonces[a] else 0
  }

  /** The nonce the pool tracks for an account, or else the state's. */
  function Tracked(tracked: map<Address, nat>, state: map<Address, nat>, a: Address): nat {
    if a in tracked then tracked[a] else NonceAt(state, a)
  }

  /** Each pending list runs without a gap from the state's nonce to the tracked one. */
  ghost predicate Contiguous(pending: Accounts, tracked: map<Address, nat>, state: map<Address, nat>) {
    forall a :: IsRun(Left(pending, a), NonceAt(state, a), Tracked(tracked, state, a))
  }

  /** The lists, with the nonces and heartbeats kept beside them. */
  datatype PoolView = PoolView(pending: Accounts, queue: Accounts, tracked: map<Address, nat>, beats: map<Address, nat>)

  predicate IsPlaced(v: PoolView, tx: Tx) {
    tx in Left(v.pending, tx.sender) || tx in Left(v.queue, tx.sender)
  }

  lemma KnownMinus(was: All, now: All, full: bool, drops: seq<Hash>)
    requires if full then (forall h :: h in now <==> h in was && h !in drops) && forall h :: h in now ==> now[h] == was[h]
             else now == was
    ensures forall t :: Known(now, t) <==> Known(was, t) && !(full && t.hash in drops)
  {
  }

  /** What the promotion of an account depends on. */
  datatype PoolRules = PoolRules(stateNonces: map<Address, nat>, balances: map<Address, nat>, maxGas: nat,
                                 locals: set<Address>, accountQueue: nat)

  /** What promotion does to one account: of its usable queued transactions the executable
      run becomes pending, and of the rest as many stay queued as the limit allows. */
  ghost predicate Promoted(t: PoolRules, was: PoolView, now: PoolView, a: Address) {
    var q := Usable(Left(was.queue, a), NonceAt(t.stateNonces, a), NonceAt(t.balances, a), t.maxGas);
    var start := Tracked(was.tracked, t.stateNonces, a);
    var k := ReadyLength(q, start);
    && (forall x :: x in Left(now.pending, a) <==> x in Left(was.pending, a) || x in q[..k])
    && Tracked(now.tracked, t.stateNonces, a) == (if k > 0 then q[k - 1].nonce + 1 else start)
    && Left(now.queue, a) == (if a in t.locals || |q[k..]| <= t.accountQueue then q[k..] else q[k..][..t.accountQueue])
  }

  ghost predicate Alike(t: PoolRules, was: PoolView, now: PoolView, a: Address) {
    && Left(now.pending, a) == Left(was.pending, a) && Left(now.queue, a) == Left(was.queue, a)
    && Tracked(now.tracked, t.stateNonces, a) == Tracked(was.tracked, t.stateNonces, a)
  }

  /** The first n accounts are promoted, the others as they were. */
  ghost predicate PromotedFirst(t: PoolRules, was: PoolView, now: PoolView, addrs: seq<Address>, n: nat) {
    && n <= |addrs|
    && (forall a :: a !in addrs[..n] ==> Alike(t, was, now, a))
    && (forall a :: a in addrs[..n] ==> Promoted(t, was, now, a))
  }

  lemma PromotingStarts(t: PoolRules, was: PoolView, addrs: seq<Address>)
    ensures PromotedFirst(t, was, was, addrs, 0)
  {
  }

  lemma PromotingNext(t: PoolRules, was: PoolView, mid: PoolView, now: PoolView, addrs: seq<Address>, n: nat)
    requires PromotedFirst(t, was, mid, addrs, n) && n < |addrs| && PoolFairness.Distinct(addrs)
    requires Promoted(t, mid, now, addrs[n]) && forall a :: a != addrs[n] ==> Alike(t, mid, now, a)
    ensures PromotedFirst(t, was, now, addrs, n + 1)
  {
    hide Promoted, Alike;
    assert addrs[..n + 1] == addrs[..n] + [addrs[n]];
    assert addrs[n] !in addrs[..n];
    forall a | a !in addrs[..n + 1]
      ensures Alike(t, was, now, a)
    {
      AlikeTwice(t, was, mid, now, a);
    }
    forall a | a in addrs[..n + 1]
      ensures Promoted(t, was, now, a)
    {
      if a == addrs[n] {
        AlikeThenPromoted(t, was, mid, now, a);
      } else {
        PromotedThenAlike(t, was, mid, now, a);
      }
    }
  }

  lemma AlikeTwice(t: PoolRules, was: PoolView, mid: PoolView, now: PoolView, a: Address)
    requires Alike(t, was, mid, a) && Alike(t, mid, now, a)
    ensures Alike(t, was, now, a)
  {
  }

  lemma AlikeThenPromoted(t: PoolRules, was: PoolView, mid: PoolView, now: PoolView, a: Address)
    requires Alike(t, was, mid, a) && Promoted(t, mid, now, a)
    ensures Promoted(t, was, now, a)
  {
  }

  lemma PromotedThenAlike(t: PoolRules, was: PoolView, mid: PoolView, now: PoolView, a: Address)
    requires Promoted(t, was, mid, a) && Alike(t, mid, now, a)
    ensures Promoted(t, was, now, a)
  {
  }

  /** Promoting every account with a queue promotes all. */
  lemma AllPromoted(t: PoolRules, was: PoolView, now: PoolView, addrs: seq<Address>)
    requires PromotedFirst(t, was, now, addrs, |addrs|) && forall a :: a in was.queue ==> a in addrs
    ensures forall a :: Promoted(t, was, now, a)
  {
    assert addrs[..|addrs|] == addrs;
    forall a
      ensures Promoted(t, was, now, a)
    {
      if a !in addrs {
        assert Alike(t, was, now, a) && Left(was.queue, a) == [];
        NothingUsable(NonceAt(t.stateNonces, a), NonceAt(t.balances, a), t.maxGas);
      }
    }
  }

  /** After promotion the pending lists are cut fairly, and then the queues. */
  ghost predicate Settled(t: PoolRules, ready: PoolView, now: PoolView, accountSlots: nat, globalSlots: nat, globalQueue: nat) {
    && Fair(ready.pending, now.pending, t.locals, accountSlots, globalSlots)
    && Evicted(ready.queue, now.queue, t.locals, ready.beats, globalQueue)
  }

  /** What the checks on the transaction alone and the price heap say. */
  datatype Verdict = Verdict(malformed: bool, underpriced: bool, drops: seq<Hash>)

  predicate Refused(r: AddResult) {
    r == KnownTransaction || r == Invalid || r == Underpriced
  }

  predicate AllRefused(rs: seq<AddResult>) {
    forall i :: 0 <= i < |rs| ==> Refused(rs[i])
  }

  lemma OneMoreRefused(rs: seq<AddResult>, r: AddResult)
    ensures AllRefused(rs + [r]) <==> AllRefused(rs) && Refused(r)
  {
    var more := rs + [r];
    assert more[|rs|] == r;
    assert forall i :: 0 <= i < |rs| ==> more[i] == rs[i];
  }

  /** Where an accepted transaction goes: in the place of a pending one, or into the queue. */
  function Taken(pending: Accounts, queue: Accounts, tx: Tx): (Accounts, Accounts) {
    if TxAt(Left(pending, tx.sender), tx.nonce).Some? then
      (WithList(pending, tx.sender, Placed(Left(pending, tx.sender), tx)), queue)
    else (pending, WithList(queue, tx.sender, Placed(Left(queue, tx.sender), tx)))
  }

  /** The lists after a batch of which some were accepted. */
  function Injected(pending: Accounts, queue: Accounts, txs: seq<Tx>, results: seq<AddResult>): (Accounts, Accounts)
    requires |results| == |txs|
  {
    if |txs| == 0 then (pending, queue)
    else
      var n := |txs| - 1;
      var before := Injected(pending, queue, txs[..n], results[..n]);
      if results[n].Added? then Taken(before.0, before.1, txs[n]) else before
  }

  lemma NoneInjected(pending: Accounts, queue: Accounts, txs: seq<Tx>)
    ensures txs[..0] == [] && Injected(pending, queue, [], []) == (pending, queue) && Senders([], []) == {}
  {
  }

  lemma InjectedNext(pending: Accounts, queue: Accounts, txs: seq<Tx>, i: nat, results: seq<AddResult>, r: AddResult)
    requires |results| == i < |txs|
    ensures var before := Injected(pending, queue, txs[..i], results);
            Injected(pending, queue, txs[..i + 1], results + [r]) ==
              if r.Added? then Taken(before.0, before.1, txs[i]) else before
  {
    assert txs[..i + 1][..i] == txs[..i] && (results + [r])[..i] == results;
  }

  /** What becomes of a transaction while the pool has room. */
  ghost function Outcome(t: PoolRules, gasPrice: nat, priceBump: nat, v: PoolView, tx: Tx, local: bool, malformed: bool): AddResult {
    if exists x :: IsPlaced(v, x) && x.hash == tx.hash then KnownTransaction
    else if malformed || !MayEnter(t, gasPrice, tx, local) then Invalid
    else if exists x :: IsPlaced(v, x) && SameSlot(x, tx) && !Outbids(tx, x, priceBump) then ReplaceUnderpriced
    else Added(exists x :: IsPlaced(v, x) && SameSlot(x, tx))
  }

  /** The part of validateTx that depends on the pool. */
  predicate MayEnter(t: PoolRules, gasPrice: nat, tx: Tx, local: bool) {
    && tx.gas <= t.maxGas
    && (local || tx.sender in t.locals || tx.price >= gasPrice)
    && NonceAt(t.stateNonces, tx.sender) <= tx.nonce <= MAX_UINT64
    && tx.Cost() <= NonceAt(t.balances, tx.sender)
  }

  /** Each of a batch has the outcome its predecessors leave it. */
  ghost predicate Decided(t: PoolRules, gasPrice: nat, priceBump: nat, was: PoolView, txs: seq<Tx>, local: bool,
                          verdicts: seq<Verdict>, results: seq<AddResult>) {
    |results| <= |txs| == |verdicts| && forall i :: 0 <= i < |results| ==> DecidedAt(t, gasPrice, priceBump, was, txs, local, verdicts, results, i)
  }

  ghost predicate DecidedAt(t: PoolRules, gasPrice: nat, priceBump: nat, was: PoolView, txs: seq<Tx>, local: bool,
                            verdicts: seq<Verdict>, results: seq<AddResult>, i: nat)
    requires i < |results| <= |txs| == |verdicts|
  {
    var lists := Injected(was.pending, was.queue, txs[..i], results[..i]);
    results[i] == Outcome(t, gasPrice, priceBump, PoolView(lists.0, lists.1, map[], map[]), txs[i], local, verdicts[i].malformed)
  }

  lemma DecidedNext(t: PoolRules, gasPrice: nat, priceBump: nat, was: PoolView, txs: seq<Tx>, local: bool,
                    verdicts: seq<Verdict>, results: seq<AddResult>, mid: PoolView, r: AddResult)
    requires Decided(t, gasPrice, priceBump, was, txs, local, verdicts, results) && |results| < |txs|
    requires (mid.pending, mid.queue) == Injected(was.pending, was.queue, txs[..|results|], results)
    requires r == Outcome(t, gasPrice, priceBump, mid, txs[|results|], local, verdicts[|results|].malformed)
    ensures Decided(t, gasPrice, priceBump, was, txs, local, verdicts, results + [r])
  {
    hide Injected, MayEnter;
    var more, n := results + [r], |results|;
    forall i | 0 <= i < |more|
      ensures DecidedAt(t, gasPrice, priceBump, was, txs, local, verdicts, more, i)
    {
      if i < n {
        assert DecidedAt(t, gasPrice, priceBump, was, txs, local, verdicts, results, i);
        assert more[..i] == results[..i];
      } else {
        assert more[..n] == results;
        SamePlaces(mid, PoolView(mid.pending, mid.queue, map[], map[]));
      }
    }
  }

  /** How far a batch has come. */
  ghost predicate Batched(t: PoolRules, gasPrice: nat, priceBump: nat, was: PoolView, txs: seq<Tx>, local: bool,
                          verdicts: seq<Verdict>, results: seq<AddResult>, now: PoolView) {
    && Decided(t, gasPrice, priceBump, was, txs, local, verdicts, results)
    && (now.pending, now.queue) == Injected(was.pending, was.queue, txs[..|results|], results) && now.tracked == was.tracked
  }

  lemma NothingBatched(t: PoolRules, gasPrice: nat, priceBump: nat, was: PoolView, txs: seq<Tx>, local: bool, verdicts: seq<Verdict>)
    requires |txs| == |verdicts|
    ensures Batched(t, gasPrice, priceBump, was, txs, local, verdicts, [], was)
  {
  }

  lemma BatchedNext(t: PoolRules, gasPrice: nat, priceBump: nat, was: PoolView, txs: seq<Tx>, local: bool,
                    verdicts: seq<Verdict>, results: seq<AddResult>, mid: PoolView, r: AddResult, now: PoolView)
    requires Batched(t, gasPrice, priceBump, was, txs, local, verdicts, results, mid) && |results| < |txs| == |verdicts|
    requires r == Outcome(t, gasPrice, priceBump, mid, txs[|results|], local, verdicts[|results|].malformed)
    requires (now.pending, now.queue) == if r.Added? then Taken(mid.pending, mid.queue, txs[|results|]) else (mid.pending, mid.queue)
    requires now.tracked == mid.tracked
    ensures Batched(t, gasPrice, priceBump, was, txs, local, verdicts, results + [r], now)
  {
    hide Decided, Outcome, Taken, Injected;
    DecidedNext(t, gasPrice, priceBump, was, txs, local, verdicts, results, mid, r);
    InjectedNext(was.pending, was.queue, txs, |results|, results, r);
  }

  lemma BatchedMeans(t: PoolRules, gasPrice: nat, priceBump: nat, was: PoolView, txs: seq<Tx>, local: bool,
                     verdicts: seq<Verdict>, results: seq<AddResult>, now: PoolView)
    requires Batched(t, gasPrice, priceBump, was, txs, local, verdicts, results, now) && |results| == |txs|
    ensures (now.pending, now.queue) == Injected(was.pending, was.queue, txs, results) && now.tracked == was.tracked
    ensures Decided(t, gasPrice, priceBump, was, txs, local, verdicts, results)
  {
    assert txs[..|txs|] == txs;
  }

  /** The local accounts only matter to transactions that are not local. */
  lemma SameOutcome(t: PoolRules, t': PoolRules, gasPrice: nat, priceBump: nat, v: PoolView, tx: Tx, local: bool, malformed: bool)
    requires t.(locals := t'.locals) == t' && (local || t.locals == t'.locals)
    ensures Outcome(t, gasPrice, priceBump, v, tx, local, malformed) == Outcome(t', gasPrice, priceBump, v, tx, local, malformed)
  {
  }

  lemma SamePlaces(v: PoolView, w: PoolView)
    requires v.pending == w.pending && v.queue == w.queue
    ensures forall x :: IsPlaced(v, x) <==> IsPlaced(w, x)
  {
  }

  /** The senders of what was new, who are promoted. */
  function Senders(txs: seq<Tx>, results: seq<AddResult>): set<Address>
    requires |results| == |txs|
  {
    set i | 0 <= i < |txs| && results[i] == Added(false) :: txs[i].sender
  }

  lemma SendersNext(txs: seq<Tx>, i: nat, results: seq<AddResult>, r: AddResult)
    requires |results| == i < |txs|
    ensures Senders(txs[..i + 1], results + [r]) ==
            Senders(txs[..i], results) + if r == Added(false) then {txs[i].sender} else {}
  {
    var more, front := Senders(txs[..i + 1], results + [r]), Senders(txs[..i], results);
    forall a | a in front
      ensures a in more
    {
      var k :| 0 <= k < i && results[k] == Added(false) && txs[..i][k].sender == a;
      assert (results + [r])[k] == results[k] && txs[..i + 1][k] == txs[k];
    }
    if r == Added(false) {
      assert (results + [r])[i] == r && txs[..i + 1][i] == txs[i];
    }
  }

  lemma ListedPromoted(t: PoolRules, was: PoolView, now: PoolView, addrs: seq<Address>, dirty: set<Address>)
    requires PromotedFirst(t, was, now, addrs, |addrs|) && forall a :: a in dirty <==> a in addrs
    ensures forall a :: if a in dirty then Promoted(t, was, now, a) else Alike(t, was, now, a)
  {
    hide Promoted, Alike;
    assert addrs[..|addrs|] == addrs;
  }

  lemma NobodyPromoted(t: PoolRules, v: PoolView)
    ensures forall a :: Alike(t, v, v, a)
  {
  }

  lemma RefusedSendNothing(txs: seq<Tx>, results: seq<AddResult>)
    requires |results| == |txs|
    ensures AllRefused(results) ==> Senders(txs, results) == {}
  {
  }

  lemma GrownByOne(was: All, now: All, hash: Hash)
    requires forall h :: h in now ==> h in was || h == hash
    ensures |now| <= |was| + 1
  {
    Fewer(now.Keys, was.Keys + {hash});
  }

  /** One hash for each place. */
  lemma PlacesAreKnown(lists: Accounts, all: All)
    requires Listed(lists, all)
    ensures |Places(lists)| <= |all|
  {
    InjectiveSize(Places(lists), all.Keys, (p: (Address, nat)) => HashOf(lists, p));
  }

  function HashOf(lists: Accounts, p: (Address, nat)): Hash {
    if p.0 in lists && p.1 < |lists[p.0]| then lists[p.0][p.1].hash else 0
  }

  lemma {:induction false} InjectiveSize<T>(s: set<T>, t: set<Hash>, f: T -> Hash)
    requires forall x :: x in s ==> f(x) in t
    requires forall x, y :: x in s && y in s && f(x) == f(y) ==> x == y
    ensures |s| <= |t|
  {
    if s != {} {
      var x :| x in s;
      InjectiveSize(s - {x}, t - {f(x)}, f);
    }
  }

  lemma Fewer(s: set<Hash>, t: set<Hash>)
    requires s <= t
    ensures |s| <= |t|
  {
    assert t == s + (t - s);
  }

  lemma NotGrown(was: All, now: All)
    requires forall h :: h in now ==> h in was
    ensures |now| <= |was|
  {
    Fewer(now.Keys, was.Keys);
  }

  /** What a new head does to one account before promotion: what is no longer executable
      leaves the pending list, for the queue if it may become so again; the tracked nonce
      follows the list, if there is one left. */
  ghost predicate Demoted(t: PoolRules, was: PoolView, now: PoolView, a: Address) {
    var nonce, balance := NonceAt(t.stateNonces, a), NonceAt(t.balances, a);
    var s, r := Left(was.pending, a), Left(now.pending, a);
    && r == Executable(s, nonce, balance, t.maxGas)
    && (forall x :: x in Left(now.queue, a) <==> x in Left(was.queue, a) || IsPostponed(x, s, nonce, balance, t.maxGas))
    && Tracked(now.tracked, t.stateNonces, a) ==
         if r == [] then Tracked(was.tracked, t.stateNonces, a) else r[|r| - 1].nonce + 1
  }

  /** No list had a gap, and where nothing is left no other nonce is tracked than the state's. */
  ghost predicate Gapless(t: PoolRules, was: PoolView, now: PoolView) {
    forall a :: GapFree(Left(was.pending, a))
      && (Left(now.pending, a) == [] ==> Tracked(was.tracked, t.stateNonces, a) == NonceAt(t.stateNonces, a))
  }

  lemma GaplessStays(t: PoolRules, was: PoolView, now: PoolView)
    requires was.tracked == map[] && forall a :: GapFree(Left(was.pending, a))
    ensures Gapless(t, was, now)
  {
    hide GapFree;
  }

  ghost predicate DemotedAll(t: PoolRules, was: PoolView, now: PoolView) {
    forall a :: Demoted(t, was, now, a)
  }

  lemma DemotedMeans(t: PoolRules, was: PoolView, now: PoolView)
    requires DemotedAll(t, was, now)
    ensures forall a :: Demoted(t, was, now, a)
  {
  }

  lemma NothingListed(s: seq<Tx>)
    ensures s[0..] == s && AsSet(s[|s|..]) == {}
  {
  }

  lemma OwnSlot(pending: Accounts, queue: Accounts, all: All, tx: Tx)
    requires Partition(pending, queue, all, {}) && Known(all, tx)
    ensures forall t :: t in Left(pending, tx.sender) && t.nonce == tx.nonce ==> t == tx
    ensures forall t :: t in Left(queue, tx.sender) && t.nonce == tx.nonce ==> t == tx
    ensures tx in Left(pending, tx.sender) || tx in Left(queue, tx.sender)
  {
    forall t | (t in Left(pending, tx.sender) || t in Left(queue, tx.sender)) && t.nonce == tx.nonce
      ensures t == tx
    {
      assert Known(all, t) && SameSlot(t, tx);
    }
  }

  lemma RemovePending(pending: Accounts, queue: Accounts, all: All, tx: Tx)
    requires Partition(pending, queue, all, {}) && Known(all, tx) && tx in Left(pending, tx.sender)
    ensures var s := Left(pending, tx.sender);
            Partition(WithList(pending, tx.sender, Select(s, Below(tx.nonce))), queue, all - {tx.hash}, AsSet(Select(s, Above(tx.nonce))))
  {
    hide Partition, Select;
    var s := Left(pending, tx.sender);
    var above := AsSet(Select(s, Above(tx.nonce)));
    PartitionListed(pending, queue, all, {});
    LeftIsListed(pending, all, tx.sender);
    OwnSlot(pending, queue, all, tx);
    SelectMembers(s, Below(tx.nonce));
    SelectMembers(s, Above(tx.nonce));
    SelectAscends(s, Below(tx.nonce));
    TakePending(pending, queue, all, {}, tx.sender, Select(s, Below(tx.nonce)), above + {tx});
    Forget(WithList(pending, tx.sender, Select(s, Below(tx.nonce))), queue, all, {} + (above + {tx}), tx);
    assert {} + (above + {tx}) - {tx} == above;
  }

  lemma RemoveQueued(pending: Accounts, queue: Accounts, all: All, tx: Tx)
    requires Partition(pending, queue, all, {}) && Known(all, tx) && tx !in Left(pending, tx.sender)
    ensures var q := Left(queue, tx.sender);
            Partition(pending, WithList(queue, tx.sender, Select(q, Not(With(tx.nonce)))), all - {tx.hash}, {})
  {
    hide Partition, Select;
    var q := Left(queue, tx.sender);
    PartitionListed(pending, queue, all, {});
    LeftIsListed(queue, all, tx.sender);
    OwnSlot(pending, queue, all, tx);
    PlacedOver(q, tx);
    TakeQueue(pending, queue, all, {}, tx.sender, Select(q, Not(With(tx.nonce))), {tx});
    Forget(pending, WithList(queue, tx.sender, Select(q, Not(With(tx.nonce)))), all, {} + {tx}, tx);
    assert {} + {tx} - {tx} == {};
  }

  /** Cutting a run before one of its nonces. */
  lemma RunCut(pending: Accounts, tracked: map<Address, nat>, state: map<Address, nat>, tx: Tx)
    requires Contiguous(pending, tracked, state) && tx in Left(pending, tx.sender)
    ensures NonceAt(state, tx.sender) <= tx.nonce < Tracked(tracked, state, tx.sender)
    ensures Contiguous(WithList(pending, tx.sender, Select(Left(pending, tx.sender), Below(tx.nonce))), tracked[tx.sender := tx.nonce], state)
  {
    hide Select;
    var a, s := tx.sender, Left(pending, tx.sender);
    var i :| 0 <= i < |s| && s[i] == tx;
    SelectBelow(s, tx.nonce, i);
    assert IsRun(s[..i], NonceAt(state, a), tx.nonce);
    RunSet(pending, tracked, state, a, s[..i], tx.nonce);
  }

  lemma RunSet(pending: Accounts, tracked: map<Address, nat>, state: map<Address, nat>, a: Address, s: seq<Tx>, end: nat)
    requires Contiguous(pending, tracked, state) && IsRun(s, NonceAt(state, a), end)
    ensures Contiguous(WithList(pending, a, s), tracked[a := end], state)
  {
  }

  /** A replacement keeps the run. */
  lemma ReplaceInRun(pending: Accounts, queue: Accounts, all: All, tracked: map<Address, nat>, state: map<Address, nat>, tx: Tx, prior: Tx)
    requires Partition(pending, queue, all, {})
    requires prior in Left(pending, tx.sender) && prior.nonce == tx.nonce
    ensures Contiguous(pending, tracked, state) ==>
      Contiguous(WithList(pending, tx.sender, Placed(Left(pending, tx.sender), tx)), tracked, state)
    ensures tx in Placed(Left(pending, tx.sender), tx)
  {
    hide Partition, Select;
    var s := Left(pending, tx.sender);
    PartitionListed(pending, queue, all, {});
    LeftIsListed(pending, all, tx.sender);
    var i :| 0 <= i < |s| && s[i] == prior;
    PlacedAt(s, tx, i);
  }

  lemma PlacedAt(s: seq<Tx>, tx: Tx, i: nat)
    requires Ascending(s) && i < |s| && s[i].nonce == tx.nonce
    ensures Placed(s, tx) == s[i := tx]
  {
    hide Select;
    var r := s[i := tx];
    PlacedAscends(s, tx);
    forall t
      ensures t in r <==> t in Placed(s, tx)
    {
      if t in s && t.nonce != tx.nonce {
        var j :| 0 <= j < |s| && s[j] == t;
        assert r[j] == t;
      }
      if t == tx {
        assert r[i] == tx;
      }
    }
    AscendingUnique(r, Placed(s, tx));
  }

  lemma InvalidsJoin(s: seq<Tx>, q: seq<Tx>, q': seq<Tx>, invalids: seq<Tx>, tx: Tx)
    requires invalids == Select(s, Above(tx.nonce)) && forall t :: t in q' <==> t in q || t in invalids
    ensures forall t :: t in q' <==> t in q || (t in s && t.nonce > tx.nonce)
  {
    SelectMembers(s, Above(tx.nonce));
  }

  /** A queue without what is too old or unpayable. */
  function Usable(q: seq<Tx>, stateNonce: nat, balance: nat, maxGas: nat): seq<Tx> {
    Select(Select(q, Not(Below(stateNonce))), Not(Exceeding(balance, maxGas)))
  }

  lemma NothingUsable(stateNonce: nat, balance: nat, maxGas: nat)
    ensures Usable([], stateNonce, balance, maxGas) == []
  {
  }

  lemma UsableIsRecent(q: seq<Tx>, stateNonce: nat, balance: nat, maxGas: nat, t: Tx)
    requires t in Usable(q, stateNonce, balance, maxGas)
    ensures t.nonce >= stateNonce
  {
    MeetsNot(Below(stateNonce));
    SelectMembers(q, Not(Below(stateNonce)));
    SelectMembers(Select(q, Not(Below(stateNonce))), Not(Exceeding(balance, maxGas)));
  }

  lemma Cut(s: seq<Tx>, p: Test)
    requires Ascending(s)
    ensures Ascending(Select(s, p)) && Ascending(Select(s, Not(p)))
    ensures forall t :: t in s <==> t in Select(s, Not(p)) || t in Select(s, p)
    ensures forall t :: t in Select(s, Not(p)) ==> t !in Select(s, p)
  {
    hide Select;
    MeetsNot(p);
    SelectMembers(s, p);
    SelectMembers(s, Not(p));
    SelectAscends(s, p);
    SelectAscends(s, Not(p));
  }

  lemma LeftWith(lists: Accounts, a: Address, s: seq<Tx>)
    ensures forall b :: Left(WithList(lists, a, s), b) == if b == a then s else Left(lists, b)
  {
  }

  lemma LastApart(s: seq<Tx>)
    requires Ascending(s) && |s| > 0
    ensures var front, last := s[..|s| - 1], s[|s| - 1];
            && last in s && Ascending(front) && Select(s, Below(last.nonce)) == front
            && (forall t :: t in s <==> t in front || t in {last}) && forall t :: t in front ==> t !in {last}
  {
    hide Select;
    CutPrefix(s, |s| - 1);
    SelectBelow(s, s[|s| - 1].nonce, |s| - 1);
  }

  lemma CutPrefix(s: seq<Tx>, k: nat)
    requires Ascending(s) && k <= |s|
    ensures Ascending(s[..k]) && Ascending(s[k..])
    ensures forall t :: t in s <==> t in s[k..] || t in s[..k]
    ensures forall t :: t in s[k..] ==> t !in s[..k]
  {
    assert s == s[..k] + s[k..];
    Apart(s[..k], s[k..]);
  }

  lemma Apart(x: seq<Tx>, y: seq<Tx>)
    requires forall i, j :: 0 <= i < |x| && 0 <= j < |y| ==> x[i].nonce < y[j].nonce
    ensures forall t :: t in y ==> t !in x
  {
  }

  lemma AscendingDistinct(s: seq<Tx>)
    requires Ascending(s)
    ensures forall i, j :: 0 <= i < j < |s| ==> s[i] != s[j]
  {
  }

  /** The next nonce extends a run at its end. */
  lemma RunExtended(pending: Accounts, tracked: map<Address, nat>, state: map<Address, nat>, tx: Tx)
    requires Contiguous(pending, tracked, state) && tx.nonce == Tracked(tracked, state, tx.sender)
    requires Ascending(Left(pending, tx.sender))
    ensures Contiguous(WithList(pending, tx.sender, Placed(Left(pending, tx.sender), tx)), tracked[tx.sender := tx.nonce + 1], state)
  {
    var a, s := tx.sender, Left(pending, tx.sender);
    assert IsRun(s, NonceAt(state, a), tx.nonce);
    PlacedLast(s, tx);
    RunSet(pending, tracked, state, a, s + [tx], tx.nonce + 1);
  }

  lemma PlacedLast(s: seq<Tx>, tx: Tx)
    requires Ascending(s) && forall i :: 0 <= i < |s| ==> s[i].nonce < tx.nonce
    ensures Placed(s, tx) == s + [tx]
  {
    hide Placed;
    PlacedAscends(s, tx);
    AscendingUnique(Placed(s, tx), s + [tx]);
  }

  lemma OnePlaceMore(counted: Accounts, a: Address, s: seq<Tx>)
    requires a !in counted && |s| > 0
    ensures Places(counted[a := s]) == Places(counted[a := s[..|s| - 1]]) + {(a, |s| - 1)}
  {
    var all, less := Places(counted[a := s]), Places(counted[a := s[..|s| - 1]]);
    forall p: (Address, nat)
      ensures p in all <==> p in less || p == (a, |s| - 1)
    {
    }
  }

  lemma CountList(counted: Accounts, a: Address, s: seq<Tx>)
    requires a !in counted
    ensures |Places(counted[a := s])| == |Places(counted)| + |s|
    decreases |s|
  {
    if |s| == 0 {
      assert Places(counted[a := s]) == Places(counted);
    } else {
      var front := s[..|s| - 1];
      CountList(counted, a, front);
      var all, less := Places(counted[a := s]), Places(counted[a := front]);
      OnePlaceMore(counted, a, s);
      assert (a, |s| - 1) !in less;
    }
  }

  lemma NoItems(lists: Accounts)
    ensures ItemsOf(lists, {}) == {}
  {
  }

  lemma NoCut(lists: Accounts, os: seq<Address>)
    ensures Prefixes(lists, lists) && SameBut(lists, lists, os)
  {
  }

  lemma NobodyCut(lists: Accounts, locals: set<Address>, slots: nat, globalSlots: nat)
    requires |Places(lists)| <= globalSlots
    ensures Fair(lists, lists, locals, slots, globalSlots)
  {
  }

  lemma CutMore(was: Accounts, before: Accounts, now: Accounts, os: seq<Address>, level: nat)
    requires Prefixes(before, was) && SameBut(before, was, os) && Prefixes(now, before) && SameBut(now, before, os)
    requires Level(before, os, level) && level > 0
    requires forall i :: 0 <= i < |os| ==> os[i] in before && os[i] in now && |now[os[i]]| == |before[os[i]]| - 1
    ensures Prefixes(now, was) && SameBut(now, was, os) && Level(now, os, level - 1)
  {
  }

  predicate InBeatOrder(s: seq<Address>, beats: map<Address, nat>) {
    forall i, j :: 0 <= i < j < |s| ==> BeatAt(beats, s[i]) <= BeatAt(beats, s[j])
  }

  function BeatAt(beats: map<Address, nat>, a: Address): nat {
    if a in beats then beats[a] else 0
  }

  /** How the queue limit is met: locals lose nothing, the others their newest transactions,
      no more than needed; and whoever was heard of later than one that lost some has lost
      all. */
  ghost predicate Evicted(was: Accounts, now: Accounts, locals: set<Address>, beats: map<Address, nat>, limit: nat) {
    && (forall a :: Left(now, a) <= Left(was, a) && (a in locals ==> Left(now, a) == Left(was, a)))
    && (forall a, b :: a !in locals && b !in locals && BeatAt(beats, a) < BeatAt(beats, b) ==>
          Left(now, a) == Left(was, a) || Left(now, b) == [])
    && (|Places(was)| <= limit ==> now == was)
    && (|Places(was)| > limit ==> |Places(now)| == limit || (|Places(now)| > limit && forall a :: a in now ==> a in locals))
  }

  lemma NothingEvicted(was: Accounts, locals: set<Address>, beats: map<Address, nat>, limit: nat)
    requires |Places(was)| <= limit
    ensures Evicted(was, was, locals, beats, limit)
  {
    hide Places;
  }

  /** Of the accounts in order those from n on have been emptied, or the n-th only shortened
      because that was enough. */
  ghost predicate Evicting(was: Accounts, now: Accounts, order: seq<Address>, n: nat, more: bool) {
    && n <= |order| && PoolFairness.Distinct(order)
    && (forall i :: 0 <= i < |order| ==> order[i] in was && was[order[i]] != [])
    && (forall a :: a !in order[n..] ==> Left(now, a) == Left(was, a))
    && (forall i :: n < i < |order| ==> Left(now, order[i]) == [])
    && (n < |order| ==> Left(now, order[n]) <= Left(was, order[n]) && (more ==> Left(now, order[n]) == []))
  }

  lemma EvictingStarts(was: Accounts, order: seq<Address>)
    requires PoolFairness.Distinct(order) && forall i :: 0 <= i < |order| ==> order[i] in was && was[order[i]] != []
    ensures Evicting(was, was, order, |order|, true)
  {
  }

  lemma NextEvicted(was: Accounts, now: Accounts, order: seq<Address>, n: nat)
    requires Evicting(was, now, order, n + 1, true)
    ensures order[n] in now && now[order[n]] == was[order[n]]
  {
    OnlyOnce(order, n);
    assert Left(now, order[n]) == Left(was, order[n]);
  }

  lemma OnlyOnce(order: seq<Address>, n: nat)
    requires PoolFairness.Distinct(order) && n < |order|
    ensures order[n] !in order[n + 1..] && order[n..] == [order[n]] + order[n + 1..]
  {
  }

  lemma EvictingNext(was: Accounts, before: Accounts, now: Accounts, order: seq<Address>, n: nat, left: nat, more: bool)
    requires Evicting(was, before, order, n + 1, true) && order[n] in before && left <= |before[order[n]]|
    requires Left(now, order[n]) == before[order[n]][..left] && forall b :: b != order[n] ==> Left(now, b) == Left(before, b)
    requires more ==> left == 0
    ensures Evicting(was, now, order, n, more)
  {
    OnlyOnce(order, n);
    NextEvicted(was, before, order, n);
    forall i | n < i < |order|
      ensures Left(now, order[i]) == []
    {
      assert order[i] != order[n];
      assert Left(before, order[i]) == [];
    }
  }

  lemma AllEvicted(was: Accounts, now: Accounts, locals: set<Address>, beats: map<Address, nat>, limit: nat,
                   order: seq<Address>, n: nat, more: bool)
    requires Evicting(was, now, order, n, more) && InBeatOrder(order, beats) && (more ==> n == 0)
    requires (forall a :: a in order ==> a !in locals) && (forall a :: a in was ==> a in locals || a in order)
    requires (forall a :: a in now ==> now[a] != [])
    requires |Places(was)| > limit && |Places(now)| >= limit && (|Places(now)| > limit ==> more)
    ensures Evicted(was, now, locals, beats, limit)
  {
    hide Places;
    forall a
      ensures Left(now, a) <= Left(was, a) && (a in locals ==> Left(now, a) == Left(was, a))
    {
      if a in order[n..] {
        assert a in order;
      }
    }
    forall a, b | a !in locals && b !in locals && BeatAt(beats, a) < BeatAt(beats, b) && Left(now, a) != Left(was, a)
      ensures Left(now, b) == []
    {
      LaterIsEmpty(was, now, beats, order, n, more, a, b);
    }
    if more {
      assert order[0..] == order;
      forall a | a in order
        ensures Left(now, a) == []
      {
        var i :| 0 <= i < |order| && order[i] == a;
      }
      forall a | a in now
        ensures a in locals
      {
        assert a !in order;
        assert Left(now, a) == Left(was, a);
      }
    }
  }

  lemma LaterIsEmpty(was: Accounts, now: Accounts, beats: map<Address, nat>, order: seq<Address>, n: nat, more: bool, a: Address, b: Address)
    requires Evicting(was, now, order, n, more) && InBeatOrder(order, beats) && BeatAt(beats, a) < BeatAt(beats, b)
    requires Left(now, a) != Left(was, a) && (b in was ==> b in order)
    ensures Left(now, b) == []
  {
    assert a in order[n..];
    var i :| 0 <= i < |order[n..]| && order[n..][i] == a;
    assert order[n + i] == a;
    if b in order {
      var j :| 0 <= j < |order| && order[j] == b;
      assert n + i < j;
    } else if b in order[n..] {
      assert false;
    } else {
      assert Left(now, b) == Left(was, b);
    }
  }

  lemma OneWith(s: seq<Tx>, tx: Tx)
    requires Ascending(s) && tx in s
    ensures |Select(s, Not(With(tx.nonce)))| == |s| - 1
  {
    hide Select;
    SelectMembers(s, With(tx.nonce));
    var i :| 0 <= i < |s| && s[i] == tx;
    SelectIs(s, With(tx.nonce), [tx]);
  }

  lemma OneLessPlace(lists: Accounts, a: Address, s: seq<Tx>)
    requires a in lists && |s| == |lists[a]| - 1
    ensures |Places(WithList(lists, a, s))| == |Places(lists)| - 1
  {
    var last := (a, |s|);
    assert last in Places(lists);
    assert Places(WithList(lists, a, s)) == Places(lists) - {last};
  }

  lemma PrefixWithoutLast(s: seq<Tx>, i: nat)
    requires Ascending(s) && i < |s|
    ensures forall t :: t in s[..i] <==> t in s[..i + 1] && t != s[i]
    ensures s[i] in s[..i + 1] && s[i] in s
  {
    assert s[..i + 1] == s[..i] + [s[i]];
    forall t | t in s[..i]
      ensures t != s[i]
    {
      var j :| 0 <= j < i && s[j] == t;
    }
  }

  /** What of a pending list is still executable: without old transactions, up to the first
      that cannot be paid for, and nothing if the state's nonce is not there. */
  function Executable(s: seq<Tx>, nonce: nat, balance: nat, maxGas: nat): seq<Tx> {
    var young := Select(s, Not(Below(nonce)));
    var fit := young[..FirstExceeding(young, balance, maxGas)];
    if TxAt(fit, nonce).None? then [] else fit
  }

  /** Postponed is what can be paid for, but only behind what cannot, or behind a gap. */
  ghost predicate IsPostponed(x: Tx, s: seq<Tx>, nonce: nat, balance: nat, maxGas: nat) {
    var young := Select(s, Not(Below(nonce)));
    var k := FirstExceeding(young, balance, maxGas);
    (x in young[k..] && !Meets(x, Exceeding(balance, maxGas))) || (x in young[..k] && TxAt(young[..k], nonce).None?)
  }

  /** Demotion drops exactly what is too old or cannot be paid for. */
  lemma DemotedOrDropped(s: seq<Tx>, nonce: nat, balance: nat, maxGas: nat, x: Tx)
    requires Ascending(s)
    ensures x in Executable(s, nonce, balance, maxGas) || IsPostponed(x, s, nonce, balance, maxGas) <==>
      x in s && x.nonce >= nonce && x.price * x.gas + x.value <= balance && x.gas <= maxGas
    ensures !(x in Executable(s, nonce, balance, maxGas) && IsPostponed(x, s, nonce, balance, maxGas))
  {
    hide Select;
    var young := Select(s, Not(Below(nonce)));
    var k := FirstExceeding(young, balance, maxGas);
    SelectMembers(s, Not(Below(nonce)));
    SelectAscends(s, Not(Below(nonce)));
    MeetsNot(Below(nonce));
    CutPrefix(young, k);
  }

  lemma PostponedFacts(s: seq<Tx>, nonce: nat, balance: nat, maxGas: nat)
    ensures var young := Select(s, Not(Below(nonce)));
            var k := FirstExceeding(young, balance, maxGas);
            forall x :: IsPostponed(x, s, nonce, balance, maxGas) <==>
              x in Select(young[k..], Not(Exceeding(balance, maxGas))) || (x in young[..k] && TxAt(young[..k], nonce).None?)
  {
    hide Select;
    var young := Select(s, Not(Below(nonce)));
    SelectMembers(young[FirstExceeding(young, balance, maxGas)..], Not(Exceeding(balance, maxGas)));
    MeetsNot(Exceeding(balance, maxGas));
  }

  lemma NoneAscend()
    ensures Ascending([])
  {
  }

  lemma NothingExecutable(nonce: nat, balance: nat, maxGas: nat)
    ensures Executable([], nonce, balance, maxGas) == []
    ensures forall t :: !IsPostponed(t, [], nonce, balance, maxGas)
  {
  }

  lemma DemoteFacts(young: seq<Tx>, balance: nat, maxGas: nat)
    requires Ascending(young)
    ensures var k, test := FirstExceeding(young, balance, maxGas), Exceeding(balance, maxGas);
            var gone, postponed := Select(young, test), Select(young[k..], Not(test));
            && Ascending(young[..k]) && Ascending(gone) && Ascending(postponed)
            && (forall t :: t in young <==> t in young[..k] || t in gone || t in postponed)
            && (forall t :: t in young[..k] ==> t !in gone && t !in postponed)
            && (forall t :: t in gone ==> t !in postponed)
  {
    hide Select;
    var k, test := FirstExceeding(young, balance, maxGas), Exceeding(balance, maxGas);
    CutPrefix(young, k);
    MeetsNot(test);
    SelectMembers(young, test);
    SelectAscends(young, test);
    SelectMembers(young[k..], Not(test));
    SelectAscends(young[k..], Not(test));
  }

  /** A list without gaps leaves a run from the state's nonce. */
  lemma ExecutableIsRun(s: seq<Tx>, nonce: nat, balance: nat, maxGas: nat)
    requires GapFree(s) && Ascending(Executable(s, nonce, balance, maxGas))
    ensures var r := Executable(s, nonce, balance, maxGas); IsRun(r, nonce, nonce + |r|)
  {
    var young := Select(s, Not(Below(nonce)));
    var r := Executable(s, nonce, balance, maxGas);
    if |r| > 0 {
      GapFreeFrom(s, nonce);
      assert GapFree(r);
      var i :| 0 <= i < |r| && r[i].nonce == nonce;
      assert r[0] in young;
      SelectMembers(s, Not(Below(nonce)));
      MeetsNot(Below(nonce));
      RunFromFirst(r);
    }
  }

  lemma {:induction false} RunFromFirst(r: seq<Tx>)
    requires GapFree(r) && |r| > 0
    ensures IsRun(r, r[0].nonce, r[0].nonce + |r|)
  {
    if |r| > 1 {
      var front := r[..|r| - 1];
      RunFromFirst(front);
      assert r[|r| - 2 + 1].nonce == r[|r| - 2].nonce + 1;
      assert forall i :: 0 <= i < |front| ==> r[i] == front[i];
    }
  }

  lemma {:induction false} GapFreeFrom(s: seq<Tx>, n: nat)
    requires GapFree(s)
    ensures GapFree(Select(s, Not(Below(n))))
    ensures |Select(s, Not(Below(n)))| > 0 ==> Select(s, Not(Below(n)))[|Select(s, Not(Below(n)))| - 1] == s[|s| - 1]
  {
    if |s| > 0 {
      var front, last := s[..|s| - 1], s[|s| - 1];
      GapFreeFrom(front, n);
      MeetsNot(Below(n));
      SelectMembers(front, Not(Below(n)));
      if |front| > 0 {
        assert s[|s| - 2 + 1].nonce == s[|s| - 2].nonce + 1;
      }
      var r := Select(front, Not(Below(n)));
      if |r| > 0 {
        assert r[|r| - 1] in r;
      }
    }
  }

  lemma RunsHaveNoGaps(pending: Accounts, tracked: map<Address, nat>, state: map<Address, nat>)
    ensures Contiguous(pending, tracked, state) ==> forall a :: GapFree(Left(pending, a))
  {
    if Contiguous(pending, tracked, state) {
      forall a
        ensures GapFree(Left(pending, a))
      {
        assert IsRun(Left(pending, a), NonceAt(state, a), Tracked(tracked, state, a));
      }
    }
  }

  lemma RunsAreContiguous(pending: Accounts, tracked: map<Address, nat>, state: map<Address, nat>)
    requires forall a :: IsRun(Left(pending, a), NonceAt(state, a), Tracked(tracked, state, a))
    ensures Contiguous(pending, tracked, state)
  {
  }
}
