/** The pool's indexes: the lookup of all transactions is the disjoint union of the pending
    and the queued ones, and of those an operation is just moving (`floating`). */
module TxPartition {
  import opened Wrappers
  import opened Transactions

  type All = map<Hash, Tx>

  /** An account whose list runs empty is dropped. */
  function WithList(lists: Accounts, a: Address, s: seq<Tx>): Accounts {
    if s == [] then lists - {a} else lists[a := s]
  }

  function AsSet(s: seq<Tx>): set<Tx> {
    set tx | tx in s
  }

  lemma AsSetTail(s: seq<Tx>, i: nat)
    requires Ascending(s) && i < |s|
    ensures s[i] in AsSet(s[i..]) && AsSet(s[i..]) - {s[i]} == AsSet(s[i + 1..])
    ensures forall t :: t in s[..i + 1] <==> t in s[..i] || t == s[i]
  {
    assert s[i..] == [s[i]] + s[i + 1..];
    assert s[..i + 1] == s[..i] + [s[i]];
    var rest := s[i + 1..];
    forall k | 0 <= k < |rest|
      ensures rest[k] != s[i]
    {
      assert rest[k] == s[i + 1 + k];
    }
  }

  predicate Known(all: All, tx: Tx) {
    tx.hash in all && all[tx.hash] == tx
  }

  /** Lists by account, ascending, and known. */
  ghost predicate Listed(lists: Accounts, all: All) {
    forall a :: a in lists ==> lists[a] != [] && Ascending(lists[a]) && forall tx :: tx in lists[a] ==> tx.sender == a && Known(all, tx)
  }

  predicate SameSlot(x: Tx, y: Tx) {
    x.sender == y.sender && x.nonce == y.nonce
  }

  /** An account has one transaction per nonce. */
  ghost predicate OnePerSlot(all: All) {
    forall x, y :: Known(all, x) && Known(all, y) && SameSlot(x, y) ==> x == y
  }

  /** Everything known is in one place. */
  ghost predicate Placement(pending: Accounts, queue: Accounts, all: All, floating: set<Tx>) {
    forall tx :: Known(all, tx) ==>
      && (tx in Left(pending, tx.sender) || tx in Left(queue, tx.sender) || tx in floating)
      && !(tx in Left(pending, tx.sender) && tx in Left(queue, tx.sender))
      && !(tx in Left(pending, tx.sender) && tx in floating)
      && !(tx in Left(queue, tx.sender) && tx in floating)
  }

  ghost predicate Partition(pending: Accounts, queue: Accounts, all: All, floating: set<Tx>) {
    && Listed(pending, all) && Listed(queue, all)
    && (forall h :: h in all ==> all[h].hash == h)
    && (forall tx :: tx in floating ==> Known(all, tx))
    && OnePerSlot(all)
    && Placement(pending, queue, all, floating)
  }

  /** Pending and queued nonces of an account are disjoint. */
  lemma NoncesAreDisjoint(pending: Accounts, queue: Accounts, all: All, x: Tx, y: Tx)
    requires Partition(pending, queue, all, {})
    requires x in Left(pending, x.sender) && y in Left(queue, x.sender)
    ensures x.nonce != y.nonce
  {
    assert Known(all, x) && Known(all, y);
  }

  /** Members of the lists are exactly what is known. */
  lemma AllIsTheUnion(pending: Accounts, queue: Accounts, all: All, h: Hash)
    requires Partition(pending, queue, all, {})
    ensures h in all <==> exists a: Address, tx: Tx :: tx.hash == h && (tx in Left(pending, a) || tx in Left(queue, a))
  {
    if h in all {
      assert Known(all, all[h]);
    }
    forall a: Address, tx: Tx | tx.hash == h && (tx in Left(pending, a) || tx in Left(queue, a))
      ensures h in all
    {
      assert Known(all, tx);
    }
  }

  // ----- the steps operations are made of -----

  lemma ListedWith(lists: Accounts, all: All, a: Address, s: seq<Tx>)
    requires Listed(lists, all) && Ascending(s) && forall tx :: tx in s ==> tx.sender == a && Known(all, tx)
    ensures Listed(WithList(lists, a, s), all)
    ensures forall b :: Left(WithList(lists, a, s), b) == if b == a then s else Left(lists, b)
  {
  }

  lemma LeftIsListed(lists: Accounts, all: All, a: Address)
    requires Listed(lists, all)
    ensures Ascending(Left(lists, a)) && forall tx :: tx in Left(lists, a) ==> tx.sender == a && Known(all, tx)
  {
  }

  /** Part of an account's pending list is taken out. */
  lemma TakePending(pending: Accounts, queue: Accounts, all: All, floating: set<Tx>, a: Address, s: seq<Tx>, taken: set<Tx>)
    requires Partition(pending, queue, all, floating) && Ascending(s)
    requires forall tx :: tx in Left(pending, a) <==> tx in s || tx in taken
    requires forall tx :: tx in s ==> tx !in taken
    ensures Partition(WithList(pending, a, s), queue, all, floating + taken)
  {
    hide OnePerSlot, Known, Ascending;
    LeftIsListed(pending, all, a);
    ListedWith(pending, all, a, s);
    forall tx | Known(all, tx)
      ensures tx in Left(WithList(pending, a, s), tx.sender) <==> tx in Left(pending, tx.sender) && tx !in taken
    {
    }
  }

  lemma TakeQueue(pending: Accounts, queue: Accounts, all: All, floating: set<Tx>, a: Address, s: seq<Tx>, taken: set<Tx>)
    requires Partition(pending, queue, all, floating) && Ascending(s)
    requires forall tx :: tx in Left(queue, a) <==> tx in s || tx in taken
    requires forall tx :: tx in s ==> tx !in taken
    ensures Partition(pending, WithList(queue, a, s), all, floating + taken)
  {
    hide OnePerSlot, Known, Ascending;
    LeftIsListed(queue, all, a);
    ListedWith(queue, all, a, s);
    forall tx | Known(all, tx)
      ensures tx in Left(WithList(queue, a, s), tx.sender) <==> tx in Left(queue, tx.sender) && tx !in taken
    {
    }
  }

  /** A floating transaction is put in its place by nonce. */
  lemma PutPending(pending: Accounts, queue: Accounts, all: All, floating: set<Tx>, tx: Tx)
    requires Partition(pending, queue, all, floating) && tx in floating
    ensures forall t :: t in Left(pending, tx.sender) ==> t.nonce != tx.nonce
    ensures Partition(WithList(pending, tx.sender, Placed(Left(pending, tx.sender), tx)), queue, all, floating - {tx})
  {
    hide Placed, Ascending;
    LeftIsListed(pending, all, tx.sender);
    SlotIsFree(pending, queue, all, floating, tx);
    PlacedAscends(Left(pending, tx.sender), tx);
    ListedWith(pending, all, tx.sender, Placed(Left(pending, tx.sender), tx));
  }

  lemma PutQueue(pending: Accounts, queue: Accounts, all: All, floating: set<Tx>, tx: Tx)
    requires Partition(pending, queue, all, floating) && tx in floating
    ensures forall t :: t in Left(queue, tx.sender) ==> t.nonce != tx.nonce
    ensures Partition(pending, WithList(queue, tx.sender, Placed(Left(queue, tx.sender), tx)), all, floating - {tx})
  {
    hide Placed, Ascending;
    LeftIsListed(queue, all, tx.sender);
    SlotIsFree(pending, queue, all, floating, tx);
    PlacedAscends(Left(queue, tx.sender), tx);
    ListedWith(queue, all, tx.sender, Placed(Left(queue, tx.sender), tx));
  }

  lemma SlotIsFree(pending: Accounts, queue: Accounts, all: All, floating: set<Tx>, tx: Tx)
    requires Partition(pending, queue, all, floating) && tx in floating
    ensures forall t :: t in Left(pending, tx.sender) ==> t.nonce != tx.nonce
    ensures forall t :: t in Left(queue, tx.sender) ==> t.nonce != tx.nonce
  {
    forall t | t in Left(pending, tx.sender) || t in Left(queue, tx.sender)
      ensures t.nonce != tx.nonce
    {
      assert Known(all, t) && Known(all, tx) && t.sender == tx.sender;
    }
  }

  /** A floating transaction is forgotten. */
  lemma Forget(pending: Accounts, queue: Accounts, all: All, floating: set<Tx>, tx: Tx)
    requires Partition(pending, queue, all, floating) && tx in floating
    ensures Partition(pending, queue, all - {tx.hash}, floating - {tx})
  {
    var all' := all - {tx.hash};
    assert Known(all, tx);
    forall t
      ensures Known(all', t) <==> Known(all, t) && t != tx
    {
    }
    ForgetListed(pending, all, tx);
    ForgetListed(queue, all, tx);
  }

  lemma ForgetListed(lists: Accounts, all: All, tx: Tx)
    requires Listed(lists, all) && tx !in Left(lists, tx.sender) && Known(all, tx)
    ensures Listed(lists, all - {tx.hash})
  {
    forall a, t | a in lists && t in lists[a]
      ensures Known(all - {tx.hash}, t)
    {
      assert Known(all, t) && t.sender == a;
    }
  }

  /** A new transaction becomes known. */
  lemma Meet(pending: Accounts, queue: Accounts, all: All, floating: set<Tx>, tx: Tx)
    requires Partition(pending, queue, all, floating) && tx.hash !in all
    requires forall t :: Known(all, t) ==> !SameSlot(t, tx)
    ensures Partition(pending, queue, all[tx.hash := tx], floating + {tx})
  {
    var all' := all[tx.hash := tx];
    forall t
      ensures Known(all', t) <==> Known(all, t) || t == tx
    {
    }
    forall a, t | a in pending && t in pending[a]
      ensures Known(all', t) && t != tx
    {
      assert Known(all, t);
    }
    forall a, t | a in queue && t in queue[a]
      ensures Known(all', t) && t != tx
    {
      assert Known(all, t);
    }
  }

  // ----- new transactions -----

  /** The transaction with a nonce. */
  function TxAt(s: seq<Tx>, nonce: nat): (r: Option<Tx>)
    ensures r.Some? ==> r.value in s && r.value.nonce == nonce
    ensures r.None? ==> forall t :: t in s ==> t.nonce != nonce
  {
    if |s| == 0 then None
    else if s[0].nonce == nonce then Some(s[0])
    else TxAt(s[1..], nonce)
  }

  lemma PlacedOver(s: seq<Tx>, tx: Tx)
    requires Ascending(s)
    ensures Ascending(Select(s, Not(With(tx.nonce))))
    ensures forall t :: t in Select(s, Not(With(tx.nonce))) <==> t in s && t.nonce != tx.nonce
    ensures Placed(Select(s, Not(With(tx.nonce))), tx) == Placed(s, tx)
  {
    hide Placed, Select;
    var p := Not(With(tx.nonce));
    MeetsNot(With(tx.nonce));
    SelectMembers(s, p);
    SelectAscends(s, p);
    PlacedAscends(s, tx);
    PlacedAscends(Select(s, p), tx);
    AscendingUnique(Placed(Select(s, p), tx), Placed(s, tx));
  }

  lemma WithTwice(lists: Accounts, a: Address, s: seq<Tx>, t: seq<Tx>)
    ensures WithList(WithList(lists, a, s), a, t) == WithList(lists, a, t)
    ensures Left(WithList(lists, a, s), a) == s
  {
  }

  lemma NewQueued(pending: Accounts, queue: Accounts, all: All, floating: set<Tx>, tx: Tx)
    requires Partition(pending, queue, all, floating) && tx.hash !in all
    requires forall t :: Known(all, t) ==> !SameSlot(t, tx)
    ensures Partition(pending, WithList(queue, tx.sender, Placed(Left(queue, tx.sender), tx)), all[tx.hash := tx], floating)
  {
    hide Partition, Placed;
    UnknownFloats(pending, queue, all, floating, tx);
    Meet(pending, queue, all, floating, tx);
    PutQueue(pending, queue, all[tx.hash := tx], floating + {tx}, tx);
    assert floating + {tx} - {tx} == floating;
  }

  lemma OnePerSlotHolds(pending: Accounts, queue: Accounts, all: All, floating: set<Tx>, tx: Tx)
    requires Partition(pending, queue, all, floating)
    ensures forall x, y :: Known(all, x) && Known(all, y) && SameSlot(x, tx) && SameSlot(y, tx) ==> x == y
  {
    hide Known, Listed, Placement;
    forall x, y | Known(all, x) && Known(all, y) && SameSlot(x, tx) && SameSlot(y, tx)
      ensures x == y
    {
      assert SameSlot(x, y);
    }
  }

  /** A new transaction is known instead of its rival for the slot, if there is one. */
  lemma KnownInstead(pending: Accounts, queue: Accounts, all: All, floating: set<Tx>, tx: Tx, prior: Option<Tx>)
    requires Partition(pending, queue, all, floating) && tx.hash !in all
    requires prior.Some? ==> Known(all, prior.value) && SameSlot(prior.value, tx)
    requires prior.None? ==> forall t :: Known(all, t) ==> !SameSlot(t, tx)
    ensures var all' := (if prior.Some? then all - {prior.value.hash} else all)[tx.hash := tx];
            forall t :: Known(all', t) <==> t == tx || (Known(all, t) && !SameSlot(t, tx))
  {
    var all' := (if prior.Some? then all - {prior.value.hash} else all)[tx.hash := tx];
    forall t
      ensures Known(all', t) <==> t == tx || (Known(all, t) && !SameSlot(t, tx))
    {
      if prior.Some? && Known(all, t) && SameSlot(t, tx) {
        assert t == prior.value;
      }
    }
  }

  lemma UnknownFloats(pending: Accounts, queue: Accounts, all: All, floating: set<Tx>, tx: Tx)
    requires Partition(pending, queue, all, floating) && tx.hash !in all
    ensures tx !in floating
  {
  }

  /** Once its only rival for the slot is gone, a new transaction may enter. */
  lemma SlotClears(pending: Accounts, queue: Accounts, all: All, floating: set<Tx>, tx: Tx, prior: Tx)
    requires Partition(pending, queue, all, floating) && Known(all, prior) && SameSlot(prior, tx)
    ensures forall t :: Known(all - {prior.hash}, t) ==> !SameSlot(t, tx)
  {
    forall t | Known(all - {prior.hash}, t)
      ensures !SameSlot(t, tx)
    {
      assert Known(all, t);
    }
  }

  lemma ReplaceQueued(pending: Accounts, queue: Accounts, all: All, floating: set<Tx>, tx: Tx, prior: Tx)
    requires Partition(pending, queue, all, floating) && tx.hash !in all
    requires prior in Left(queue, tx.sender) && prior.nonce == tx.nonce
    ensures Partition(pending, WithList(queue, tx.sender, Placed(Left(queue, tx.sender), tx)),
                      (all - {prior.hash})[tx.hash := tx], floating)
    ensures Known(all, prior)
  {
    hide Partition, Placed, Select;
    var a, list := tx.sender, Left(queue, tx.sender);
    PartitionListed(pending, queue, all, floating);
    LeftIsListed(queue, all, a);
    PlacedOver(list, tx);
    var rest := Select(list, Not(With(tx.nonce)));
    OnlyPrior(pending, queue, all, floating, list, rest, tx, prior);
    TakeQueue(pending, queue, all, floating, a, rest, {prior});
    var queue' := WithList(queue, a, rest);
    NotFloating(pending, queue, all, floating, prior);
    Forget(pending, queue', all, floating + {prior}, prior);
    assert floating + {prior} - {prior} == floating;
    SlotClears(pending, queue, all, floating, tx, prior);
    NewQueued(pending, queue', all - {prior.hash}, floating, tx);
    WithTwice(queue, a, rest, Placed(list, tx));
  }

  lemma PartitionListed(pending: Accounts, queue: Accounts, all: All, floating: set<Tx>)
    requires Partition(pending, queue, all, floating)
    ensures Listed(pending, all) && Listed(queue, all)
    ensures forall h :: h in all ==> all[h].hash == h
  {
  }

  lemma NotFloating(pending: Accounts, queue: Accounts, all: All, floating: set<Tx>, tx: Tx)
    requires Partition(pending, queue, all, floating) && (tx in Left(queue, tx.sender) || tx in Left(pending, tx.sender))
    ensures tx !in floating
  {
    assert Known(all, tx);
  }

  lemma OnlyPrior(pending: Accounts, queue: Accounts, all: All, floating: set<Tx>, list: seq<Tx>, rest: seq<Tx>, tx: Tx, prior: Tx)
    requires Partition(pending, queue, all, floating) && prior in list && prior.nonce == tx.nonce
    requires forall t :: t in list ==> t.sender == tx.sender && Known(all, t)
    requires forall t :: t in rest <==> t in list && t.nonce != tx.nonce
    ensures forall t :: t in list <==> t in rest || t in {prior}
    ensures forall t :: t in rest ==> t !in {prior}
    ensures prior.sender == tx.sender
  {
    forall t | t in list && t.nonce == tx.nonce
      ensures t == prior
    {
      assert Known(all, t) && Known(all, prior) && SameSlot(t, prior);
    }
  }

  lemma ReplacePending(pending: Accounts, queue: Accounts, all: All, floating: set<Tx>, tx: Tx, prior: Tx)
    requires Partition(pending, queue, all, floating) && tx.hash !in all
    requires prior in Left(pending, tx.sender) && prior.nonce == tx.nonce
    ensures Partition(WithList(pending, tx.sender, Placed(Left(pending, tx.sender), tx)), queue,
                      (all - {prior.hash})[tx.hash := tx], floating)
    ensures Known(all, prior)
  {
    hide Partition, Placed, Select;
    var a, list := tx.sender, Left(pending, tx.sender);
    PartitionListed(pending, queue, all, floating);
    LeftIsListed(pending, all, a);
    PlacedOver(list, tx);
    var rest := Select(list, Not(With(tx.nonce)));
    OnlyPrior(pending, queue, all, floating, list, rest, tx, prior);
    TakePending(pending, queue, all, floating, a, rest, {prior});
    var pending' := WithList(pending, a, rest);
    NotFloating(pending, queue, all, floating, prior);
    Forget(pending', queue, all, floating + {prior}, prior);
    assert floating + {prior} - {prior} == floating;
    SlotClears(pending, queue, all, floating, tx, prior);
    Meet(pending', queue, all - {prior.hash}, floating, tx);
    UnknownFloats(pending, queue, all, floating, tx);
    PutPending(pending', queue, (all - {prior.hash})[tx.hash := tx], floating + {tx}, tx);
    assert floating + {tx} - {tx} == floating;
    WithTwice(pending, a, rest, Placed(list, tx));
  }
}
