/** The journal of state changes, and the number of changes per dirty account. */
module Journals {
  import opened Wrappers
  import opened StateObjects

  datatype Entry =
    | CreateObjectChange(account: Address)
    | ResetObjectChange(prevObject: StateObject)
    | SuicideChange(account: Address, wasSuicided: bool, prevBalance: int)
    | BalanceChange(account: Address, prevBalance: int)
    | NonceChange(account: Address, prevNonce: nat)
    | StorageChange(account: Address, key: Hash, prevValue: Hash)
    | CodeChange(account: Address, prevCode: Option<Code>, prevHash: Hash)
    | RefundChange(prevRefund: nat)
    | AddLogChange(txHash: Hash)
    | AddPreimageChange(hash: Hash)
    | TouchChange(account: Address)

  /** The account a change makes dirty. Replacing an object makes none dirty. */
  function Dirtied(e: Entry): Option<Address> {
    match e
    case ResetObjectChange(_) => None
    case RefundChange(_) => None
    case AddLogChange(_) => None
    case AddPreimageChange(_) => None
    case _ => Some(e.account)
  }

  function DirtyCount(es: seq<Entry>, a: Address): nat {
    if |es| == 0 then 0
    else DirtyCount(es[..|es| - 1], a) + if Dirtied(es[|es| - 1]) == Some(a) then 1 else 0
  }

  /** An account's count is the number of entries that dirty it; RIPEMD's alone also
      counts `extra` explicit marks, which outlive their entries. */
  ghost predicate Counts(dirties: map<Address, nat>, es: seq<Entry>, extra: nat) {
    && (forall a :: (if a in dirties then dirties[a] else 0) == DirtyCount(es, a) + if a == RIPEMD then extra else 0)
    && (forall a :: a in dirties ==> dirties[a] > 0)
  }

  lemma DirtyCountSnoc(es: seq<Entry>, e: Entry, a: Address)
    ensures DirtyCount(es + [e], a) == DirtyCount(es, a) + if Dirtied(e) == Some(a) then 1 else 0
  {
    assert (es + [e])[..|es|] == es;
  }

  class Journal {
    var entries: seq<Entry>
    var dirties: map<Address, nat>
    ghost var extra: nat

    ghost predicate Valid()
      reads this
    {
      Counts(dirties, entries, extra)
    }

    constructor ()
      ensures Valid() && entries == [] && dirties == map[] && extra == 0
    {
      entries, dirties, extra := [], map[], 0;
    }

    method Append(entry: Entry)
      requires Valid()
      modifies this
      ensures Valid() && entries == old(entries) + [entry] && extra == old(extra)
      ensures dirties.Keys == old(dirties.Keys) + if Dirtied(entry).Some? then {Dirtied(entry).value} else {}
    {
      forall a {
        DirtyCountSnoc(entries, entry, a);
      }
      entries := entries + [entry];
      var addr := Dirtied(entry);
      if addr.Some? {
        dirties := dirties[addr.value := (if addr.value in dirties then dirties[addr.value] else 0) + 1];
      }
    }

    /** Marks RIPEMD dirty beyond what the entries say. */
    method Dirty(addr: Address)
      requires Valid() && addr == RIPEMD
      modifies this
      ensures Valid() && entries == old(entries) && extra == old(extra) + 1
      ensures dirties.Keys == old(dirties.Keys) + {addr}
    {
      dirties := dirties[addr := (if addr in dirties then dirties[addr] else 0) + 1];
      extra := extra + 1;
    }

    /** Drops the dirty mark of the last entry before `rest` is all that remains. */
    method Undirty(ghost rest: seq<Entry>, entry: Entry)
      requires Counts(dirties, rest + [entry], extra)
      modifies `dirties
      ensures Counts(dirties, rest, extra) && dirties.Keys <= old(dirties.Keys)
    {
      forall a {
        DirtyCountSnoc(rest, entry, a);
      }
      var addr := Dirtied(entry);
      if addr.Some? {
        assert addr.value in dirties;
        dirties := dirties[addr.value := dirties[addr.value] - 1];
        if dirties[addr.value] == 0 {
          dirties := dirties - {addr.value};
        }
      }
    }
  }
}
