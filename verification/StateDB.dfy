/** The state database: a cache of live accounts over the account trie, with a journal that
    lets nested snapshots be reverted. */
module StateDatabase {
  import opened Wrappers
  import opened StateObjects
  import opened Journals
  import opened StateRevert

  const UINT64: nat := 0x1_0000_0000_0000_0000

  datatype Revision = Revision(id: nat, journalIndex: nat)

  class StateDB {
    const cs: CodeStore
    var trie: map<Address, Account>
    var stateObjects: map<Address, StateObject>
    var stateObjectsDirty: set<Address>
    var refund: nat
    var thash: Hash
    var bhash: Hash
    var txIndex: nat
    var logs: map<Hash, seq<Log>>
    var logSize: nat
    var preimages: map<Hash, Code>
    var journal: Journal
    var validRevisions: seq<Revision>
    var nextRevisionId: nat

    /** The state before each journal entry, and the present one. */
    ghost var past: seq<State>
    /** The state at each snapshot taken. */
    ghost var saved: map<nat, State>
    /** The state when the journal was last cleared. */
    ghost var base: State

    ghost function Now(): State
      reads this
    {
      State(trie, stateObjects, refund, logs, logSize, preimages)
    }

    ghost predicate Valid()
      reads this, journal
    {
      Steady() && ResetsBlank(cs, journal.entries, past)
    }

    /** All of the invariant but what replacing an account makes of it. */
    ghost predicate Steady()
      reads this, journal
    {
      && journal.Valid()
      && Consistent(cs, Now(), journal.entries, journal.dirties, past)
      && Retrievable(cs, validRevisions, nextRevisionId, past, saved)
      && |past| > 0 && past[0] == base
    }

    /** What every operation between snapshots leaves alone. */
    twostate predicate SameRevisions()
      reads this
    {
      && validRevisions == old(validRevisions) && nextRevisionId == old(nextRevisionId) && saved == old(saved)
      && journal == old(journal) && base == old(base)
    }

    /** No account has been replaced since. */
    twostate predicate NoneReplaced()
      reads this, journal
    {
      forall e :: e in journal.entries && e.ResetObjectChange? ==> e in old(journal.entries)
    }

    /** The trie was in step when the journal began, and no account has been replaced since. */
    ghost predicate InStepSoFar()
      reads this, journal
    {
      (forall a :: InStep(base, a)) && forall e :: e in journal.entries ==> !e.ResetObjectChange?
    }

    /** Only reads happened: nothing looks different and no entry was made. */
    twostate predicate OnlyCached()
      reads this, journal
    {
      SameRevisions() && journal.entries == old(journal.entries) && journal.dirties == old(journal.dirties)
      && Like(cs, Now(), old(Now()))
    }

    constructor (cs: CodeStore, trie: map<Address, Account>)
      requires forall a :: a in trie ==> NoZeroes(trie[a].storage)
      ensures Valid() && this.cs == cs && this.trie == trie && Now() == State(trie, map[], 0, map[], 0, map[])
      ensures validRevisions == [] && fresh(journal) && journal.entries == []
      ensures base == Now() && InStepSoFar()
    {
      this.cs, this.trie := cs, trie;
      stateObjects, stateObjectsDirty, preimages := map[], {}, map[];
      refund, thash, bhash, txIndex := 0, 0, 0, 0;
      logs, logSize := map[], 0;
      journal := new Journal();
      validRevisions, nextRevisionId := [], 0;
      past, saved, base := [State(trie, map[], 0, map[], 0, map[])], map[], State(trie, map[], 0, map[], 0, map[]);
    }

    // ----- loading -----

    /** getStateObject: a live object, loaded from the trie if it must be. */
    method GetStateObject(addr: Address) returns (o: Option<StateObject>)
      requires Valid()
      modifies `stateObjects
      ensures Valid() && OnlyCached() && o == old(Live(Now(), addr)) == Live(Now(), addr)
      ensures forall b :: Live(Now(), b) == old(Live(Now(), b))
      ensures o.Some? ==> Now() == Put(old(Now()), o.value)
      ensures o.None? ==> Now() == old(Now())
    {
      hide Like, History;
      LikeRefl(cs, Now());
      if addr in stateObjects {
        var obj := stateObjects[addr];
        if obj.deleted {
          return None;
        }
        assert stateObjects[addr := obj] == stateObjects;
        return Some(obj);
      }
      if addr !in trie {
        return None;
      }
      var obj := NewObject(addr, trie[addr]);
      ReplaceSame(cs, Now(), journal.entries, journal.dirties, past, obj);
      stateObjects := stateObjects[addr := obj];
      return Some(obj);
    }

    // ----- recorded changes -----

    /** The step every journaled setter takes: the entry goes to the journal, the changed
        object into the live set. */
    method Amend(entry: Entry, obj: StateObject)
      requires Valid() && !obj.deleted && Subject(entry) == Some(obj.address) && !entry.ResetObjectChange?
      requires Undoes(cs, entry, Now(), Put(Now(), obj))
      modifies this, journal
      ensures Valid() && SameRevisions() && NoneReplaced() && Now() == Put(old(Now()), obj)
      ensures journal.entries == old(journal.entries) + [entry] && past == old(past) + [Now()]
      ensures journal.dirties.Keys == old(journal.dirties.Keys) + if Dirtied(entry).Some? then {Dirtied(entry).value} else {}
    {
      hide Like, Undoes, StateDB.Steady, ResetsBlank;
      ghost var es, ps := journal.entries, past;
      Record(entry, obj);
      NoResetBlank(cs, es, ps, entry, Now());
    }

    /** The same, for any entry. */
    method Record(entry: Entry, obj: StateObject)
      requires Steady() && !obj.deleted && Subject(entry) == Some(obj.address)
      requires Undoes(cs, entry, Now(), Put(Now(), obj))
      modifies this, journal
      ensures Steady() && SameRevisions() && Now() == Put(old(Now()), obj)
      ensures journal.entries == old(journal.entries) + [entry] && past == old(past) + [Now()]
      ensures journal.dirties.Keys == old(journal.dirties.Keys) + if Dirtied(entry).Some? then {Dirtied(entry).value} else {}
    {
      hide Like, Undoes, Consistent, Retrievable, ResetsBlank;
      ghost var before, es, ds, ps := Now(), journal.entries, journal.dirties, past;
      journal.Append(entry);
      stateObjects := stateObjects[obj.address := obj];
      past := past + [Now()];
      PutConsistent(cs, before, es, ds, ps, entry, obj, journal.dirties);
      LongerPast(cs, validRevisions, nextRevisionId, ps, Now(), saved);
    }

    /** createObject: a blank object takes the address, whatever was there before. */
    method CreateObject(addr: Address) returns (newobj: StateObject, prev: Option<StateObject>)
      requires Valid()
      modifies this, journal
      ensures Steady() && (prev.None? ==> Valid() && NoneReplaced()) && SameRevisions() && newobj == NewObject(addr, cs.EmptyAccount())
      ensures prev == old(Live(Now(), addr)) && Now() == Put(old(Now()), newobj)
      ensures journal.entries == old(journal.entries) + [if prev.Some? then ResetObjectChange(prev.value) else CreateObjectChange(addr)]
      ensures past == old(past) + [Now()]
      ensures journal.dirties.Keys == old(journal.dirties.Keys) + if prev.Some? then {} else {addr}
    {
      hide Like, Undoes, Valid;
      ghost var before := Now();
      prev := GetStateObject(addr);
      newobj := NewObject(addr, cs.EmptyAccount());
      CreationUndone(prev, newobj);
      PutTwice(before, prev, newobj);
      if prev.None? {
        Amend(CreateObjectChange(addr), newobj);
        SteadyNow();
      } else {
        SteadyNow();
        Record(ResetObjectChange(prev.value), newobj);
      }
    }

    lemma SteadyNow()
      requires Valid()
      ensures Steady()
    {
    }

    lemma LiveFacts(a: Address)
      requires Valid()
      ensures Live(Now(), a).Some? ==>
        var o := Live(Now(), a).value; Coherent(o) && !o.deleted && o.address == a
    {
      LiveIsCoherent(Now(), a);
    }

    lemma CreationUndone(prev: Option<StateObject>, newobj: StateObject)
      requires Valid() && Coherent(newobj) && !newobj.deleted && prev == Live(Now(), newobj.address)
      ensures prev.Some? ==> prev.value.address == newobj.address
      ensures Undoes(cs, if prev.Some? then ResetObjectChange(prev.value) else CreateObjectChange(newobj.address),
                     Now(), Put(Now(), newobj))
    {
      LiveIsCoherent(Now(), newobj.address);
      if prev.None? {
        CreateUndone(cs, Now(), newobj);
      } else {
        ResetUndone(cs, Now(), prev.value, newobj);
      }
    }

    /** GetOrNewStateObject. */
    method GetOrNewStateObject(addr: Address) returns (obj: StateObject)
      requires Valid()
      modifies this, journal
      ensures Valid() && SameRevisions() && NoneReplaced()
      ensures obj == OrNew(cs, old(Now()), addr) && Now() == Put(old(Now()), obj) && Live(Now(), addr) == Some(obj)
      ensures Coherent(obj) && !obj.deleted && obj.address == addr
      ensures journal.dirties.Keys == old(journal.dirties.Keys) + if old(Live(Now(), addr)).None? then {addr} else {}
    {
      hide Like, Valid;
      LiveFacts(addr);
      var o := GetStateObject(addr);
      if o.None? {
        var fresh', _ := CreateObject(addr);
        return fresh';
      }
      return o.value;
    }

    /** CreateAccount: a new account keeps nothing of an old one but its balance. */
    method CreateAccount(addr: Address)
      requires Valid()
      modifies this, journal
      ensures Valid() && SameRevisions()
      ensures journal.dirties.Keys == old(journal.dirties.Keys) + if old(Live(Now(), addr)).None? then {addr} else {}
      ensures Live(Now(), addr).Some? &&
        var o := Live(Now(), addr).value;
        && o.data.nonce == 0 && o.data.codeHash == cs.keccak([]) && o.data.balance == BalanceOf(old(Now()), addr)
        && !o.suicided && forall k :: Slot(o, k) == 0 && Committed(o, k) == 0
      ensures var prev := old(Live(Now(), addr));
              var account := cs.EmptyAccount().(balance := if prev.Some? then prev.value.data.balance else 0);
              && Now() == Put(old(Now()), NewObject(addr, account))
              && journal.entries == old(journal.entries) + [if prev.Some? then ResetObjectChange(prev.value) else CreateObjectChange(addr)]
    {
      hide Like, Undoes, Consistent, Retrievable, ResetsBlank, Slot, Committed;
      ghost var was, account := Live(Now(), addr), cs.EmptyAccount();
      ghost var before, es, ds, ps := Now(), journal.entries, journal.dirties, past;
      LiveFacts(addr);
      ghost var carried := NewObject(addr, if was.Some? then account.(balance := was.value.data.balance) else account);
      CreationUndone(was, carried);
      var newobj, prev := CreateObject(addr);
      PutTwice(before, Some(newobj), carried);
      if prev.Some? {
        // the balance is carried over without an entry of its own: the reset covers it
        stateObjects := stateObjects[addr := newobj.(data := newobj.data.(balance := prev.value.data.balance))];
        past := ps + [Now()];
        PutConsistent(cs, before, es, ds, ps, ResetObjectChange(prev.value), carried, journal.dirties);
        NextResetBlank(cs, es, ps, prev.value, Now());
        LongerPast(cs, validRevisions, nextRevisionId, ps, Now(), saved);
      }
      NewReads(cs, before, addr, BalanceOf(before, addr));
    }

    // ----- setters -----

    /** AddBalance: nothing is journaled for adding nothing, except that it touches an empty
        account. */
    method AddBalance(addr: Address, amount: int)
      requires Valid()
      modifies this, journal
      ensures Valid() && SameRevisions() && NoneReplaced()
      ensures journal.dirties.Keys == old(journal.dirties.Keys) + (
        var o := old(Live(Now(), addr));
        if amount != 0 || o.None? || (o.value.data.nonce == 0 && o.value.data.balance == 0 && o.value.data.codeHash == cs.keccak([]))
        then {addr} else {})
      ensures Now() == Put(old(Now()), WithBalance(OrNew(cs, old(Now()), addr), OrNew(cs, old(Now()), addr).data.balance + amount))
    {
      hide Like, Undoes, Valid;
      ghost var before := Now();
      var obj := GetOrNewStateObject(addr);
      PutTwice(before, Some(obj), WithBalance(obj, obj.data.balance + amount));
      if amount == 0 {
        if cs.IsEmpty(obj.data) {
          Touch(obj);
        }
        return;
      }
      ObjectSetBalance(obj, obj.data.balance + amount);
    }

    method SubBalance(addr: Address, amount: int)
      requires Valid()
      modifies this, journal
      ensures Valid() && SameRevisions() && NoneReplaced()
      ensures journal.dirties.Keys == old(journal.dirties.Keys) + if amount != 0 || old(Live(Now(), addr)).None? then {addr} else {}
      ensures Now() == Put(old(Now()), WithBalance(OrNew(cs, old(Now()), addr), OrNew(cs, old(Now()), addr).data.balance - amount))
    {
      hide Like, Undoes, Valid;
      ghost var before := Now();
      var obj := GetOrNewStateObject(addr);
      PutTwice(before, Some(obj), WithBalance(obj, obj.data.balance - amount));
      if amount == 0 {
        return;
      }
      ObjectSetBalance(obj, obj.data.balance - amount);
    }

    method SetBalance(addr: Address, amount: int)
      requires Valid()
      modifies this, journal
      ensures Valid() && SameRevisions() && NoneReplaced()
      ensures journal.dirties.Keys == old(journal.dirties.Keys) + {addr}
      ensures Now() == Put(old(Now()), WithBalance(OrNew(cs, old(Now()), addr), amount))
    {
      hide Like, Undoes, Valid;
      ghost var before := Now();
      var obj := GetOrNewStateObject(addr);
      PutTwice(before, Some(obj), WithBalance(obj, amount));
      ObjectSetBalance(obj, amount);
    }

    method ObjectSetBalance(obj: StateObject, amount: int)
      requires Valid() && Live(Now(), obj.address) == Some(obj)
      modifies this, journal
      ensures Valid() && SameRevisions() && NoneReplaced() && Now() == Put(old(Now()), WithBalance(obj, amount))
      ensures journal.dirties.Keys == old(journal.dirties.Keys) + {obj.address}
    {
      hide Like, Valid;
      LiveFacts(obj.address);
      var entry := BalanceChange(obj.address, obj.data.balance);
      ChangeUndone(entry, obj, WithBalance(obj, amount));
      Amend(entry, WithBalance(obj, amount));
    }

    /** touch: an entry that changes nothing, plus the lasting mark for RIPEMD. */
    method Touch(obj: StateObject)
      requires Valid() && Live(Now(), obj.address) == Some(obj)
      modifies this, journal
      ensures Valid() && SameRevisions() && NoneReplaced() && Now() == Put(old(Now()), obj)
      ensures journal.dirties.Keys == old(journal.dirties.Keys) + {obj.address}
    {
      hide Like, Consistent, Retrievable;
      LiveFacts(obj.address);
      ChangeUndone(TouchChange(obj.address), obj, obj);
      Amend(TouchChange(obj.address), obj);
      if obj.address == RIPEMD {
        ghost var ds := journal.dirties;
        journal.Dirty(obj.address);
        SameDirties(cs, Now(), journal.entries, ds, past, journal.dirties);
      }
    }

    method SetNonce(addr: Address, nonce: nat)
      requires Valid()
      modifies this, journal
      ensures Valid() && SameRevisions() && NoneReplaced()
      ensures journal.dirties.Keys == old(journal.dirties.Keys) + {addr}
      ensures var o := OrNew(cs, old(Now()), addr); Now() == Put(old(Now()), o.(data := o.data.(nonce := nonce)))
    {
      hide Like, Valid;
      ghost var before := Now();
      var obj := GetOrNewStateObject(addr);
      var changed := obj.(data := obj.data.(nonce := nonce));
      PutTwice(before, Some(obj), changed);
      ChangeUndone(NonceChange(addr, obj.data.nonce), obj, changed);
      Amend(NonceChange(addr, obj.data.nonce), changed);
    }

    /** SetCode; a nil slice is no code, with the hash of the empty one. */
    method SetCode(addr: Address, code: Option<Code>)
      requires Valid()
      modifies this, journal
      ensures Valid() && SameRevisions() && NoneReplaced()
      ensures journal.dirties.Keys == old(journal.dirties.Keys) + {addr}
      ensures var o := OrNew(cs, old(Now()), addr);
              Now() == Put(old(Now()), o.(code := code, data := o.data.(codeHash := cs.keccak(if code.Some? then code.value else []))))
    {
      hide Like, Valid;
      ghost var before := Now();
      var obj := GetOrNewStateObject(addr);
      var prevCode := cs.CodeOf(obj);
      var changed := obj.(code := code, data := obj.data.(codeHash := cs.keccak(if code.Some? then code.value else [])));
      PutTwice(before, Some(obj), changed);
      ChangeUndone(CodeChange(addr, prevCode, obj.data.codeHash), obj, changed);
      Amend(CodeChange(addr, prevCode, obj.data.codeHash), changed);
    }

    /** SetState: writing what is there already is not a change. */
    method SetState(addr: Address, key: Hash, value: Hash)
      requires Valid()
      modifies this, journal
      ensures Valid() && SameRevisions() && NoneReplaced()
      ensures journal.dirties.Keys == old(journal.dirties.Keys) + if old(Live(Now(), addr)).None? || Slot(old(Live(Now(), addr)).value, key) != value then {addr} else {}
      ensures var o := OrNew(cs, old(Now()), addr);
              var loaded := WithCached(o, key);
              Now() == Put(old(Now()), if Slot(o, key) == value then loaded else loaded.(dirty := loaded.dirty[key := value]))
    {
      hide Like, Valid, Coherent, SameLook;
      ghost var before := Now();
      var obj := GetOrNewStateObject(addr);
      var prev, loaded := ObjectGetState(obj, key);
      PutTwice(before, Some(obj), loaded);
      if prev == value {
        return;
      }
      var changed := loaded.(dirty := loaded.dirty[key := value]);
      PutTwice(before, Some(loaded), changed);
      SlotUndone(cs, obj, key, value);
      ChangeUndone(StorageChange(addr, key, prev), loaded, changed);
      Amend(StorageChange(addr, key, prev), changed);
    }

    /** Suicide: marks the account and takes its balance. */
    method Suicide(addr: Address) returns (done: bool)
      requires Valid()
      modifies this, journal
      ensures Valid() && SameRevisions() && NoneReplaced() && done == old(Live(Now(), addr)).Some?
      ensures journal.dirties.Keys == old(journal.dirties.Keys) + if done then {addr} else {}
      ensures Now() == if done then Put(old(Now()), WithBalance(old(Live(Now(), addr)).value, 0).(suicided := true)) else old(Now())
    {
      hide Like, Valid;
      ghost var before := Now();
      LiveFacts(addr);
      var o := GetStateObject(addr);
      if o.None? {
        return false;
      }
      var obj := o.value;
      var entry := SuicideChange(addr, obj.suicided, obj.data.balance);
      var changed := WithBalance(obj, 0).(suicided := true);
      PutTwice(before, Some(obj), changed);
      ChangeUndone(entry, obj, changed);
      Amend(entry, changed);
      return true;
    }

    /** A change of a live object, when undoing it brings back its look. */
    lemma ChangeUndone(e: Entry, obj: StateObject, changed: StateObject)
      requires Valid() && Live(Now(), obj.address) == Some(obj) && changed.address == obj.address
      requires Coherent(changed) && !changed.deleted && Dirtied(e) == Some(obj.address) && !e.CreateObjectChange?
      requires e.StorageChange? ==> e.key in changed.origin
      requires SameLook(cs, Amended(e, Some(changed)), Some(obj))
      requires obj.origin.Keys <= Cached(Amended(e, Some(changed)))
      ensures Undoes(cs, e, Now(), Put(Now(), changed))
    {
      PutUndone(cs, e, Now(), changed);
    }

    // ----- storage reads -----

    /** GetState of an object: the committed slot is cached on the way. */
    method ObjectGetState(obj: StateObject, key: Hash) returns (value: Hash, loaded: StateObject)
      requires Valid() && Live(Now(), obj.address) == Some(obj)
      modifies `stateObjects
      ensures Valid() && OnlyCached() && value == Slot(obj, key) && loaded == WithCached(obj, key)
      ensures Coherent(loaded) && Now() == Put(old(Now()), loaded) && Live(Now(), obj.address) == Some(loaded)
    {
      hide Like, Retrievable;
      LiveFacts(obj.address);
      loaded := obj;
      if key in obj.dirty {
        value := obj.dirty[key];
      } else if key in obj.origin {
        value := obj.origin[key];
      } else {
        value := At(obj.data.storage, key);
        loaded := obj.(origin := obj.origin[key := value]);
      }
      CachedLooks(cs, obj, key);
      ReplaceSame(cs, Now(), journal.entries, journal.dirties, past, loaded);
      stateObjects := stateObjects[obj.address := loaded];
    }

    method Exist(addr: Address) returns (r: bool)
      requires Valid()
      modifies `stateObjects
      ensures Valid() && OnlyCached() && r == old(Live(Now(), addr)).Some?
      ensures forall b :: Live(Now(), b) == old(Live(Now(), b))
    {
      var o := GetStateObject(addr);
      return o.Some?;
    }

    method GetBalance(addr: Address) returns (balance: int)
      requires Valid()
      modifies `stateObjects
      ensures Valid() && OnlyCached() && balance == BalanceOf(old(Now()), addr)
      ensures forall b :: Live(Now(), b) == old(Live(Now(), b))
    {
      var o := GetStateObject(addr);
      return if o.Some? then o.value.data.balance else 0;
    }

    method GetNonce(addr: Address) returns (nonce: nat)
      requires Valid()
      modifies `stateObjects
      ensures Valid() && OnlyCached() && nonce == NonceOf(old(Now()), addr)
      ensures forall b :: Live(Now(), b) == old(Live(Now(), b))
    {
      var o := GetStateObject(addr);
      return if o.Some? then o.value.data.nonce else 0;
    }

    method GetState(addr: Address, key: Hash) returns (value: Hash)
      requires Valid()
      modifies `stateObjects
      ensures Valid() && OnlyCached()
      ensures value == var o := old(Live(Now(), addr)); if o.Some? then Slot(o.value, key) else 0
    {
      hide Valid, Like;
      ghost var before := Now();
      var o := GetStateObject(addr);
      if o.None? {
        return 0;
      }
      LiveFacts(addr);
      ghost var between := Now();
      var slot, _ := ObjectGetState(o.value, key);
      LikeTransitive(cs, Now(), between, before);
      return slot;
    }

    /** GetCode: the code a live object has at hand, or that of its hash, which it then keeps. */
    method GetCode(addr: Address) returns (code: Option<Code>)
      requires Valid()
      modifies `stateObjects
      ensures Valid() && OnlyCached()
      ensures code == var o := old(Live(Now(), addr)); if o.Some? then cs.CodeOf(o.value) else None
    {
      hide Valid, Like;
      ghost var before := Now();
      var o := GetStateObject(addr);
      if o.None? {
        return None;
      }
      LiveFacts(addr);
      ghost var between := Now();
      code := ObjectCode(o.value);
      LikeTransitive(cs, Now(), between, before);
    }

    /** Code of an object. */
    method ObjectCode(obj: StateObject) returns (code: Option<Code>)
      requires Valid() && Live(Now(), obj.address) == Some(obj)
      modifies `stateObjects
      ensures Valid() && OnlyCached() && code == cs.CodeOf(obj)
    {
      hide Like, Retrievable;
      LiveFacts(obj.address);
      LikeRefl(cs, Now());
      if obj.code.Some? {
        return obj.code;
      }
      if obj.data.codeHash == cs.EmptyHash() {
        return None;
      }
      code := Lookup(cs.codes, obj.data.codeHash);
      ReplaceSame(cs, Now(), journal.entries, journal.dirties, past, obj.(code := code));
      stateObjects := stateObjects[obj.address := obj.(code := code)];
    }

    // ----- changes that concern no account -----

    /** Appends an entry about refunds, logs or preimages once the field has changed. */
    method Note(entry: Entry, ghost before: State)
      requires journal.Valid() && Subject(entry).None? && Undoes(cs, entry, before, Now())
      requires Consistent(cs, before, journal.entries, journal.dirties, past) && Now().objects == before.objects
      requires Retrievable(cs, validRevisions, nextRevisionId, past, saved) && |past| > 0 && past[0] == base
      requires ResetsBlank(cs, journal.entries, past)
      modifies `past, journal
      ensures Valid() && SameRevisions() && NoneReplaced() && journal.entries == old(journal.entries) + [entry]
    {
      hide Like, Undoes, Retrievable, ResetsBlank;
      ghost var es, ds, ps := journal.entries, journal.dirties, past;
      journal.Append(entry);
      past := past + [Now()];
      NoResetBlank(cs, es, ps, entry, Now());
      NoteConsistent(cs, before, es, ds, ps, entry, Now(), journal.dirties);
      LongerPast(cs, validRevisions, nextRevisionId, ps, Now(), saved);
    }

    method AddRefund(gas: nat)
      requires Valid()
      modifies this, journal
      ensures Valid() && SameRevisions() && NoneReplaced()
      ensures Now() == old(Now()).(refund := (old(refund) + gas) % UINT64)
    {
      hide Like, History, Retrievable;
      ghost var before := Now();
      var entry := RefundChange(refund);
      refund := (refund + gas) % UINT64;
      GlobalUndone(cs, entry, before, Now());
      Note(entry, before);
    }

    /** SubRefund panics below zero, its entry already written. */
    method SubRefund(gas: nat) returns (ok: bool)
      requires Valid()
      modifies this, journal
      ensures Valid() && SameRevisions() && NoneReplaced() && ok == (gas <= old(refund))
      ensures Now() == if ok then old(Now()).(refund := old(refund) - gas) else old(Now())
    {
      hide Like, History, Retrievable;
      ghost var before := Now();
      var entry := RefundChange(refund);
      ok := gas <= refund;
      if ok {
        refund := refund - gas;
      }
      GlobalUndone(cs, entry, before, Now());
      Note(entry, before);
    }

    method AddLog(body: nat)
      requires Valid()
      modifies this, journal
      ensures Valid() && SameRevisions() && NoneReplaced()
      ensures var log := Log(body, thash, bhash, txIndex, old(logSize));
              Now() == old(Now()).(logs := old(logs)[thash := LogsOf(old(logs), thash) + [log]], logSize := old(logSize) + 1)
      ensures thash == old(thash) && bhash == old(bhash) && txIndex == old(txIndex)
    {
      hide Like, History, Retrievable;
      ghost var before := Now();
      var log := Log(body, thash, bhash, txIndex, logSize);
      var logged := LogsOf(logs, thash);
      LogUndone(logs, thash, log);
      logs := logs[thash := logged + [log]];
      logSize := logSize + 1;
      GlobalUndone(cs, AddLogChange(thash), before, Now());
      Note(AddLogChange(thash), before);
    }

    method AddPreimage(hash: Hash, preimage: Code)
      requires Valid()
      modifies this, journal
      ensures Valid() && SameRevisions() && NoneReplaced()
      ensures Now() == if hash in old(preimages) then old(Now()) else old(Now()).(preimages := old(preimages)[hash := preimage])
    {
      hide Like, History, Retrievable;
      if hash !in preimages {
        ghost var before := Now();
        preimages := preimages[hash := preimage];
        assert preimages - {hash} == before.preimages;
        GlobalUndone(cs, AddPreimageChange(hash), before, Now());
        Note(AddPreimageChange(hash), before);
      }
    }

    /** Prepare names the transaction whose logs come next. */
    method Prepare(thash: Hash, bhash: Hash, ti: nat)
      requires Valid()
      modifies `thash, `bhash, `txIndex
      ensures Valid() && this.thash == thash && this.bhash == bhash && txIndex == ti
    {
      hide Consistent, Retrievable, ResetsBlank;
      this.thash, this.bhash, txIndex := thash, bhash, ti;
    }

    // ----- snapshots -----

    method Snapshot() returns (id: nat)
      requires Valid()
      modifies this
      ensures Valid() && Now() == old(Now()) && id == old(nextRevisionId) && nextRevisionId == id + 1
      ensures journal == old(journal) && base == old(base)
      ensures validRevisions == old(validRevisions) + [Revision(id, |journal.entries|)]
      ensures saved == old(saved)[id := Now()]
    {
      hide Consistent, Retrievable;
      LastIsNow(cs, Now(), journal.entries, journal.dirties, past);
      SnapshotKeeps(cs, validRevisions, nextRevisionId, past, saved, Now());
      id := nextRevisionId;
      nextRevisionId := nextRevisionId + 1;
      validRevisions := validRevisions + [Revision(id, |journal.entries|)];
      saved := saved[id := Now()];
    }

    /** RevertToSnapshot: the state looks as it did at the snapshot, the snapshots taken
        before it stay valid, and it and all later ones are gone. An id that is not valid
        is refused (the source panics). */
    method RevertToSnapshot(revid: nat) returns (ok: bool)
      requires Valid()
      modifies this, journal
      ensures Valid() && journal == old(journal) && saved == old(saved) && nextRevisionId == old(nextRevisionId) && base == old(base)
      ensures ok == exists i :: 0 <= i < |old(validRevisions)| && old(validRevisions)[i].id == revid
      ensures ok ==> revid in saved && SameView(cs, Now(), saved[revid])
      ensures ok ==>
        && refund == saved[revid].refund && logs == saved[revid].logs && preimages == saved[revid].preimages
        && (forall a :: BalanceOf(Now(), a) == BalanceOf(saved[revid], a) && NonceOf(Now(), a) == NonceOf(saved[revid], a))
        && (forall a :: Live(Now(), a).Some? <==> Live(saved[revid], a).Some?)
        && (forall a :: Live(Now(), a).Some? ==>
              var now, was := Live(Now(), a).value, Live(saved[revid], a).value;
              && now.suicided == was.suicided && now.data.codeHash == was.data.codeHash && cs.CodeOf(now) == cs.CodeOf(was)
              && forall k :: Slot(now, k) == Slot(was, k) && Committed(now, k) == Committed(was, k))
      ensures ok ==> exists i :: 0 <= i < |old(validRevisions)| && old(validRevisions)[i].id == revid
                       && old(validRevisions)[i].journalIndex <= |old(journal.entries)|
                       && validRevisions == old(validRevisions)[..i]
                       && journal.entries == old(journal.entries)[..old(validRevisions)[i].journalIndex]
      ensures !ok ==> Now() == old(Now()) && validRevisions == old(validRevisions) && journal.entries == old(journal.entries)
    {
      hide Consistent, SameView, Like;
      LastIsNow(cs, Now(), journal.entries, journal.dirties, past);
      var idx := SearchRevision(revid);
      if idx == |validRevisions| || validRevisions[idx].id != revid {
        return false;
      }
      var snapshot := validRevisions[idx].journalIndex;
      ghost var ps := past;
      RevertJournal(snapshot);
      LastIsNow(cs, Now(), journal.entries, journal.dirties, past);
      ViewTransitive(cs, Now(), past[snapshot], saved[revid]);
      ViewMeans(cs, Now(), saved[revid]);
      ShorterPast(cs, validRevisions, nextRevisionId, ps, saved, idx);
      validRevisions := validRevisions[..idx];
      return true;
    }

    /** The journal's revert: entries are undone last first, dirty counts going with them. */
    method RevertJournal(snapshot: nat)
      requires journal.Valid() && Consistent(cs, Now(), journal.entries, journal.dirties, past)
      requires snapshot <= |journal.entries|
      modifies `stateObjects, `stateObjectsDirty, `refund, `logs, `logSize, `preimages, `past, journal
      ensures journal.Valid() && Consistent(cs, Now(), journal.entries, journal.dirties, past)
      ensures journal.entries == old(journal.entries[..snapshot])
      ensures |past| == snapshot + 1 && past == old(past)[..snapshot + 1]
    {
      hide Consistent, Applicable, Reverted, Counts, EntryOk;
      LastIsNow(cs, Now(), journal.entries, journal.dirties, past);
      ghost var all := past;
      var i := |journal.entries|;
      assert journal.entries[..i] == journal.entries && all[..i + 1] == all;
      while i > snapshot
        invariant snapshot <= i <= |journal.entries| && journal.entries == old(journal.entries) && past == all
        invariant Consistent(cs, Now(), journal.entries[..i], journal.dirties, all[..i + 1])
        invariant Counts(journal.dirties, journal.entries[..i], journal.extra)
      {
        i := i - 1;
        ghost var es, ps := journal.entries[..i + 1], all[..i + 2];
        assert es == journal.entries[..i] + [journal.entries[i]] && es[..i] == journal.entries[..i] && ps[..i + 1] == all[..i + 1];
        ghost var before, ds := Now(), journal.dirties;
        UndoConsistent(cs, before, es, ds, ps);
        RevertEntry(journal.entries[i]);
        journal.Undirty(journal.entries[..i], journal.entries[i]);
        SameDirties(cs, Now(), es[..i], ds, ps[..i + 1], journal.dirties);
      }
      journal.entries := journal.entries[..snapshot];
      past := past[..snapshot + 1];
    }

    /** The revert of each change type. */
    method RevertEntry(entry: Entry)
      requires Sound(Now()) && Applicable(entry, Now()) && EntryOk(entry, trie)
      modifies `stateObjects, `stateObjectsDirty, `refund, `logs, `logSize, `preimages
      ensures Now() == Reverted(entry, old(Now()))
    {
      match entry
      case CreateObjectChange(account) =>
        stateObjects := stateObjects - {account};
        stateObjectsDirty := stateObjectsDirty - {account};
      case ResetObjectChange(prev) =>
        stateObjects := stateObjects[prev.address := prev];
      case SuicideChange(account, was, balance) =>
        var obj := Reload(account);
        stateObjects := stateObjects[account := obj.(suicided := was, data := obj.data.(balance := balance))];
      case BalanceChange(account, balance) =>
        var obj := Reload(account);
        stateObjects := stateObjects[account := obj.(data := obj.data.(balance := balance))];
      case NonceChange(account, nonce) =>
        var obj := Reload(account);
        stateObjects := stateObjects[account := obj.(data := obj.data.(nonce := nonce))];
      case StorageChange(account, key, value) =>
        var obj := Reload(account);
        stateObjects := stateObjects[account := obj.(dirty := obj.dirty[key := value])];
      case CodeChange(account, code, hash) =>
        var obj := Reload(account);
        stateObjects := stateObjects[account := obj.(code := code, data := obj.data.(codeHash := hash))];
      case RefundChange(prev) =>
        refund := prev;
      case AddLogChange(txHash) =>
        if |logs[txHash]| == 1 {
          logs := logs - {txHash};
        } else {
          logs := logs[txHash := logs[txHash][..|logs[txHash]| - 1]];
        }
        logSize := logSize - 1;
      case AddPreimageChange(hash) =>
        preimages := preimages - {hash};
      case TouchChange(_) =>
    }

    /** The object an entry is about; it is there whenever its entry is undone. */
    method Reload(account: Address) returns (obj: StateObject)
      requires Sound(Now()) && Live(Now(), account).Some?
      ensures Live(Now(), account) == Some(obj) && obj.address == account
    {
      obj := if account in stateObjects then stateObjects[account] else NewObject(account, trie[account]);
    }

    /** sort.Search for the first revision with at least this id. */
    method SearchRevision(revid: nat) returns (idx: nat)
      requires RevisionsOk(validRevisions, nextRevisionId, |journal.entries|)
      ensures idx <= |validRevisions|
      ensures forall i :: 0 <= i < idx ==> validRevisions[i].id < revid
      ensures forall i :: idx <= i < |validRevisions| ==> validRevisions[i].id >= revid
    {
      idx := 0;
      var j := |validRevisions|;
      while idx < j
        invariant 0 <= idx <= j <= |validRevisions|
        invariant forall i :: 0 <= i < idx ==> validRevisions[i].id < revid
        invariant forall i :: j <= i < |validRevisions| ==> validRevisions[i].id >= revid
      {
        var h := (idx + j) / 2;
        if validRevisions[h].id < revid {
          idx := h + 1;
        } else {
          j := h;
        }
      }
    }

    // ----- the end of a transaction -----

    /** Finalise: every dirty account reaches the trie, or leaves it when it has suicided or,
        if asked, is empty; no getter but that for committed storage sees any other
        difference. The journal and the snapshots are void. */
    method Finalise(deleteEmptyObjects: bool)
      requires Valid()
      modifies this, journal
      ensures Valid() && fresh(journal) && journal.entries == [] && journal.dirties == map[] && validRevisions == [] && refund == 0
      ensures nextRevisionId == old(nextRevisionId) && base == Now()
      ensures logs == old(logs) && logSize == old(logSize) && preimages == old(preimages)
      ensures FinalisedAll(cs, deleteEmptyObjects, old(Now()), Now(), old(journal.dirties.Keys))
      ensures forall a :: a in old(journal.dirties) && a in old(stateObjects) ==>
        var was := old(stateObjects)[a];
        && (Live(Now(), a).Some? <==> (
              && !was.suicided
              && (!deleteEmptyObjects || was.data.nonce > 0 || was.data.balance != 0 || was.data.codeHash != cs.keccak([]))))
        && (Live(Now(), a).Some? ==>
              var now := Live(Now(), a).value;
              && now.data.nonce == was.data.nonce && now.data.balance == was.data.balance
              && now.data.codeHash == was.data.codeHash && cs.CodeOf(now) == cs.CodeOf(was)
              && forall k :: Slot(now, k) == Slot(was, k))
      ensures forall a :: a !in old(journal.dirties) || a !in old(stateObjects) ==> Live(Now(), a) == old(Live(Now(), a))
      ensures forall a :: a in old(journal.dirties) ==> InStep(Now(), a)
      ensures forall a :: a !in old(journal.dirties) && InStep(old(base), a) ==>
        (InStep(Now(), a) <==> OnlyBlankReplaced(cs, old(journal.entries), a))
      ensures old(InStepSoFar()) ==> InStepSoFar() && forall a :: InStep(Now(), a)
    {
      hide Consistent, Retrievable, FinalisedAll, Sound, InStep, Counts, OnlyBlankReplaced, Live, ResetsBlank;
      ConsistentFacts(cs, Now(), journal.entries, journal.dirties, past);
      ghost var before, dirty, es := Now(), journal.dirties.Keys, journal.entries;
      forall a | a !in dirty && InStep(base, a)
        ensures InStep(before, a) <==> OnlyBlankReplaced(cs, es, a)
      {
        NotDirtied(journal.dirties, es, journal.extra, a);
        ReplacedInStep(cs, before, es, journal.dirties, past, a);
      }
      NothingReplaced(cs, es);
      FinaliseObjects(journal.dirties.Keys, deleteEmptyObjects);
      RefundAside(cs, deleteEmptyObjects, before, Now(), dirty);
      FinalisedMeans(cs, deleteEmptyObjects, before, Now(), dirty);
      forall a
        ensures InStep(Now().(refund := 0), a) <==> a in dirty || InStep(before, a)
      {
        FinalisedStateInStep(cs, deleteEmptyObjects, before, Now(), dirty, a);
      }
      ClearJournalAndRefund();
    }

    /** clearJournalAndRefund: what is there now cannot be undone any more. */
    method ClearJournalAndRefund()
      requires Sound(Now())
      modifies `journal, `validRevisions, `refund, `past, `base
      ensures Valid() && fresh(journal) && journal.entries == [] && journal.dirties == map[] && validRevisions == []
      ensures base == Now() == old(Now()).(refund := 0)
    {
      hide Consistent, Retrievable, Sound;
      FreshConsistent(cs, Now());
      journal := new Journal();
      validRevisions := [];
      refund := 0;
      past, base := [Now()], Now();
      NothingSaved(cs, nextRevisionId, past, saved);
    }

    /** The loop over the dirty accounts. */
    method FinaliseObjects(dirty: set<Address>, deleteEmptyObjects: bool)
      requires Sound(Now()) && forall a :: a in dirty && a in stateObjects ==> !stateObjects[a].deleted
      modifies `stateObjects, `stateObjectsDirty, `trie
      ensures Sound(Now()) && FinalisedAll(cs, deleteEmptyObjects, old(Now()), Now(), dirty)
    {
      hide Finalised, Sound;
      var rest := dirty;
      while rest != {}
        invariant rest <= dirty && Sound(Now()) && FinalisedAll(cs, deleteEmptyObjects, old(Now()), Now(), dirty - rest)
        decreases rest
      {
        var addr :| addr in rest;
        ghost var done := dirty - rest;
        rest := rest - {addr};
        assert Lookup(stateObjects, addr) == Lookup(old(stateObjects), addr);
        if addr in stateObjects {
          FinaliseObject(addr, deleteEmptyObjects);
        }
        assert dirty - rest == done + {addr};
      }
      assert dirty - rest == dirty;
    }

    /** One dirty account at the end of a transaction. */
    method FinaliseObject(addr: Address, deleteEmptyObjects: bool)
      requires Sound(Now()) && addr in stateObjects && !stateObjects[addr].deleted
      modifies `stateObjects, `stateObjectsDirty, `trie
      ensures Sound(Now())
      ensures Finalised(cs, deleteEmptyObjects, old(stateObjects)[addr], Live(Now(), addr), Lookup(trie, addr))
      ensures forall b :: b != addr ==>
        Lookup(stateObjects, b) == old(Lookup(stateObjects, b)) && Lookup(trie, b) == old(Lookup(trie, b))
    {
      hide Coherent;
      var obj := stateObjects[addr];
      if obj.suicided || (deleteEmptyObjects && cs.IsEmpty(obj.data)) {
        SoundDeleted(Now(), addr, obj.(deleted := true));
        stateObjects := stateObjects[addr := obj.(deleted := true)];
        trie := trie - {addr};
      } else {
        var updated := UpdateTrie(obj);
        UpdatedFinalised(cs, deleteEmptyObjects, obj, updated);
        SoundUpdated(Now(), addr, updated);
        stateObjects := stateObjects[addr := updated];
        trie := trie[addr := updated.data];
      }
      stateObjectsDirty := stateObjectsDirty + {addr};
    }
  }

  // ----- the invariant -----

  /** The present looks like the last state of the journal's history. */
  ghost predicate Consistent(cs: CodeStore, s: State, es: seq<Entry>, dirties: map<Address, nat>, past: seq<State>) {
    && Sound(s)
    && History(cs, es, past)
    && Like(cs, s, past[|es|])
    && DirtyIsLive(dirties, s.objects)
  }

  lemma ReplaceSame(cs: CodeStore, s: State, es: seq<Entry>, dirties: map<Address, nat>, past: seq<State>, obj: StateObject)
    requires Consistent(cs, s, es, dirties, past) && Coherent(obj) && !obj.deleted
    requires SameLook(cs, Some(obj), Live(s, obj.address)) && Cached(Live(s, obj.address)) <= obj.origin.Keys
    ensures Consistent(cs, Put(s, obj), es, dirties, past) && Like(cs, Put(s, obj), s)
    ensures forall b :: b != obj.address ==> Live(Put(s, obj), b) == Live(s, b)
  {
    PutLike(cs, s, obj);
    LikeTransitive(cs, Put(s, obj), s, past[|es|]);
  }

  /** Recording a change that can be undone. */
  lemma StepConsistent(cs: CodeStore, s: State, es: seq<Entry>, dirties: map<Address, nat>, past: seq<State>,
                       e: Entry, s': State, dirties': map<Address, nat>)
    requires Consistent(cs, s, es, dirties, past) && Undoes(cs, e, s, s') && DirtyIsLive(dirties', s'.objects)
    ensures Consistent(cs, s', es + [e], dirties', past + [s'])
  {
    HistorySnoc(cs, es, past, e, s, s');
    LikeRefl(cs, s');
  }

  lemma PutConsistent(cs: CodeStore, s: State, es: seq<Entry>, dirties: map<Address, nat>, past: seq<State>,
                      e: Entry, obj: StateObject, dirties': map<Address, nat>)
    requires Consistent(cs, s, es, dirties, past) && Undoes(cs, e, s, Put(s, obj))
    requires !obj.deleted && Subject(e) == Some(obj.address)
    requires dirties'.Keys == dirties.Keys + if Dirtied(e).Some? then {Dirtied(e).value} else {}
    ensures Consistent(cs, Put(s, obj), es + [e], dirties', past + [Put(s, obj)])
  {
    StepConsistent(cs, s, es, dirties, past, e, Put(s, obj), dirties');
  }

  /** Snapshots still lead back to what they saw. */
  ghost predicate Retrievable(cs: CodeStore, rs: seq<Revision>, nextId: nat, past: seq<State>, saved: map<nat, State>) {
    |past| > 0 && RevisionsOk(rs, nextId, |past| - 1) && SavedOk(cs, rs, past, saved)
  }

  lemma LongerPast(cs: CodeStore, rs: seq<Revision>, nextId: nat, past: seq<State>, s: State, saved: map<nat, State>)
    requires Retrievable(cs, rs, nextId, past, saved)
    ensures Retrievable(cs, rs, nextId, past + [s], saved)
  {
  }

  ghost predicate DirtyIsLive(dirties: map<Address, nat>, objects: map<Address, StateObject>) {
    forall a :: a in dirties && a in objects ==> !objects[a].deleted
  }

  /** Ids and journal positions both grow. */
  ghost predicate RevisionsOk(rs: seq<Revision>, nextId: nat, length: nat) {
    && (forall i :: 0 <= i < |rs| ==> rs[i].id < nextId && rs[i].journalIndex <= length)
    && (forall i, j :: 0 <= i < j < |rs| ==> rs[i].id < rs[j].id && rs[i].journalIndex <= rs[j].journalIndex)
  }

  /** Each valid revision's journal position leads back to what the snapshot saw. */
  ghost predicate SavedOk(cs: CodeStore, rs: seq<Revision>, past: seq<State>, saved: map<nat, State>) {
    forall i :: 0 <= i < |rs| ==>
      && rs[i].id in saved && rs[i].journalIndex < |past|
      && SameView(cs, past[rs[i].journalIndex], saved[rs[i].id])
  }

  function OrNew(cs: CodeStore, s: State, a: Address): StateObject {
    if Live(s, a).Some? then Live(s, a).value else NewObject(a, cs.EmptyAccount())
  }

  lemma PutTwice(s: State, o: Option<StateObject>, obj: StateObject)
    requires o.Some? ==> o.value.address == obj.address
    ensures Put(if o.Some? then Put(s, o.value) else s, obj) == Put(s, obj)
  {
  }

  function BalanceOf(s: State, a: Address): int {
    if Live(s, a).Some? then Live(s, a).value.data.balance else 0
  }

  function NonceOf(s: State, a: Address): nat {
    if Live(s, a).Some? then Live(s, a).value.data.nonce else 0
  }

  function WithBalance(obj: StateObject, balance: int): StateObject {
    obj.(data := obj.data.(balance := balance))
  }

  /** An object once a slot has been read. */
  function WithCached(obj: StateObject, key: Hash): StateObject {
    if key in obj.dirty || key in obj.origin then obj
    else obj.(origin := obj.origin[key := At(obj.data.storage, key)])
  }

  lemma CachedLooks(cs: CodeStore, obj: StateObject, key: Hash)
    requires Coherent(obj)
    ensures LooksAs(cs, WithCached(obj, key), obj) && Coherent(WithCached(obj, key))
    ensures obj.origin.Keys <= WithCached(obj, key).origin.Keys
    ensures key in WithCached(obj, key).origin
  {
  }

  lemma SameDirties(cs: CodeStore, s: State, es: seq<Entry>, dirties: map<Address, nat>, past: seq<State>, dirties': map<Address, nat>)
    requires Consistent(cs, s, es, dirties, past) && dirties'.Keys <= dirties.Keys
    ensures Consistent(cs, s, es, dirties', past)
  {
  }

  function LogsOf(logs: map<Hash, seq<Log>>, h: Hash): seq<Log> {
    if h in logs then logs[h] else []
  }

  /** Dropping the log just added; no empty list is ever stored. */
  lemma LogUndone(logs: map<Hash, seq<Log>>, h: Hash, log: Log)
    requires h in logs ==> |logs[h]| > 0
    ensures DropLog(logs[h := LogsOf(logs, h) + [log]], h) == logs
  {
    var after := logs[h := LogsOf(logs, h) + [log]];
    if h in logs {
      assert after[h][..|after[h]| - 1] == logs[h];
    }
  }

  lemma NoteConsistent(cs: CodeStore, s: State, es: seq<Entry>, dirties: map<Address, nat>, past: seq<State>,
                       e: Entry, s': State, dirties': map<Address, nat>)
    requires Consistent(cs, s, es, dirties, past) && Undoes(cs, e, s, s')
    requires s'.objects == s.objects && dirties'.Keys == dirties.Keys
    ensures Consistent(cs, s', es + [e], dirties', past + [s'])
  {
    StepConsistent(cs, s, es, dirties, past, e, s', dirties');
  }

  lemma LastIsNow(cs: CodeStore, s: State, es: seq<Entry>, dirties: map<Address, nat>, past: seq<State>)
    requires Consistent(cs, s, es, dirties, past)
    ensures |past| == |es| + 1 && SameView(cs, s, past[|es|]) && SameView(cs, past[|es|], s)
  {
  }

  lemma ViewTransitive(cs: CodeStore, s: State, t: State, u: State)
    requires SameView(cs, s, t) && SameView(cs, t, u)
    ensures SameView(cs, s, u)
  {
    forall a
      ensures SameLook(cs, Live(s, a), Live(u, a))
    {
      assert SameLook(cs, Live(s, a), Live(t, a)) && SameLook(cs, Live(t, a), Live(u, a));
    }
  }

  /** Where the code database keeps codes under their hashes, and an object with its code at
      hand has the right one, the code an account shows is the one its hash is of; and it shows
      none only if the hash is that of no code or the database lacks it. */
  lemma CodeMatchesHash(cs: CodeStore, o: StateObject)
    requires forall h :: h in cs.codes ==> cs.keccak(cs.codes[h]) == h
    requires o.code.Some? ==> cs.keccak(o.code.value) == o.data.codeHash
    ensures cs.CodeOf(o).Some? ==> cs.keccak(cs.CodeOf(o).value) == o.data.codeHash
    ensures cs.CodeOf(o).None? ==> o.data.codeHash == cs.keccak([]) || o.data.codeHash !in cs.codes
  {
  }

  /** How a new account reads. */
  lemma NewReads(cs: CodeStore, s: State, a: Address, balance: int)
    ensures var o := NewObject(a, cs.EmptyAccount().(balance := balance));
            && Live(Put(s, o), a) == Some(o) && o.data.nonce == 0 && o.data.codeHash == cs.keccak([]) && o.data.balance == balance
            && !o.suicided && forall k :: Slot(o, k) == 0 && Committed(o, k) == 0
  {
  }

  /** What the getters answer in states that look alike. */
  lemma ViewMeans(cs: CodeStore, s: State, t: State)
    requires SameView(cs, s, t)
    ensures s.refund == t.refund && s.logs == t.logs && s.preimages == t.preimages
    ensures forall a :: BalanceOf(s, a) == BalanceOf(t, a) && NonceOf(s, a) == NonceOf(t, a)
    ensures forall a :: Live(s, a).Some? <==> Live(t, a).Some?
    ensures forall a :: Live(s, a).Some? ==>
      var x, y := Live(s, a).value, Live(t, a).value;
      && x.suicided == y.suicided && x.data.codeHash == y.data.codeHash && cs.CodeOf(x) == cs.CodeOf(y)
      && forall k :: Slot(x, k) == Slot(y, k) && Committed(x, k) == Committed(y, k)
  {
    forall a
      ensures SameLook(cs, Live(s, a), Live(t, a))
    {
    }
  }

  lemma SnapshotKeeps(cs: CodeStore, rs: seq<Revision>, nextId: nat, past: seq<State>, saved: map<nat, State>, s: State)
    requires Retrievable(cs, rs, nextId, past, saved) && SameView(cs, past[|past| - 1], s)
    ensures Retrievable(cs, rs + [Revision(nextId, |past| - 1)], nextId + 1, past, saved[nextId := s])
  {
    hide SameView;
  }

  lemma ShorterPast(cs: CodeStore, rs: seq<Revision>, nextId: nat, past: seq<State>, saved: map<nat, State>, idx: nat)
    requires Retrievable(cs, rs, nextId, past, saved) && idx < |rs|
    ensures rs[idx].journalIndex < |past|
    ensures Retrievable(cs, rs[..idx], nextId, past[..rs[idx].journalIndex + 1], saved)
  {
    hide SameView;
  }

  /** Undoing the last entry. */
  lemma UndoConsistent(cs: CodeStore, s: State, es: seq<Entry>, dirties: map<Address, nat>, past: seq<State>)
    requires Consistent(cs, s, es, dirties, past) && |es| > 0
    ensures var n := |es| - 1;
            && |past| == n + 2 && Sound(s) && Applicable(es[n], s) && EntryOk(es[n], s.trie)
            && Consistent(cs, Reverted(es[n], s), es[..n], dirties, past[..n + 1])
  {
    hide History, Like;
    LastIsNow(cs, s, es, dirties, past);
    UndoLast(cs, es, past, s);
    RevertedLive(es[|es| - 1], s);
  }

  lemma RevertedLive(e: Entry, s: State)
    requires Sound(s) && EntryOk(e, s.trie)
    ensures forall a :: a in Reverted(e, s).objects && Reverted(e, s).objects[a].deleted ==> a in s.objects && s.objects[a].deleted
  {
  }

  lemma SlotUndone(cs: CodeStore, obj: StateObject, key: Hash, value: Hash)
    requires Coherent(obj)
    ensures var loaded := WithCached(obj, key);
            var changed := loaded.(dirty := loaded.dirty[key := value]);
            && Coherent(changed) && key in changed.origin
            && SameLook(cs, Some(changed.(dirty := changed.dirty[key := Slot(obj, key)])), Some(loaded))
  {
    CachedLooks(cs, obj, key);
    var loaded := WithCached(obj, key);
    var changed := loaded.(dirty := loaded.dirty[key := value]);
    var undone := changed.(dirty := changed.dirty[key := Slot(obj, key)]);
    assert cs.CodeOf(undone) == cs.CodeOf(loaded);
    forall k
      ensures Slot(undone, k) == Slot(loaded, k) && Committed(undone, k) == Committed(loaded, k)
    {
      if k == key {
        assert Slot(loaded, key) == Slot(obj, key);
      }
    }
  }

  // ----- replaced accounts -----

  /** A new account with a balance. */
  function Blank(cs: CodeStore, a: Address, balance: int): StateObject {
    NewObject(a, cs.EmptyAccount().(balance := balance))
  }

  /** All a replaced account has left is its balance. */
  ghost predicate ResetsBlank(cs: CodeStore, es: seq<Entry>, past: seq<State>) {
    |past| == |es| + 1 && forall i :: 0 <= i < |es| && es[i].ResetObjectChange? ==> IsReset(cs, es[i].prevObject, past[i + 1])
  }

  ghost predicate IsReset(cs: CodeStore, prev: StateObject, s: State) {
    SameLook(cs, Live(s, prev.address), Some(Blank(cs, prev.address, prev.data.balance)))
  }

  lemma NoResetBlank(cs: CodeStore, es: seq<Entry>, past: seq<State>, e: Entry, s: State)
    requires ResetsBlank(cs, es, past) && !e.ResetObjectChange?
    ensures ResetsBlank(cs, es + [e], past + [s])
  {
    hide IsReset;
  }

  lemma NextResetBlank(cs: CodeStore, es: seq<Entry>, past: seq<State>, prev: StateObject, s: State)
    requires ResetsBlank(cs, es, past) && Live(s, prev.address) == Some(Blank(cs, prev.address, prev.data.balance))
    ensures ResetsBlank(cs, es + [ResetObjectChange(prev)], past + [s])
  {
    LooksRefl(cs, Live(s, prev.address));
    assert IsReset(cs, prev, s);
    hide IsReset;
  }

  // ----- the trie at the end of a transaction -----

  /** How an account ends a transaction in which it was dirty. */
  ghost predicate Finalised(cs: CodeStore, deleteEmpty: bool, was: StateObject, now: Option<StateObject>, stored: Option<Account>) {
    if was.suicided || (deleteEmpty && cs.IsEmpty(was.data)) then now.None? && stored.None?
    else
      && now.Some? && stored == Some(now.value.data)
      && (forall k :: At(now.value.data.storage, k) == Slot(was, k))
      && now.value.data.(storage := was.data.storage) == was.data
      && cs.CodeOf(now.value) == cs.CodeOf(was) && !now.value.suicided
      && forall k :: Slot(now.value, k) == Slot(was, k) && Committed(now.value, k) == Slot(was, k)
  }

  /** The trie has the account as the getters show it. */
  ghost predicate InStep(s: State, a: Address) {
    match Live(s, a)
    case None => a !in s.trie
    case Some(o) =>
      && a in s.trie && s.trie[a].(storage := map[]) == o.data.(storage := map[])
      && forall k :: At(s.trie[a].storage, k) == Slot(o, k)
  }

  predicate Untouched(es: seq<Entry>, a: Address) {
    forall i :: 0 <= i < |es| ==> Subject(es[i]) != Some(a)
  }

  lemma LooksRefl(cs: CodeStore, x: Option<StateObject>)
    ensures SameLook(cs, x, x)
  {
  }

  lemma LooksTransitive(cs: CodeStore, x: Option<StateObject>, y: Option<StateObject>, z: Option<StateObject>)
    requires SameLook(cs, x, y) && SameLook(cs, y, z)
    ensures SameLook(cs, x, z)
  {
  }

  lemma UntouchedStep(cs: CodeStore, e: Entry, before: State, after: State, a: Address)
    requires Undoes(cs, e, before, after) && Subject(e) != Some(a)
    ensures SameLook(cs, Live(after, a), Live(before, a)) && after.trie == before.trie
  {
    LiveReverted(e, after, a);
    RevertedSound(e, after);
    assert SameLook(cs, Live(Reverted(e, after), a), Live(before, a));
  }

  /** Nothing is left of the object but a balance. */
  ghost predicate LooksBlank(cs: CodeStore, o: StateObject) {
    o.data.nonce == 0 && o.data.codeHash == cs.EmptyHash() && forall k :: Slot(o, k) == 0
  }

  /** Whatever was replaced at the address had nothing but a balance to lose. */
  ghost predicate OnlyBlankReplaced(cs: CodeStore, es: seq<Entry>, a: Address) {
    forall i :: 0 <= i < |es| && es[i].ResetObjectChange? && es[i].prevObject.address == a ==> LooksBlank(cs, es[i].prevObject)
  }

  lemma NothingReplaced(cs: CodeStore, es: seq<Entry>)
    ensures (forall e :: e in es ==> !e.ResetObjectChange?) ==> forall a :: OnlyBlankReplaced(cs, es, a)
  {
    assert forall i :: 0 <= i < |es| ==> es[i] in es;
  }

  predicate NoneDirties(es: seq<Entry>, a: Address) {
    forall i :: 0 <= i < |es| ==> Dirtied(es[i]) != Some(a)
  }

  lemma {:induction false} NothingCounted(es: seq<Entry>, a: Address)
    requires DirtyCount(es, a) == 0
    ensures NoneDirties(es, a)
  {
    if |es| > 0 {
      NothingCounted(es[..|es| - 1], a);
    }
  }

  lemma NotDirtied(dirties: map<Address, nat>, es: seq<Entry>, extra: nat, a: Address)
    requires Counts(dirties, es, extra) && a !in dirties
    ensures NoneDirties(es, a)
  {
    NothingCounted(es, a);
  }

  /** How an account looks that was only replaced, if at all. */
  ghost predicate SinceThen(cs: CodeStore, a: Address, was: Option<StateObject>, now: Option<StateObject>, untouched: bool) {
    if untouched then SameLook(cs, now, was)
    else was.Some? && SameLook(cs, now, Some(Blank(cs, a, was.value.data.balance)))
  }

  ghost predicate WasBlank(cs: CodeStore, was: Option<StateObject>) {
    was.Some? && LooksBlank(cs, was.value)
  }

  /** What replacing alone makes of an account: it looks as it did, or blank but for its
      balance. */
  lemma {:induction false} ReplacedLooks(cs: CodeStore, es: seq<Entry>, past: seq<State>, a: Address)
    requires History(cs, es, past) && ResetsBlank(cs, es, past) && NoneDirties(es, a)
    ensures past[|es|].trie == past[0].trie
    ensures SinceThen(cs, a, Live(past[0], a), Live(past[|es|], a), Untouched(es, a))
    ensures OnlyBlankReplaced(cs, es, a) <==> Untouched(es, a) || WasBlank(cs, Live(past[0], a))
  {
    hide Undoes, LooksAs, LooksBlank, IsReset, SinceThen, WasBlank, Untouched, OnlyBlankReplaced;
    if |es| == 0 {
      NothingSince(cs, a, Live(past[0], a));
    } else {
      var n := |es| - 1;
      ReplacedLooks(cs, es[..n], past[..n + 1], a);
      assert es == es[..n] + [es[n]];
      assert Dirtied(es[n]) != Some(a);
      NextEntry(cs, es[..n], es[n], a);
      if Subject(es[n]) != Some(a) {
        UntouchedStep(cs, es[n], past[n], past[n + 1], a);
        SameSince(cs, a, Live(past[0], a), Live(past[n], a), Live(past[n + 1], a), Untouched(es[..n], a));
      } else {
        ResetMeans(cs, es[n].prevObject, past[n + 1]);
        ResetStep(cs, es[n], past[n], past[n + 1]);
        ReplacedSince(cs, a, es[n].prevObject, Live(past[0], a), Live(past[n], a), Live(past[n + 1], a), Untouched(es[..n], a));
      }
    }
  }

  lemma NothingSince(cs: CodeStore, a: Address, was: Option<StateObject>)
    ensures SinceThen(cs, a, was, was, true) && Untouched([], a) && OnlyBlankReplaced(cs, [], a)
  {
  }

  lemma NextEntry(cs: CodeStore, es: seq<Entry>, e: Entry, a: Address)
    ensures Untouched(es + [e], a) <==> Untouched(es, a) && Subject(e) != Some(a)
    ensures OnlyBlankReplaced(cs, es + [e], a) <==>
      OnlyBlankReplaced(cs, es, a) && (e.ResetObjectChange? && e.prevObject.address == a ==> LooksBlank(cs, e.prevObject))
  {
    hide LooksBlank;
    var more := es + [e];
    assert more[|es|] == e && forall i :: 0 <= i < |es| ==> more[i] == es[i];
  }

  lemma SameSince(cs: CodeStore, a: Address, was: Option<StateObject>, mid: Option<StateObject>, now: Option<StateObject>, untouched: bool)
    requires SinceThen(cs, a, was, mid, untouched) && SameLook(cs, now, mid)
    ensures SinceThen(cs, a, was, now, untouched)
  {
    hide LooksAs, Blank;
    LooksTransitive(cs, now, mid, if untouched then was else Some(Blank(cs, a, was.value.data.balance)));
  }

  lemma ResetMeans(cs: CodeStore, prev: StateObject, s: State)
    requires IsReset(cs, prev, s)
    ensures SameLook(cs, Live(s, prev.address), Some(Blank(cs, prev.address, prev.data.balance)))
  {
  }

  lemma ResetStep(cs: CodeStore, e: Entry, before: State, after: State)
    requires Undoes(cs, e, before, after) && e.ResetObjectChange?
    ensures after.trie == before.trie && SameLook(cs, Some(e.prevObject), Live(before, e.prevObject.address))
  {
    LiveReverted(e, after, e.prevObject.address);
    RevertedSound(e, after);
    assert SameLook(cs, Live(Reverted(e, after), e.prevObject.address), Live(before, e.prevObject.address));
  }

  lemma ReplacedSince(cs: CodeStore, a: Address, prev: StateObject, was: Option<StateObject>, mid: Option<StateObject>,
                      now: Option<StateObject>, untouched: bool)
    requires SinceThen(cs, a, was, mid, untouched) && SameLook(cs, Some(prev), mid)
    requires SameLook(cs, now, Some(Blank(cs, a, prev.data.balance)))
    ensures SinceThen(cs, a, was, now, false)
    ensures LooksBlank(cs, prev) <==> !untouched || WasBlank(cs, was)
  {
    assert LooksBlank(cs, Blank(cs, a, prev.data.balance));
    LooksTransitive(cs, Some(prev), mid, if untouched then was else Some(Blank(cs, a, was.value.data.balance)));
    SameBlank(cs, prev, if untouched then was.value else Blank(cs, a, was.value.data.balance));
  }

  lemma SameBlank(cs: CodeStore, x: StateObject, y: StateObject)
    requires LooksAs(cs, x, y)
    ensures LooksBlank(cs, x) <==> LooksBlank(cs, y)
  {
    assert forall k :: Slot(x, k) == Slot(y, k);
  }

  /** An account no entry dirties is in step with the trie exactly if whatever was replaced
      there looked blank. */
  lemma ReplacedInStep(cs: CodeStore, s: State, es: seq<Entry>, dirties: map<Address, nat>, past: seq<State>, a: Address)
    requires Consistent(cs, s, es, dirties, past) && ResetsBlank(cs, es, past) && NoneDirties(es, a) && InStep(past[0], a)
    ensures InStep(s, a) <==> OnlyBlankReplaced(cs, es, a)
  {
    hide LooksAs, SinceThen, OnlyBlankReplaced, Untouched, WasBlank, InStep, NoneDirties, IsReset;
    ReplacedLooks(cs, es, past, a);
    assert SameLook(cs, Live(s, a), Live(past[|es|], a));
    SameSince(cs, a, Live(past[0], a), Live(past[|es|], a), Live(s, a), Untouched(es, a));
    StepSince(cs, past[0], s, a, Untouched(es, a));
  }

  lemma StepSince(cs: CodeStore, was: State, now: State, a: Address, untouched: bool)
    requires SinceThen(cs, a, Live(was, a), Live(now, a), untouched) && InStep(was, a) && was.trie == now.trie
    ensures InStep(now, a) <==> untouched || WasBlank(cs, Live(was, a))
  {
    if Live(was, a).Some? {
      var o, o' := Live(was, a).value, Live(now, a).value;
      if untouched {
        assert forall k :: Slot(o', k) == Slot(o, k);
      } else {
        BlankStep(cs, was, now, a);
      }
    }
  }

  lemma BlankStep(cs: CodeStore, was: State, now: State, a: Address)
    requires InStep(was, a) && was.trie == now.trie && Live(was, a).Some?
    requires SameLook(cs, Live(now, a), Some(Blank(cs, a, Live(was, a).value.data.balance)))
    ensures InStep(now, a) <==> LooksBlank(cs, Live(was, a).value)
  {
    var o, o' := Live(was, a).value, Live(now, a).value;
    var blank := Blank(cs, a, o.data.balance);
    assert forall k :: Slot(blank, k) == 0;
    assert forall k :: Slot(o', k) == Slot(blank, k);
  }

  lemma FinalisedInStep(cs: CodeStore, deleteEmpty: bool, was: StateObject, s: State, a: Address)
    requires Finalised(cs, deleteEmpty, was, Live(s, a), Lookup(s.trie, a))
    ensures InStep(s, a)
  {
    if Live(s, a).Some? {
      var o := Live(s, a).value;
      forall k
        ensures At(s.trie[a].storage, k) == Slot(o, k)
      {
        assert Slot(o, k) == Slot(was, k) && Committed(o, k) == Slot(was, k);
      }
    }
  }

  /** Dirty live accounts are finalised; no other object or trie entry changes. */
  ghost predicate FinalisedAll(cs: CodeStore, deleteEmpty: bool, s: State, t: State, dirty: set<Address>) {
    && (forall a :: a in dirty && a in s.objects ==> Finalised(cs, deleteEmpty, s.objects[a], Live(t, a), Lookup(t.trie, a)))
    && (forall a :: a !in dirty || a !in s.objects ==>
         Lookup(t.objects, a) == Lookup(s.objects, a) && Lookup(t.trie, a) == Lookup(s.trie, a))
  }

  /** Who survives the end of a transaction, and what of each account does. */
  lemma FinalisedMeans(cs: CodeStore, deleteEmpty: bool, s: State, t: State, dirty: set<Address>)
    requires FinalisedAll(cs, deleteEmpty, s, t, dirty)
    ensures forall a :: a in dirty && a in s.objects ==>
      var was := s.objects[a];
      && (Live(t, a).Some? <==> (
            && !was.suicided
            && (!deleteEmpty || was.data.nonce > 0 || was.data.balance != 0 || was.data.codeHash != cs.keccak([]))))
      && (Live(t, a).Some? ==>
            var now := Live(t, a).value;
            && now.data.nonce == was.data.nonce && now.data.balance == was.data.balance
            && now.data.codeHash == was.data.codeHash && cs.CodeOf(now) == cs.CodeOf(was)
            && forall k :: Slot(now, k) == Slot(was, k))
    ensures forall a :: a !in dirty || a !in s.objects ==> Live(t, a) == Live(s, a)
    ensures forall a :: Live(t.(refund := 0), a) == Live(t, a)
  {
    forall a | a in dirty && a in s.objects
      ensures Finalised(cs, deleteEmpty, s.objects[a], Live(t, a), Lookup(t.trie, a))
    {
    }
    forall a | a !in dirty || a !in s.objects
      ensures Live(t, a) == Live(s, a)
    {
      assert Lookup(t.objects, a) == Lookup(s.objects, a) && Lookup(t.trie, a) == Lookup(s.trie, a);
    }
  }

  lemma RefundAside(cs: CodeStore, deleteEmpty: bool, s: State, t: State, dirty: set<Address>)
    requires FinalisedAll(cs, deleteEmpty, s, t, dirty)
    ensures FinalisedAll(cs, deleteEmpty, s, t.(refund := 0), dirty)
  {
    assert forall a :: Live(t.(refund := 0), a) == Live(t, a);
  }

  lemma FinalisedStateInStep(cs: CodeStore, deleteEmpty: bool, s: State, t: State, dirty: set<Address>, a: Address)
    requires FinalisedAll(cs, deleteEmpty, s, t, dirty)
    ensures InStep(t.(refund := 0), a) <==> a in dirty || InStep(s, a)
  {
    hide Finalised, InStep;
    if a in dirty && a in s.objects {
      FinalisedInStep(cs, deleteEmpty, s.objects[a], t, a);
    } else if a in dirty {
      UnloadedInStep(t, a);
    } else {
      SameInStep(s, t, a);
    }
    SameInStep(t, t.(refund := 0), a);
  }

  lemma UnloadedInStep(s: State, a: Address)
    requires a !in s.objects
    ensures InStep(s, a)
  {
  }

  lemma SameInStep(s: State, t: State, a: Address)
    requires Lookup(s.objects, a) == Lookup(t.objects, a) && Lookup(s.trie, a) == Lookup(t.trie, a)
    ensures InStep(s, a) == InStep(t, a)
  {
  }

  lemma ConsistentFacts(cs: CodeStore, s: State, es: seq<Entry>, dirties: map<Address, nat>, past: seq<State>)
    requires Consistent(cs, s, es, dirties, past)
    ensures Sound(s) && DirtyIsLive(dirties, s.objects)
  {
  }

  lemma FreshConsistent(cs: CodeStore, s: State)
    requires Sound(s)
    ensures var t := s.(refund := 0); Consistent(cs, t, [], map[], [t])
  {
    LikeRefl(cs, s.(refund := 0));
  }

  lemma NothingSaved(cs: CodeStore, nextId: nat, past: seq<State>, saved: map<nat, State>)
    requires |past| > 0
    ensures Retrievable(cs, [], nextId, past, saved)
  {
  }

  lemma SoundDeleted(s: State, a: Address, obj: StateObject)
    requires Sound(s) && a in s.objects && obj == s.objects[a].(deleted := true)
    ensures Sound(s.(objects := s.objects[a := obj], trie := s.trie - {a}))
  {
  }

  lemma SoundUpdated(s: State, a: Address, obj: StateObject)
    requires Sound(s) && obj.address == a && Coherent(obj) && !obj.deleted
    ensures Sound(s.(objects := s.objects[a := obj], trie := s.trie[a := obj.data]))
  {
  }

  lemma UpdatedFinalised(cs: CodeStore, deleteEmpty: bool, obj: StateObject, updated: StateObject)
    requires !obj.suicided && !(deleteEmpty && cs.IsEmpty(obj.data)) && Coherent(updated) && updated.dirty == map[]
    requires updated == obj.(data := obj.data.(storage := updated.data.storage), origin := updated.origin, dirty := map[])
    requires forall k :: At(updated.data.storage, k) == Slot(obj, k)
    ensures Finalised(cs, deleteEmpty, obj, Some(updated), Some(updated.data))
  {
  }

  /** Where the trie falls behind: an account with a nonce is replaced, which dirties
      nothing, and the trie still has the nonce after the end of the transaction. */
  method RecreationIsLost(cs: CodeStore) returns (db: StateDB)
    ensures fresh(db) && db.Valid() && 1 in db.trie && db.trie[1].nonce == 5
    ensures Live(db.Now(), 1).Some? && Live(db.Now(), 1).value.data.nonce == 0 && !InStep(db.Now(), 1)
  {
    hide StateDB.Valid, LooksBlank, FinalisedAll;
    ghost var account := Account(5, 0, map[], cs.EmptyHash());
    db := new StateDB(cs, map[1 := Account(5, 0, map[], cs.EmptyHash())]);
    assert InStep(db.base, 1);
    ghost var prev := NewObject(1, account);
    assert Live(db.Now(), 1) == Some(prev);
    db.CreateAccount(1);
    assert db.journal.entries == [ResetObjectChange(prev)];
    ReplacingDirtiesNothing(db, prev);
    ghost var recreated := db.Now();
    assert !OnlyBlankReplaced(cs, db.journal.entries, 1) by {
      assert !LooksBlank(cs, prev) by { HasNonce(cs, prev); }
      assert db.journal.entries[0].prevObject == prev;
    }
    ghost var dirty := db.journal.dirties.Keys;
    db.Finalise(false);
    NotDirtySame(cs, recreated, db.Now(), dirty, 1);
  }

  lemma HasNonce(cs: CodeStore, o: StateObject)
    requires o.data.nonce != 0
    ensures !LooksBlank(cs, o)
  {
  }

  lemma ReplacingDirtiesNothing(db: StateDB, prev: StateObject)
    requires db.Valid() && db.journal.entries == [ResetObjectChange(prev)]
    ensures forall a :: a in db.journal.dirties ==> a == RIPEMD
  {
    forall a | a != RIPEMD
      ensures a !in db.journal.dirties
    {
      assert DirtyCount(db.journal.entries[..0], a) == 0;
      assert DirtyCount(db.journal.entries, a) == 0;
    }
  }

  lemma NotDirtySame(cs: CodeStore, s: State, t: State, dirty: set<Address>, a: Address)
    requires FinalisedAll(cs, false, s, t, dirty) && a !in dirty
    ensures Live(t, a) == Live(s, a) && Lookup(t.trie, a) == Lookup(s.trie, a)
  {
  }
}
