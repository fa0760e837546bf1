/** What a state database holds, how it looks through its getters, and how a journal entry
    is undone: the caches may differ after a revert, the looks may not. */
module StateRevert {
  import opened Wrappers
  import opened StateObjects
  import opened Journals

  datatype Log = Log(body: nat, txHash: Hash, blockHash: Hash, txIndex: nat, index: nat)

  datatype State = State(
    trie: map<Address, Account>,
    objects: map<Address, StateObject>,
    refund: nat,
    logs: map<Hash, seq<Log>>,
    logSize: nat,
    preimages: map<Hash, Code>)

  /** The object of an address, live or as the trie has it. */
  function Live(s: State, a: Address): Option<StateObject> {
    if a in s.objects then (if s.objects[a].deleted then None else Some(s.objects[a]))
    else if a in s.trie then Some(NewObject(a, s.trie[a]))
    else None
  }

  function Put(s: State, obj: StateObject): State {
    s.(objects := s.objects[obj.address := obj])
  }

  /** Objects sit under their address with truthful caches, and what is deleted is gone
      from the trie. */
  ghost predicate Sound(s: State) {
    && (forall a :: a in s.objects ==> s.objects[a].address == a && Coherent(s.objects[a]))
    && (forall a :: a in s.objects && s.objects[a].deleted ==> a !in s.trie)
    && (forall a :: a in s.trie ==> NoZeroes(s.trie[a].storage))
    && (forall h :: h in s.logs ==> |s.logs[h]| > 0)
  }

  // ----- looks -----

  ghost predicate SameLook(cs: CodeStore, x: Option<StateObject>, y: Option<StateObject>) {
    x.Some? == y.Some? && (x.Some? ==> LooksAs(cs, x.value, y.value))
  }

  function Cached(x: Option<StateObject>): set<Hash> {
    if x.Some? then x.value.origin.Keys else {}
  }

  /** No getter tells the two states apart. */
  ghost predicate SameView(cs: CodeStore, s: State, t: State) {
    && s.trie == t.trie && s.refund == t.refund && s.logs == t.logs && s.logSize == t.logSize && s.preimages == t.preimages
    && forall a :: SameLook(cs, Live(s, a), Live(t, a))
  }

  /** s looks like t and has cached at least as much. */
  ghost predicate Like(cs: CodeStore, s: State, t: State) {
    SameView(cs, s, t) && forall a :: Cached(Live(t, a)) <= Cached(Live(s, a))
  }

  lemma LikeTransitive(cs: CodeStore, s: State, t: State, u: State)
    requires Like(cs, s, t) && Like(cs, t, u)
    ensures Like(cs, s, u)
  {
    forall a
      ensures SameLook(cs, Live(s, a), Live(u, a)) && Cached(Live(u, a)) <= Cached(Live(s, a))
    {
      assert SameLook(cs, Live(s, a), Live(t, a)) && SameLook(cs, Live(t, a), Live(u, a));
      assert Cached(Live(u, a)) <= Cached(Live(t, a));
    }
  }

  // ----- undoing one entry -----

  /** What undoing an entry makes of the account it is about. */
  function Amended(e: Entry, o: Option<StateObject>): Option<StateObject> {
    match e
    case CreateObjectChange(_) => None
    case ResetObjectChange(prev) => Some(prev)
    case SuicideChange(_, was, balance) =>
      if o.None? then None else Some(o.value.(suicided := was, data := o.value.data.(balance := balance)))
    case BalanceChange(_, balance) => if o.None? then None else Some(o.value.(data := o.value.data.(balance := balance)))
    case NonceChange(_, nonce) => if o.None? then None else Some(o.value.(data := o.value.data.(nonce := nonce)))
    case StorageChange(_, key, value) => if o.None? then None else Some(o.value.(dirty := o.value.dirty[key := value]))
    case CodeChange(_, code, hash) =>
      if o.None? then None else Some(o.value.(code := code, data := o.value.data.(codeHash := hash)))
    case _ => o
  }

  function Subject(e: Entry): Option<Address> {
    if e.ResetObjectChange? then Some(e.prevObject.address) else Dirtied(e)
  }

  function DropLog(logs: map<Hash, seq<Log>>, h: Hash): map<Hash, seq<Log>> {
    if h !in logs || |logs[h]| <= 1 then logs - {h} else logs[h := logs[h][..|logs[h]| - 1]]
  }

  /** The revert of each change type. */
  function Reverted(e: Entry, s: State): State {
    match e
    case CreateObjectChange(a) => s.(objects := s.objects - {a})
    case ResetObjectChange(prev) => Put(s, prev)
    case RefundChange(prev) => s.(refund := prev)
    case AddLogChange(h) => s.(logs := DropLog(s.logs, h), logSize := if s.logSize > 0 then s.logSize - 1 else 0)
    case AddPreimageChange(h) => s.(preimages := s.preimages - {h})
    case TouchChange(_) => s
    case _ =>
      var o := Amended(e, Live(s, e.account));
      if o.None? then s else Put(s, o.value)
  }

  /** What an entry relies on to be undone: without it the revert would fault. */
  predicate Applicable(e: Entry, s: State) {
    match e
    case SuicideChange(a, _, _) => Live(s, a).Some?
    case BalanceChange(a, _) => Live(s, a).Some?
    case NonceChange(a, _) => Live(s, a).Some?
    case CodeChange(a, _, _) => Live(s, a).Some?
    case StorageChange(a, k, _) => Live(s, a).Some? && k in Live(s, a).value.origin
    case AddLogChange(h) => h in s.logs && |s.logs[h]| > 0 && s.logSize > 0
    case _ => true
  }

  /** A created account was not in the trie, a replaced one was live. */
  ghost predicate EntryOk(e: Entry, trie: map<Address, Account>) {
    && (e.CreateObjectChange? ==> e.account !in trie)
    && (e.ResetObjectChange? ==> Coherent(e.prevObject) && !e.prevObject.deleted)
  }

  lemma LiveReverted(e: Entry, s: State, b: Address)
    requires Sound(s) && EntryOk(e, s.trie)
    ensures Live(Reverted(e, s), b) == if Subject(e) == Some(b) then Amended(e, Live(s, b)) else Live(s, b)
  {
  }

  lemma LivePut(s: State, obj: StateObject, b: Address)
    requires !obj.deleted
    ensures Live(Put(s, obj), b) == if b == obj.address then Some(obj) else Live(s, b)
  {
  }

  lemma SoundPut(s: State, obj: StateObject)
    requires Sound(s) && Coherent(obj) && !obj.deleted
    ensures Sound(Put(s, obj))
  {
  }

  lemma LiveIsCoherent(s: State, a: Address)
    requires Sound(s)
    ensures Live(s, a).Some? ==> Coherent(Live(s, a).value) && !Live(s, a).value.deleted && Live(s, a).value.address == a
    ensures Live(s, a).None? ==> a !in s.trie
  {
  }

  lemma AmendedOk(e: Entry, s: State)
    requires Sound(s) && EntryOk(e, s.trie) && Applicable(e, s) && Subject(e).Some?
    ensures var r := Amended(e, Live(s, Subject(e).value));
            r.Some? ==> Coherent(r.value) && !r.value.deleted && r.value.address == Subject(e).value
  {
    LiveIsCoherent(s, Subject(e).value);
  }

  lemma RevertedSound(e: Entry, s: State)
    requires Sound(s) && EntryOk(e, s.trie) && Applicable(e, s)
    ensures Sound(Reverted(e, s)) && Reverted(e, s).trie == s.trie
  {
    hide Coherent, NoZeroes;
    if Subject(e).Some? {
      AmendedOk(e, s);
      var r := Amended(e, Live(s, Subject(e).value));
      if r.Some? {
        SoundPut(s, r.value);
        assert e.TouchChange? || Reverted(e, s) == Put(s, r.value);
      }
    }
  }

  lemma AmendedLooks(cs: CodeStore, e: Entry, x: Option<StateObject>, y: Option<StateObject>)
    requires SameLook(cs, x, y) && Cached(y) <= Cached(x)
    ensures SameLook(cs, Amended(e, x), Amended(e, y)) && Cached(Amended(e, y)) <= Cached(Amended(e, x))
  {
    var x', y' := Amended(e, x), Amended(e, y);
    if x.Some? && x'.Some? && !e.ResetObjectChange? {
      forall k
        ensures Slot(x'.value, k) == Slot(y'.value, k) && Committed(x'.value, k) == Committed(y'.value, k)
      {
        assert Slot(x.value, k) == Slot(y.value, k) && Committed(x.value, k) == Committed(y.value, k);
      }
    }
  }

  /** Undoing an entry is blind to the caches. */
  lemma RevertLike(cs: CodeStore, e: Entry, s: State, t: State)
    requires Like(cs, s, t) && Sound(s) && Sound(t) && EntryOk(e, t.trie) && Applicable(e, t)
    ensures Applicable(e, s) && Like(cs, Reverted(e, s), Reverted(e, t))
  {
    forall a
      ensures SameLook(cs, Live(s, a), Live(t, a)) && Cached(Live(t, a)) <= Cached(Live(s, a))
    {
    }
    forall b
      ensures SameLook(cs, Live(Reverted(e, s), b), Live(Reverted(e, t), b))
      ensures Cached(Live(Reverted(e, t), b)) <= Cached(Live(Reverted(e, s), b))
    {
      LiveReverted(e, s, b);
      LiveReverted(e, t, b);
      AmendedLooks(cs, e, Live(s, b), Live(t, b));
    }
  }

  // ----- the journal as a history -----

  /** Undoing e takes `after` back to something that looks like `before`. */
  ghost predicate Undoes(cs: CodeStore, e: Entry, before: State, after: State) {
    && Sound(after) && EntryOk(e, after.trie) && Applicable(e, after)
    && Like(cs, Reverted(e, after), before)
  }

  /** past[i] is the state before entry i, the last of them the present one. */
  ghost predicate History(cs: CodeStore, es: seq<Entry>, past: seq<State>) {
    && |past| == |es| + 1 && Sound(past[0])
    && forall i :: 0 <= i < |es| ==> Undoes(cs, es[i], past[i], past[i + 1])
  }

  lemma HistorySnoc(cs: CodeStore, es: seq<Entry>, past: seq<State>, e: Entry, before: State, after: State)
    requires History(cs, es, past) && Like(cs, before, past[|es|]) && Undoes(cs, e, before, after)
    ensures History(cs, es + [e], past + [after])
  {
    LikeTransitive(cs, Reverted(e, after), before, past[|es|]);
  }

  /** Undoing the last entry of a present that looks like the recorded one. */
  lemma UndoLast(cs: CodeStore, es: seq<Entry>, past: seq<State>, s: State)
    requires History(cs, es, past) && |es| > 0 && Sound(s) && Like(cs, s, past[|es|])
    ensures var n := |es| - 1;
            && Applicable(es[n], s) && EntryOk(es[n], s.trie) && Sound(Reverted(es[n], s))
            && History(cs, es[..n], past[..n + 1]) && Like(cs, Reverted(es[n], s), past[n])
  {
    var n := |es| - 1;
    assert Undoes(cs, es[n], past[n], past[n + 1]);
    RevertLike(cs, es[n], s, past[n + 1]);
    LikeTransitive(cs, Reverted(es[n], s), Reverted(es[n], past[n + 1]), past[n]);
    RevertedSound(es[n], s);
  }

  // ----- recorded changes can be undone -----

  /** Putting in place an object that looks like the one that was there. */
  lemma PutLike(cs: CodeStore, s: State, obj: StateObject)
    requires Sound(s) && Coherent(obj) && !obj.deleted
    requires SameLook(cs, Some(obj), Live(s, obj.address)) && Cached(Live(s, obj.address)) <= obj.origin.Keys
    ensures Sound(Put(s, obj)) && Like(cs, Put(s, obj), s)
  {
    SoundPut(s, obj);
    forall b
      ensures SameLook(cs, Live(Put(s, obj), b), Live(s, b)) && Cached(Live(s, b)) <= Cached(Live(Put(s, obj), b))
    {
      LivePut(s, obj, b);
    }
  }

  /** A change of one live account, with the entry that takes it back. */
  lemma PutUndone(cs: CodeStore, e: Entry, s: State, obj: StateObject)
    requires Sound(s) && Coherent(obj) && !obj.deleted && Subject(e) == Some(obj.address)
    requires Live(s, obj.address).Some? && !e.CreateObjectChange? && !e.ResetObjectChange?
    requires Applicable(e, Put(s, obj))
    requires SameLook(cs, Amended(e, Some(obj)), Live(s, obj.address))
    requires Cached(Live(s, obj.address)) <= Cached(Amended(e, Some(obj)))
    ensures Undoes(cs, e, s, Put(s, obj))
  {
    var s' := Put(s, obj);
    SoundPut(s, obj);
    forall b
      ensures SameLook(cs, Live(Reverted(e, s'), b), Live(s, b)) && Cached(Live(s, b)) <= Cached(Live(Reverted(e, s'), b))
    {
      LiveReverted(e, s', b);
      LivePut(s, obj, b);
    }
  }

  lemma CreateUndone(cs: CodeStore, s: State, obj: StateObject)
    requires Sound(s) && Coherent(obj) && !obj.deleted && Live(s, obj.address).None?
    ensures Undoes(cs, CreateObjectChange(obj.address), s, Put(s, obj))
  {
    var s', e := Put(s, obj), CreateObjectChange(obj.address);
    SoundPut(s, obj);
    LiveIsCoherent(s, obj.address);
    forall b
      ensures SameLook(cs, Live(Reverted(e, s'), b), Live(s, b)) && Cached(Live(s, b)) <= Cached(Live(Reverted(e, s'), b))
    {
      LiveReverted(e, s', b);
      LivePut(s, obj, b);
    }
  }

  lemma ResetUndone(cs: CodeStore, s: State, prev: StateObject, obj: StateObject)
    requires Sound(s) && Coherent(obj) && !obj.deleted && Live(s, obj.address) == Some(prev)
    ensures Undoes(cs, ResetObjectChange(prev), s, Put(s, obj))
  {
    var s', e := Put(s, obj), ResetObjectChange(prev);
    SoundPut(s, obj);
    LiveIsCoherent(s, obj.address);
    forall b
      ensures SameLook(cs, Live(Reverted(e, s'), b), Live(s, b)) && Cached(Live(s, b)) <= Cached(Live(Reverted(e, s'), b))
    {
      LiveReverted(e, s', b);
      LivePut(s, obj, b);
    }
  }

  lemma LikeRefl(cs: CodeStore, s: State)
    ensures Like(cs, s, s)
  {
  }

  /** Changes that touch no account. */
  lemma GlobalUndone(cs: CodeStore, e: Entry, s: State, s': State)
    requires Sound(s) && s'.objects == s.objects && s'.trie == s.trie
    requires Subject(e).None? && Applicable(e, s') && Reverted(e, s') == s
    requires forall h :: h in s'.logs ==> |s'.logs[h]| > 0
    ensures Undoes(cs, e, s, s')
  {
    LikeRefl(cs, s);
  }
}
