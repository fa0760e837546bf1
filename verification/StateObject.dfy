/** Accounts and their live objects: an account's data over its storage trie, with the
    committed storage cached in `origin` and writes collected in `dirty`. The storage root
    hash is identified with the contents of the trie it names. */
module StateObjects {
  import opened Wrappers

  type Address = nat
  type Hash = nat
  type Code = seq<nat>

  const RIPEMD: Address := 3

  datatype Account = Account(nonce: nat, balance: int, storage: map<Hash, Hash>, codeHash: Hash)

  datatype StateObject = StateObject(
    address: Address,
    data: Account,
    code: Option<Code>,
    origin: map<Hash, Hash>,
    dirty: map<Hash, Hash>,
    suicided: bool,
    deleted: bool)

  /** Absent slots read as the zero word. */
  function At(m: map<Hash, Hash>, key: Hash): Hash {
    if key in m then m[key] else 0
  }

  function NewObject(a: Address, data: Account): StateObject {
    StateObject(a, data, None, map[], map[], false, false)
  }

  function Committed(obj: StateObject, key: Hash): Hash {
    if key in obj.origin then obj.origin[key] else At(obj.data.storage, key)
  }

  function Slot(obj: StateObject, key: Hash): Hash {
    if key in obj.dirty then obj.dirty[key] else Committed(obj, key)
  }

  /** The code database and the hash function. */
  datatype CodeStore = CodeStore(keccak: Code -> Hash, codes: map<Hash, Code>) {
    function EmptyHash(): Hash {
      keccak([])
    }
    function CodeOf(obj: StateObject): Option<Code> {
      if obj.code.Some? then obj.code
      else if obj.data.codeHash == EmptyHash() then None
      else Lookup(codes, obj.data.codeHash)
    }
    /** Empty in the sense of EIP-161. */
    predicate IsEmpty(data: Account) {
      data.nonce == 0 && data.balance == 0 && data.codeHash == EmptyHash()
    }
    function EmptyAccount(): Account {
      Account(0, 0, map[], EmptyHash())
    }
  }

  /** The trie stores no zero words: writing zero deletes the slot. */
  predicate NoZeroes(storage: map<Hash, Hash>) {
    forall k :: k in storage ==> storage[k] != 0
  }

  /** The caches tell the truth about the storage trie, and a slot is cached before it is
      written. */
  predicate Coherent(obj: StateObject) {
    && NoZeroes(obj.data.storage)
    && obj.dirty.Keys <= obj.origin.Keys
    && forall k :: k in obj.origin ==> obj.origin[k] == At(obj.data.storage, k)
  }

  /** Two objects no getter tells apart. */
  ghost predicate LooksAs(cs: CodeStore, x: StateObject, y: StateObject) {
    && x.data.nonce == y.data.nonce && x.data.balance == y.data.balance
    && x.data.codeHash == y.data.codeHash && cs.CodeOf(x) == cs.CodeOf(y)
    && x.suicided == y.suicided
    && (forall k :: Slot(x, k) == Slot(y, k))
    && (forall k :: Committed(x, k) == Committed(y, k))
  }

  /** One dirty slot moves into the storage trie, unless it holds what is there already. */
  function FlushSlot(obj: StateObject, key: Hash): StateObject
    requires key in obj.dirty
  {
    var value, dirty := obj.dirty[key], obj.dirty - {key};
    if value == At(obj.origin, key) then obj.(dirty := dirty)
    else
      var storage := if value == 0 then obj.data.storage - {key} else obj.data.storage[key := value];
      obj.(dirty := dirty, origin := obj.origin[key := value], data := obj.data.(storage := storage))
  }

  lemma FlushSlotAt(obj: StateObject, key: Hash, k: Hash)
    requires Coherent(obj) && key in obj.dirty
    ensures var r := FlushSlot(obj, key);
            && Slot(r, k) == Slot(obj, k)
            && (k in r.origin ==> r.origin[k] == At(r.data.storage, k))
            && (k in r.data.storage ==> r.data.storage[k] != 0)
  {
    assert key in obj.origin;
  }

  lemma FlushSlotKeeps(obj: StateObject, key: Hash)
    requires Coherent(obj) && key in obj.dirty
    ensures var r := FlushSlot(obj, key);
            && Coherent(r) && r.origin.Keys == obj.origin.Keys && r.dirty.Keys < obj.dirty.Keys
            && forall k :: Slot(r, k) == Slot(obj, k)
  {
    var r := FlushSlot(obj, key);
    assert r.origin.Keys == obj.origin.Keys && r.dirty.Keys == obj.dirty.Keys - {key} by {
      assert key in obj.origin;
    }
    forall k
      ensures Slot(r, k) == Slot(obj, k) && (k in r.origin ==> r.origin[k] == At(r.data.storage, k))
           && (k in r.data.storage ==> r.data.storage[k] != 0)
    {
      FlushSlotAt(obj, key, k);
    }
  }

  /** updateTrie: the dirty slots go to the storage trie, no-ops skipped. */
  method UpdateTrie(obj: StateObject) returns (r: StateObject)
    requires Coherent(obj)
    ensures Coherent(r) && r.dirty == map[]
    ensures forall k :: At(r.data.storage, k) == Slot(obj, k)
    ensures r == obj.(data := obj.data.(storage := r.data.storage), origin := r.origin, dirty := map[])
    ensures r.origin.Keys == obj.origin.Keys
  {
    r := obj;
    while r.dirty != map[]
      invariant Coherent(r) && r.origin.Keys == obj.origin.Keys
      invariant r == obj.(data := obj.data.(storage := r.data.storage), origin := r.origin, dirty := r.dirty)
      invariant forall k :: Slot(r, k) == Slot(obj, k)
      decreases r.dirty.Keys
    {
      var key :| key in r.dirty;
      FlushSlotKeeps(r, key);
      ghost var was := r;
      var value := r.dirty[key];
      r := r.(dirty := r.dirty - {key});
      if value != At(r.origin, key) {
        r := r.(origin := r.origin[key := value]);
        if value == 0 {
          r := r.(data := r.data.(storage := r.data.storage - {key}));
        } else {
          r := r.(data := r.data.(storage := r.data.storage[key := value]));
        }
      }
      assert r == FlushSlot(was, key);
    }
  }
}
