# A verified model of the simulator's Ethereum core

The simulator carries the core of a single Ethereum node. This project models its stateful
algorithms in Dafny and proves what they are for. Run `dafny verify dfyconfig.toml`.

- **Trie.** The Merkle Patricia trie over a store of hashed nodes refines a map; its shape
  depends on its contents alone; a partly loaded trie behaves as its full expansion; iteration
  visits the entries in order, resumably and from any start; proofs verify to what lookup
  answers, and nothing else does. (`Encoding`, `Patricia`, `TrieMap`, `Trie`, `TrieOrder`,
  `TrieIterator`, `LeafIterator`, `TrieProof`)
- **Trie node cache.** Reference counts, the flush-list threaded through the nodes, `Cap` and
  `Commit`: whatever a held root reaches can be retrieved, although counts are exact only for
  nodes that are not on disk. (`FlushList`, `CacheInvariant`, `TrieDatabase`)
- **Journaled state.** Snapshots nest, and reverting brings back everything a getter can see;
  the caches behind the getters may differ. (`StateObject`, `Journal`, `StateRevert`, `StateDB`)
- **Clique.** The snapshot's redundant tally agrees with counting votes from scratch; what a
  run of headers can do to the signers; who may seal; cache transparency of snapshots; what is
  mined passes verification, and what passes it has a snapshot.
  (`CliqueVoting`, `CliqueSnapshot`, `CliqueSealing`, `CliqueTurns`, `CliqueEngine`)
- **Chains.** The number-to-hash table and the transaction lookup through forks.
  (`HeaderTree`, `HeaderChain`, `BlockChain`)
- **Transaction pool.** Nonce index, price/nonce merge, block-paged priority queue, the
  partition of the pool, the fairness of its limits, and that what it holds can be paid for.
  (`Heap`, `Transactions`, `TxList`, `PriceMerge`, `Prque`, `TxPartition`, `PoolFairness`,
  `PoolSteps`, `PoolFunds`, `PoolReset`, `TxPool`)
- **Execution.** Value and gas are conserved by messages and blocks, and no message is applied
  twice. (`Balances`, `StateTransition`)

## How it is modelled

Objects with mutable fields are classes; ghost fields hold what the concrete fields stand for
(`order` the flush-list, `full` the expanded trie, `seen` the place of an iteration, `past` the
states behind the journal's entries, `contents` a nonce-sorted list, `flat` a paged stack), and
`Valid` ties the two. Methods are proved against functions of those values, and the lemmas
about the functions say what the methods are for. Keccak is injective: a hash names one node,
and the graph of node hashes has no cycles. RLP is transparent: stores hold decoded nodes. The
sender of a transaction and the signer of a header are fields. Coin flips and random choices
are parameters or nondeterministic. The disk is a map.

Preconditions that may look like restrictions are the source's own or come from hashing:
`Reference` and `Store` ask that children are present or on disk when their parent arrives;
`DereferenceRoot` that no root is given up more often than it was taken; `WriteHeader` and
`WriteBlock` that a header's number is its parent's plus one, as verified before;
`VerifyHeader` that the headers the chain reader and the batch hold descend from genesis;
an iterator, a prover and `New` get the expansion of their trie as a ghost argument, which
exists for every trie whose hashes name nodes, while the store they read may lack any of them.

## Where code and documentation disagree

- The iterator's start is documented as the key to start after or at. `SeekOrder` shows that
  proper prefixes of the start key are included too, since the terminator sorts last.
- `verifySeal` is documented to refuse recent signers. Its unsigned subtraction wraps in the
  first N/2 blocks: `VerifySealIsLaxAtStart`, `WrapAcceptsRecentSigner`.
- A re-injection after a reorganisation may leave a gap in a pending list, which demotion
  keeps: `ReinjectionLeavesGap`. When it does not is `RunExactly`, and `CompleteReinjectionFills`
  says that bringing everything back does not.
- Replacing an account by `CreateAccount` does not make it dirty, so `Finalise` may leave the
  trie behind: `RecreationIsLost`. `Finalise` states when. The only caller of `CreateAccount`
  (src/network/eth/core/vm/evm.go:122-124) asks first whether the account exists, so
  `ApplyTransaction` keeps the trie in step.
- `cleaner.Put` charges external children to `dirtiesSize`, so only the sum of both sizes is
  always exact: `SizeIsLoad`. `SizesAreExact` says when each is, `SizesDriftApart` shows when
  not.
- `reorg` leaves table entries above a shorter new head: `ReorgLeavesEntry`; `Reorg` says which
  entries are right, and when none is left over.
- `SetHead` keeps side headers whose fork point it deletes: `CutLosesForkPoint`; it states when
  the chain stays whole.
- After `preCheck`, a failing message keeps its gas out of the block's pool: `TransitionDb`.

## Model

| member | source | states |
|---|---|---|
| Encoding.KeybytesToHex | src/network/eth/trie/encoding.go:68-77 | fills its buffer with exactly the two nibbles of every byte and the terminator |
| Encoding.HexToCompact | src/network/eth/trie/encoding.go:37-52 | the in-place packing leaves the hex-prefix encoding of the key, for keys of either parity with or without terminator |
| Encoding.CompactToHex | src/network/eth/trie/encoding.go:54-66 | yields the decoding function used by the round trips, for every byte string |
| Encoding.HexToKeybytes | src/network/eth/trie/encoding.go:81-91 | the bytes whose nibbles are the key without its terminator |
| Encoding.DecodeNibbles | src/network/eth/trie/encoding.go:93-97 | packs nibble pairs from an offset on and leaves what is before it alone |
| Encoding.PrefixLen | src/network/eth/trie/encoding.go:100-111 | the length of the longest common prefix |
| Encoding.UncompactCompact | src/network/eth/trie/encoding.go:37-66 | every hex key survives compaction, and its encoding has the flag and padding Appendix C of the Yellow Paper asks for |
| Encoding.CompactUncompact | src/network/eth/trie/encoding.go:37-66 | decoding then encoding is the identity on exactly the well-formed compact keys |
| Encoding.KeyHexInjective | src/network/eth/trie/encoding.go:68-77 | byte keys become terminated paths, and different keys different ones |
| Patricia.FindSole | src/network/eth/trie/trie.go:321-336 | the counting loop of delete: the only non-empty child, or that there is none, or several |
| TrieMap.GetIsFind | src/network/eth/trie/trie.go:110-144 | on a loaded trie in minimal form the lookup misses no node and answers with the map reading of the trie |
| TrieMap.InsertCanon | src/network/eth/trie/trie.go:184-251 | insertion keeps the minimal form: no short node under a short node, no full node with fewer than two children |
| TrieMap.InsertFind | src/network/eth/trie/trie.go:184-251 | after an insertion exactly the inserted key answers differently, with the inserted value |
| TrieMap.DeleteCanon | src/network/eth/trie/trie.go:275-382 | deletion keeps the minimal form, merging and shrinking nodes, and a full node never vanishes |
| TrieMap.DeleteFind | src/network/eth/trie/trie.go:275-382 | after a deletion exactly the deleted key is gone |
| TrieMap.CanonUnique | src/network/eth/trie/trie.go:272-275 | tries in minimal form that answer alike are the same tree |
| TrieMap.RunHolds | src/network/eth/trie/trie.go:166-182 | after any sequence of updates and deletions every byte key answers as in the map the sequence builds, and no other path answers |
| TrieMap.HistoryIndependence | src/network/eth/trie/trie.go:166-382 | two sequences that end with the same contents end with the identical tree, whatever their node stores were |
| Trie.Trie.constructor | src/network/eth/trie/trie.go:65-80 | an empty trie over a node store |
| Trie.New | src/network/eth/trie/trie.go:61-80 | a trie from its root hash with only the root node loaded, empty for the two special hashes, and an error exactly if the root is missing |
| Trie.Trie.TryGet | src/network/eth/trie/trie.go:101-108 | a partly loaded trie answers as its full expansion and stays the same trie; on a missing node nothing changes |
| Trie.Trie.TryUpdate | src/network/eth/trie/trie.go:166-182 | a partly loaded trie becomes one whose expansion is the updated expansion; an empty value deletes; a missing node changes nothing |
| Trie.Trie.TryDelete | src/network/eth/trie/trie.go:262-270 | a partly loaded trie becomes one whose expansion is the expansion without the key; a missing node changes nothing |
| Trie.GetExpands | src/network/eth/trie/trie.go:110-144 | what a lookup loads on its way still expands to the same trie |
| Trie.InsertExpands | src/network/eth/trie/trie.go:184-251 | insertion commutes with expanding hash nodes |
| Trie.DeleteExpands | src/network/eth/trie/trie.go:275-382 | deletion commutes with expanding hash nodes, including the one sibling it must resolve |
| Trie.GetShape | src/network/eth/trie/trie.go:110-144 | even over an incomplete store the lookup stays inside its arrays and fails only with the hash of a node that is not there |
| Trie.InsertShape | src/network/eth/trie/trie.go:184-251 | even over an incomplete store insertion stays inside its arrays and fails only with the hash of a node that is not there |
| Trie.DeleteShape | src/network/eth/trie/trie.go:275-382 | even over an incomplete store deletion stays inside its arrays and fails only with the hash of a node that is not there |
| TrieOrder.AllVisitsSorted | src/network/eth/trie/iterator.go:71-73 | pre-order of a trie in minimal form is strictly ascending order of paths |
| TrieOrder.LeavesAreEntries | src/network/eth/trie/iterator.go:71-99 | the values visited are exactly the trie's entries, each at its terminated path |
| TrieIterator.NodeIterator.constructor | src/network/eth/trie/iterator.go:135-142 | starts just before the first visit at or past the start key, or at the end, or reports the missing node that stopped the seek |
| TrieIterator.NodeIterator.NextChild | src/network/eth/trie/iterator.go:307-343 | the next non-empty child; nothing that is still to be visited changes |
| TrieIterator.NodeIterator.Pop | src/network/eth/trie/iterator.go:353-357 | one frame goes, and the path falls back to its parent's |
| TrieIterator.NodeIterator.Peek | src/network/eth/trie/iterator.go:259-305 | finds the next visit; without descending it skips exactly the visits below the current path; a missing node is one the store lacks |
| TrieIterator.NodeIterator.PushChild | src/network/eth/trie/iterator.go:345-351 | moves to the visit that was found, with all later visits still ahead |
| TrieIterator.NodeIterator.Seek | src/network/eth/trie/iterator.go:240-256 | terminates just before the first visit at or past the key, however the seek was interrupted before |
| TrieIterator.NodeIterator.Next | src/network/eth/trie/iterator.go:221-238 | steps through the trie's visits one by one, or past a subtrie; resumes a failed seek; ends exactly when all visits are behind; fails only at nodes the store lacks |
| TrieIterator.RestAside | src/network/eth/trie/iterator.go:269-293 | what remains after a frame is popped lies outside its subtrie |
| LeafIterator.Iterator.Next | src/network/eth/trie/iterator.go:45-57 | the next leaf as byte key and value, which the trie's map has; no leaf is passed over |
| LeafIterator.Iterator.ReadLeaf | src/network/eth/trie/iterator.go:162-178 | key and value at a leaf |
| LeafIterator.Collect | src/network/eth/core/state/statedb.go:523-525 | a loop over Next from a start key reads exactly the map's entries from there on, once each, in ascending path order |
| LeafIterator.SeekOrder | src/network/eth/trie/iterator.go:240-253 | a key passes the start of a seek iff it is not below it as bytes or is a proper prefix of it |
| TrieProof.ExpandsCollapse | src/network/eth/trie/proof.go:66-69 | a partly loaded node has the same stored form and hash as its expansion |
| TrieProof.WalkCollapsed | src/network/eth/trie/proof.go:133-155 | walking one stored node either settles the key as the trie would, or ends in the hash of a subtrie on the path that does |
| TrieProof.Get | src/network/eth/trie/proof.go:133-155 | the loop computes that walk and consumes part of the key before any reference |
| TrieProof.CollectPath | src/network/eth/trie/proof.go:37-64 | gathers the nodes on the path to the key, resolving references; a missing node is one the store lacks |
| TrieProof.Prove | src/network/eth/trie/proof.go:37-91 | writes exactly the root and the nodes referred to by hash on the path, from the level asked for on |
| TrieProof.VerifyProof | src/network/eth/trie/proof.go:107-131 | over a database that keeps nodes under their own hashes, malformed ones included, no answer but the trie's own is possible, and it is given whenever the path's nodes are there |
| TrieProof.ProofCovers | src/network/eth/trie/proof.go:66-90 | what Prove writes keeps such a database one and contains all the path needs |
| TrieProof.ProveThenVerify | src/network/eth/trie/proof.go:37-131 | a proof of any key of a non-empty trie verifies against the root hash to what lookup answers, present or absent |
| FlushList.UnlinkList | src/network/eth/trie/database.go:524-540 | unlinking any node leaves a well-linked list without it; flushPrev of the head stays unconstrained |
| FlushList.AppendList | src/network/eth/trie/database.go:338-345 | appending leaves a well-linked list with the node at the end, whatever the stale ends of an emptied list were |
| FlushList.BeheadList | src/network/eth/trie/database.go:632-644 | dropping the head leaves a well-linked list of the rest |
| CacheInvariant.ReachableIsStored | src/network/eth/trie/database.go:321-346 | along any path of the node graph from a held root every node is cached or on disk |
| CacheInvariant.LiveNodesSurvive | src/network/eth/trie/database.go:466-556 | and it can be read back with its own content |
| CacheInvariant.OnDiskReaches | src/network/eth/trie/database.go:727-751 | the disk is closed under references: what is reachable from a node on disk is on disk |
| CacheInvariant.NoNewGarbage | src/network/eth/trie/database.go:509-556 | garbage collection leaves no garbage of its own: a node not on disk that nobody holds afterwards was held by nobody before |
| CacheInvariant.ReleaseInv | src/network/eth/trie/database.go:516-521 | counting a parent down keeps exact counts for nodes that are not on disk |
| CacheInvariant.DetachInv | src/network/eth/trie/database.go:522-545 | taking a dead node off the list moves its references to those owed |
| CacheInvariant.ForgetInv | src/network/eth/trie/database.go:764-795 | forgetting a node that is on disk keeps the invariant although its parents' counts are no longer exact |
| CacheInvariant.JoinInv | src/network/eth/trie/database.go:321-346 | inserting a node whose children are present keeps the invariant |
| CacheInvariant.TrackInv | src/network/eth/trie/database.go:466-484 | a tracked external child keeps the invariant |
| TrieDatabase.Database.constructor | src/network/eth/trie/database.go:279-299 | an empty cache over a disk closed under references |
| TrieDatabase.Database.Childs | src/network/eth/trie/database.go:162-192 | the external and embedded children of a node, each as often as it is referred to |
| TrieDatabase.Database.Insert | src/network/eth/trie/database.go:321-346 | a new node enters the end of the list and counts itself into its children; a known one changes nothing |
| TrieDatabase.Database.InsertBlob | src/network/eth/trie/database.go:310-315 | a blob without references of its own enters the cache |
| TrieDatabase.Database.Store | src/network/eth/core/state/statedb.go:712-725 | a committed account-trie node enters together with references to the storage tries and codes its leaves name |
| TrieDatabase.Database.Reference | src/network/eth/trie/database.go:458-484 | a reference counts once per pair, except from the meta-root, and is ignored for children that are not cached |
| TrieDatabase.Database.ReferenceRoot | src/network/eth/trie/database.go:458-484 | the meta-root's hold on a cached root goes up by one |
| TrieDatabase.Database.DereferenceRoot | src/network/eth/trie/database.go:487-506 | the meta-root's hold goes down by one; the root itself goes exactly with its last parent, and with it only what it reaches; no other node is left that lost its last parent |
| TrieDatabase.Database.Dereference | src/network/eth/trie/database.go:509-556 | one reference goes away; a child goes exactly with its last parent, only what it reaches goes with it, every node that loses its last parent does, and the cascade ends |
| TrieDatabase.Database.RemoveFromFlushList | src/network/eth/trie/database.go:524-540 | the switch over the four positions in the list relinks it as the specification does |
| TrieDatabase.Database.Clean | src/network/eth/trie/database.go:764-795 | a written node leaves list and cache, and joins the nodes whose external children have been charged to the wrong size; all others are as they were |
| TrieDatabase.Database.SizesAreExact | src/network/eth/trie/database.go:785-788 | each size by itself is the sum over the cached nodes iff the cleaner has never taken out a node with external children |
| TrieDatabase.SizesDriftApart | src/network/eth/trie/database.go:785-788 | a node that refers to another from outside is committed: dirtiesSize is too small then and childrenSize too big |
| TrieDatabase.Database.CommitNode | src/network/eth/trie/database.go:727-751 | a node and all below it are on disk or in the batch, children first; only what the node reaches moves, and nothing retrievable is lost |
| TrieDatabase.Database.Commit | src/network/eth/trie/database.go:662-724 | the whole trie below the root is on disk, the root is out of the cache, and nothing it does not reach has moved |
| TrieDatabase.Database.FlushOldest | src/network/eth/trie/database.go:575-612 | the first loop: the shortest prefix of the list that brings the size under the limit reaches the disk |
| TrieDatabase.Database.ForgetOldest | src/network/eth/trie/database.go:628-644 | the second loop: that prefix leaves the cache and the size falls by exactly its load |
| TrieDatabase.Database.Cap | src/network/eth/trie/database.go:563-654 | afterwards the size is within the limit or the list is empty; no more of the list than needed moved, and all of that is on disk |
| TrieDatabase.Database.SizeIsLoad | src/network/eth/trie/database.go:803-811 | Size equals the sum over all cached nodes from scratch |
| TrieDatabase.Database.LiveNodesRetrievable | src/network/eth/trie/database.go:390-417 | whatever a held root reaches can be retrieved, in every reachable state of the cache |
| TrieDatabase.Database.CommittedIsComplete | src/network/eth/trie/database.go:654-662 | all that a committed root reaches is on disk, so the cache is not needed for it |
| StateObjects.UpdateTrie | src/network/eth/core/state/state_object.go:224-249 | writing the dirty slots to the storage trie leaves every slot as it read, with nothing dirty and no zeroes stored |
| Journals.Journal.Append | src/network/eth/core/state/journal.go:50-55 | the entry is appended and its account's count goes up by one |
| Journals.Journal.Undirty | src/network/eth/core/state/journal.go:63-70 | a reverted entry takes its account's count down, and the account out at zero |
| StateRevert.RevertLike | src/network/eth/core/state/journal.go:135-229 | undoing an entry in states that look alike gives states that look alike, whatever was cached |
| StateRevert.UndoLast | src/network/eth/core/state/journal.go:59-72 | undoing the last entry gives a state that looks like the one before it |
| StateDatabase.StateDB.GetStateObject | src/network/eth/core/state/statedb.go:444-471 | loading an account changes no getter's answer |
| StateDatabase.StateDB.CreateObject | src/network/eth/core/state/statedb.go:488-499 | a blank object takes the address, journaled so that the old one can come back |
| StateDatabase.StateDB.CreateAccount | src/network/eth/core/state/statedb.go:511-516 | a new account with nonce 0, no code, all slots 0 and only the old balance, revertibly; dirty only if there was no account before |
| StateDatabase.StateDB.AddBalance | src/network/eth/core/state/statedb.go:346-351 | that balance rises, revertibly; it makes the account dirty unless nothing is added to an account with a nonce, a balance or code |
| StateDatabase.StateDB.SubBalance | src/network/eth/core/state/statedb.go:354-359 | exactly that account's balance goes down, revertibly |
| StateDatabase.StateDB.SetBalance | src/network/eth/core/state/statedb.go:361-366 | exactly that account's balance is set, revertibly |
| StateDatabase.StateDB.SetNonce | src/network/eth/core/state/statedb.go:368-373 | exactly that account's nonce is set, revertibly |
| StateDatabase.StateDB.SetCode | src/network/eth/core/state/statedb.go:375-380 | exactly that account's code and code hash are set, revertibly |
| StateDatabase.StateDB.SetState | src/network/eth/core/state/statedb.go:382-387 | exactly that slot is set, revertibly; writing what is there is no change |
| StateDatabase.StateDB.Suicide | src/network/eth/core/state/statedb.go:394-408 | a live account is marked and loses its balance, revertibly |
| StateDatabase.StateDB.GetState | src/network/eth/core/state/statedb.go:282-288 | reads the slot through both storage layers and changes no answer |
| StateDatabase.StateDB.GetCode | src/network/eth/core/state/statedb.go:250-256 | the code at hand or else that of the code hash, and no getter's answer changes |
| StateDatabase.CodeMatchesHash | src/network/eth/core/state/state_object.go:343-356 | over a code database that keeps codes under their hashes, the code shown is the one the account's code hash names, and none is shown only without a code or if the database lacks it |
| StateDatabase.StateDB.AddRefund | src/network/eth/core/state/statedb.go:194-197 | the 64-bit refund counter goes up, revertibly |
| StateDatabase.StateDB.SubRefund | src/network/eth/core/state/statedb.go:201-207 | the counter goes down, or the call fails exactly when it would go below zero |
| StateDatabase.StateDB.AddLog | src/network/eth/core/state/statedb.go:155-164 | the log is appended for the current transaction with its place filled in, revertibly |
| StateDatabase.StateDB.AddPreimage | src/network/eth/core/state/statedb.go:179-186 | a preimage is recorded once, revertibly |
| StateDatabase.StateDB.Snapshot | src/network/eth/core/state/statedb.go:597-602 | a fresh id remembers the present |
| StateDatabase.StateDB.RevertToSnapshot | src/network/eth/core/state/statedb.go:605-618 | balance, nonce, code, slots, existence, suicide, refund, logs and preimages read as at the snapshot; older ids stay valid, it and later ones are gone, and dirty counts match the entries left; an unknown id is refused |
| StateDatabase.StateDB.RevertJournal | src/network/eth/core/state/journal.go:59-72 | the loop undoes the entries last first down to the given length |
| StateDatabase.StateDB.RevertEntry | src/network/eth/core/state/journal.go:135-229 | each change type's revert does what the specification of undoing says |
| StateDatabase.StateDB.SearchRevision | src/network/eth/core/state/statedb.go:607-612 | binary search for the first revision with at least this id |
| StateDatabase.StateDB.Finalise | src/network/eth/core/state/statedb.go:627-650 | of the dirty accounts those that suicided go, and, if that is asked for, those without nonce, balance and code; all others keep nonce, balance, code and slots and are written to the trie; nothing else changes; the journal is void. An account that is not dirty is in step with the trie afterwards iff whatever was replaced there had nothing but a balance |
| StateDatabase.ReplacedLooks | src/network/eth/core/state/journal.go:144-150 | over any journal that does not dirty an account it looks as it did, or, if it was replaced, blank but for its balance |
| StateDatabase.ReplacedInStep | src/network/eth/core/state/journal.go:144-150 | such an account is in step with the trie iff whatever was replaced there looked blank but for its balance |
| StateDatabase.RecreationIsLost | src/network/eth/core/state/statedb.go:511-516 | an account with a nonce in the trie is recreated and the transaction ended: the trie still has the nonce |
| CliqueSnapshot.Snapshot.constructor | src/network/eth/consensus/clique/snapshot.go:70-84 | a checkpoint's signers, with no votes and no recent signers |
| CliqueSnapshot.Snapshot.Copy | src/network/eth/consensus/clique/snapshot.go:112-135 | a fresh snapshot with the same contents |
| CliqueSnapshot.Snapshot.Cast | src/network/eth/consensus/clique/snapshot.go:145-158 | a meaningful vote enters the tally, which still counts the votes; a meaningless one is refused |
| CliqueSnapshot.Snapshot.Uncast | src/network/eth/consensus/clique/snapshot.go:161-179 | a counted vote leaves the tally, which counts the remaining votes |
| CliqueSnapshot.Snapshot.ApplyHeader | src/network/eth/consensus/clique/snapshot.go:201-288 | one round of the loop does exactly what counting votes from scratch would, error by error, and keeps tally and votes in agreement; live afterwards are exactly the header's meaningful vote and, but at an epoch block, the earlier ones it does not replace, less those on or by an account whose standing changed |
| CliqueSnapshot.Snapshot.PassVote | src/network/eth/consensus/clique/snapshot.go:246-288 | a passed vote changes the signers, shrinks the window, and drops exactly the votes by a dropped signer and on the account |
| CliqueSnapshot.Snapshot.Apply | src/network/eth/consensus/clique/snapshot.go:183-293 | the snapshot after the headers or the first error; the receiver is not altered |
| CliqueVoting.NextKeepsInv | src/network/eth/consensus/clique/snapshot.go:200-288 | every accepted header keeps: votes meaningful, one per signer and target, all by current signers; recent signers distinct and inside the window |
| CliqueVoting.FoldKeepsInv | src/network/eth/consensus/clique/snapshot.go:183-293 | so does every accepted run of headers |
| CliqueVoting.VotersAreCounted | src/network/eth/consensus/clique/snapshot.go:246-248 | counting live votes on an account is counting the signers who cast them |
| CliqueVoting.MajorityChangesSigners | src/network/eth/consensus/clique/snapshot.go:246-288 | a header changes the signers iff more than half of them back it, its own signer by a meaningful vote, the others by one still live; and then by the coinbase alone |
| CliqueVoting.VotersHaveVoted | src/network/eth/consensus/clique/snapshot.go:226-245 | a signer other than the header's has a live vote iff one was live before and this is no epoch block; the header's signer iff its vote means something |
| CliqueVoting.LiveVotes | src/network/eth/consensus/clique/snapshot.go:201-288 | exactly which votes are live after an accepted header |
| CliqueVoting.NextInOrder | src/network/eth/consensus/clique/snapshot.go:226-252 | the list of votes stays in the order they were cast |
| CliqueVoting.RecentSigners | src/network/eth/consensus/clique/snapshot.go:206-225 | remembered are exactly the signers of the last N/2+1 blocks, for the number of signers before as well as after the header |
| CliqueSealing.SealMatchesApply | src/network/eth/consensus/clique/clique.go:604-612 | Seal waits exactly when apply would refuse the block |
| CliqueSealing.VerifySealIsLaxAtStart | src/network/eth/consensus/clique/clique.go:468-475 | verifySeal agrees with apply except in the first N/2 blocks, where its unsigned subtraction wraps and every signer passes |
| CliqueSealing.WrapAcceptsRecentSigner | src/network/eth/consensus/clique/clique.go:471 | a reachable block that verifySeal passes and apply refuses |
| CliqueSealing.SomeoneMaySeal | src/network/eth/consensus/clique/clique.go:604-612 | as long as there is a signer, some signer may seal the next block |
| CliqueSealing.AcceptedHeaders | src/network/eth/consensus/clique/snapshot.go:200-239 | apply accepts exactly the headers of a signer who signed none of the N/2 blocks before, with one of the two nonces |
| CliqueSealing.SignersAreSpaced | src/network/eth/consensus/clique/snapshot.go:207-224 | while the window stays that wide, blocks closer than it have different signers; so with N signers any N/2+1 in a row do |
| CliqueSealing.ApplyConcat | src/network/eth/consensus/clique/snapshot.go:183-293 | applying headers in one go or in two gives the same snapshot or error |
| CliqueTurns.Sorted | src/network/eth/consensus/clique/snapshot.go:296-303 | the signers in ascending order |
| CliqueTurns.IsInTurn | src/network/eth/consensus/clique/snapshot.go:306-312 | the offset search finds the signer's rank and compares it with the block number modulo the signer count |
| CliqueTurns.TurnByPosition | src/network/eth/consensus/clique/snapshot.go:306-312 | in turn is the signer at position number mod N of the ascending list, and nobody else |
| CliqueTurns.OneInTurn | src/network/eth/consensus/clique/snapshot.go:306-312 | every block has exactly one signer in turn |
| CliqueTurns.OneTurnPerRound | src/network/eth/consensus/clique/snapshot.go:306-312 | every signer has exactly one turn in as many consecutive blocks as there are signers |
| CliqueEngine.Clique.SnapshotAt | src/network/eth/consensus/clique/clique.go:352-427 | with a complete chain the answer is the one snapshot that replaying from genesis gives, wherever the backward walk stopped |
| CliqueEngine.Clique.Walk | src/network/eth/consensus/clique/clique.go:352-405 | walks back to a known snapshot, gathering the headers above it; fails only for want of an ancestor |
| CliqueEngine.Clique.Known | src/network/eth/consensus/clique/clique.go:358-388 | a snapshot from memory, disk or genesis, always the right one for its header |
| CliqueEngine.PathGivesSnap | src/network/eth/consensus/clique/clique.go:400-413 | applying the headers of a path to the snapshot at its start gives the snapshot at its end |
| CliqueEngine.Clique.VerifySeal | src/network/eth/consensus/clique/clique.go:448-487 | accepts iff the signer is authorized, not recent by its own guard, and has the difficulty of its turn |
| CliqueEngine.Clique.Seal | src/network/eth/consensus/clique/clique.go:576-646 | seals iff the signer is authorized and apply would accept it, waits if only the window forbids it |
| CliqueEngine.Clique.Prepare | src/network/eth/consensus/clique/clique.go:491-553 | a proposal that would count as the vote, or none; the difficulty of our turn; at checkpoints the signers in order instead; the earliest time the period allows; with a complete chain it fails only if the snapshot does |
| CliqueEngine.MinedIsValid | src/network/eth/consensus/clique/clique.go:491-646 | what Prepare, Finalize and Seal make of a header passes all of verifyHeader, is taken by the next snapshot, and its vote changes the signers or stays live |
| CliqueEngine.ValidRules | src/network/eth/consensus/clique/clique.go:251-352 | a header that passes is at least a period after its parent and not of the future, is sealed by a signer with difficulty 2 at its place in the rota and 1 otherwise, and at checkpoints lists the signers in order and casts no vote |
| CliqueEngine.Paced | src/network/eth/consensus/clique/clique.go:328-330 | any number of valid headers in a row take at least that many periods |
| CliqueEngine.CheckpointRestarts | src/network/eth/consensus/clique/clique.go:372-388 | a checkpoint header can stand for all before it: the snapshot at it has the signers it lists and no votes, iff the zero address is no signer |
| CliqueEngine.Clique.VerifyHeader | src/network/eth/consensus/clique/clique.go:251-306 | passes exactly the headers that meet the consensus rules, if no ancestor is missing, and never any other |
| CliqueEngine.Clique.VerifyCascadingFields | src/network/eth/consensus/clique/clique.go:312-349 | the parent, the block period, the signers listed at checkpoints and the seal, all against the one snapshot of the parent |
| CliqueEngine.Clique.VerifyHeaders | src/network/eth/consensus/clique/clique.go:229-245 | in a batch on top of known headers every header gets the verdict it would get if those before it were in the chain |
| CliqueEngine.BatchLinked | src/network/eth/consensus/clique/clique.go:229-245 | the headers before one in a batch stand in for the chain when its snapshot is looked for |
| CliqueEngine.ValidHasSnapshot | src/network/eth/consensus/clique/clique.go:448-487 | a header that passes verification has a snapshot of its own iff its signer is not recent; only in the first N/2 blocks can it lack one |
| HeaderTree.Grows | src/network/eth/core/headerchain.go:134-160 | a new header with a known parent leaves everybody's ancestors as they were |
| HeaderTree.AncestorOfAncestor | src/network/eth/core/headerchain.go:333-363 | an ancestor's ancestors are one's own |
| HeaderChains.HeaderChain.constructor | src/network/eth/core/headerchain.go:73-109 | a chain of the genesis header alone |
| HeaderChains.HeaderChain.WriteHeader | src/network/eth/core/headerchain.go:134-198 | the head has maximal total difficulty, and the number table lists exactly the head's ancestors from 0 to the head, whichever branch wins |
| HeaderChains.HeaderChain.DeleteAbove | src/network/eth/core/headerchain.go:163-170 | the entries above the new head go |
| HeaderChains.HeaderChain.OverwriteStale | src/network/eth/core/headerchain.go:171-184 | the entries below the new head are overwritten down to the first right one, and then all are right |
| HeaderChains.HeaderChain.SetHead | src/network/eth/core/headerchain.go:463-498 | the canonical chain is cut above the new head in headers, difficulties and table; side chains stay; the chain is still whole iff no header that stays has lost its parent or is heavier than the new head |
| HeaderChains.CutTree | src/network/eth/core/headerchain.go:463-498 | exactly when a tree is whole after a cut |
| HeaderChains.CutLosesForkPoint | src/network/eth/core/headerchain.go:463-498 | a cut after which a side header has no parent |
| HeaderChains.HeaderChain.GetAncestor | src/network/eth/core/headerchain.go:333-363 | whatever it returns is what walking parent links gives; it gives up only when the budget runs out before a canonical header |
| BlockChains.BlockChain.constructor | src/network/eth/core/blockchain.go:499-516 | a chain of the genesis block alone |
| BlockChains.BlockChain.Insert | src/network/eth/core/blockchain.go:499-516 | the block becomes table entry and head; the header head follows unless the block was canonical |
| BlockChains.BlockChain.FindCommon | src/network/eth/core/blockchain.go:1462-1510 | both chains are gathered down to their lowest common ancestor |
| BlockChains.BlockChain.InsertAll | src/network/eth/core/blockchain.go:1511-1526 | the new chain is inserted oldest first |
| BlockChains.BlockChain.Reorg | src/network/eth/core/blockchain.go:1427-1557 | the table lists the new head's ancestors; it ends at the new head iff it had nothing above it before; lookups are right if no transaction repeats on a chain |
| BlockChains.ReorgLeavesEntry | src/network/eth/core/blockchain.go:1427-1557 | a heavier and shorter chain takes over, and the table goes on above its head |
| BlockChains.SwitchKeepsIndex | src/network/eth/core/blockchain.go:1515-1534 | replacing one branch by another keeps the lookup table exactly the canonical chain's transactions |
| BlockChains.BlockChain.DropLookups | src/network/eth/core/blockchain.go:1527-1534 | exactly the transactions only the old branch had are no longer looked up |
| BlockChains.BlockChain.WriteBlock | src/network/eth/core/blockchain.go:905-1034 | fork choice: the heavier wins; equally heavy, the shorter; equally long, the current one if it is to be preserved, else the new one if it is, else by coin; the head's difficulty never falls; both indexes stay right up to the head |
| BlockChains.TxDifference | src/network/eth/core/types/transaction.go:289-304 | exactly the transactions of the first list that the second lacks |
| Heap.RootIsLeast | src/network/eth/core/types/transaction.go:317-333 | in a heap no element is before the root |
| Heap.Init | src/network/eth/core/types/transaction.go:366 | a heap of the same elements |
| Heap.Push | src/network/eth/core/tx_list.go:71-77 | a heap with one more element |
| Heap.Pop | src/network/eth/core/tx_list.go:88-95 | the least element, and a heap of the others |
| Heap.Fix | src/network/eth/core/types/transaction.go:384-392 | a heap again after one element changed |
| Heap.RemoveAt | src/network/eth/core/tx_list.go:157-162 | a heap of all elements but the one at that place |
| TxLists.TxSortedMap.Put | src/network/eth/core/tx_list.go:71-77 | the transaction takes its nonce's place in the ordered contents; heap and cache agree with the map |
| TxLists.TxSortedMap.Forward | src/network/eth/core/tx_list.go:82-96 | exactly the lower nonces go, in order, and a cached order is sliced right |
| TxLists.TxSortedMap.Filter | src/network/eth/core/tx_list.go:100-121 | exactly the matching transactions go and the heap is rebuilt to the nonces left |
| TxLists.TxSortedMap.Cap | src/network/eth/core/tx_list.go:125-146 | exactly the highest nonces go, highest first, and a cached order is sliced right |
| TxLists.TxSortedMap.Remove | src/network/eth/core/tx_list.go:150-167 | exactly that nonce goes, from the heap as well |
| TxLists.TxSortedMap.Ready | src/network/eth/core/tx_list.go:176-191 | exactly the gap-free run at the front goes, if it starts at or below the given nonce |
| TxLists.TxSortedMap.Flatten | src/network/eth/core/tx_list.go:201-214 | all transactions by ascending nonce, sorted once and kept |
| TxLists.TxList.Add | src/network/eth/core/tx_list.go:249-270 | a transaction enters iff it outbids the one with its nonce by the price bump; the caps stay upper bounds |
| TxLists.OutbidsMeans | src/network/eth/core/tx_list.go:252-259 | a replacement costs more than the old price, and at least the bump in percent more, rounded down |
| TxLists.TxList.Filter | src/network/eth/core/tx_list.go:288-312 | the cap shortcut changes nothing: the result is that of filtering every item; gap-free strict lists stay gap-free |
| TxLists.TxList.Cap | src/network/eth/core/tx_list.go:316-318 | the list is cut to its first items and stays gap-free |
| TxLists.TxList.Forward | src/network/eth/core/tx_list.go:275-277 | the lower nonces go and the list stays gap-free |
| TxLists.TxList.Remove | src/network/eth/core/tx_list.go:323-334 | the nonce goes, in strict lists with all behind it as invalid, and the list stays gap-free |
| TxLists.TxList.Ready | src/network/eth/core/tx_list.go:343-345 | the gap-free run at the front |
| Transactions.ReadyCounts | src/network/eth/core/tx_list.go:176-191 | nothing is ready exactly if the first nonce lies past the start; else the nonces that count up from the first, to the first that is missing |
| Transactions.RunIsGapFree | src/network/eth/core/tx_list.go:176-191 | the run is gap-free and stops only at a gap |
| PriceMerge.TransactionsByPriceAndNonce.constructor | src/network/eth/core/types/transaction.go:353-373 | the heap holds every account's first transaction |
| PriceMerge.TransactionsByPriceAndNonce.Peek | src/network/eth/core/types/transaction.go:376-381 | some account's next transaction, at least as dear as all the others' next ones |
| PriceMerge.TransactionsByPriceAndNonce.Shift | src/network/eth/core/types/transaction.go:384-392 | that account moves on to its next transaction |
| PriceMerge.TransactionsByPriceAndNonce.Pop | src/network/eth/core/types/transaction.go:397-399 | exactly that account's remaining transactions go |
| PriceMerge.TransactionsByPriceAndNonce.Drain | src/network/eth/core/types/transaction.go:376-392 | repeated Peek and Shift emit every transaction once, each account's in nonce order, always a dearest head first |
| Prques.SStack.Push | src/network/eth/common/prque/sstack.go:47-63 | the blocks act as one flat array with the item at the end |
| Prques.SStack.Pop | src/network/eth/common/prque/sstack.go:67-79 | the last item of the flat array |
| Prques.SStack.Swap | src/network/eth/common/prque/sstack.go:93-101 | two items of the flat array change places |
| Prques.Prque.Push | src/network/eth/common/prque/prque.go:20-22 | one more item |
| Prques.Prque.Pop | src/network/eth/common/prque/prque.go:26-29 | an item of the highest priority; all others stay |
| TxPartition.NoncesAreDisjoint | src/network/eth/core/tx_pool.go:206-220 | an account's pending and queued nonces are disjoint |
| TxPartition.AllIsTheUnion | src/network/eth/core/tx_pool.go:206-220 | the lookup knows exactly the pending and queued transactions |
| TxPools.TxPool.EnqueueTx | src/network/eth/core/tx_pool.go:679-700 | a transaction is queued unless it does not outbid the queued one with its nonce, which it replaces everywhere |
| TxPools.TxPool.Add | src/network/eth/core/tx_pool.go:610-674 | invalid exactly if malformed, over the block's gas, below the state nonce, underpaid and not local, or if price times gas plus value exceeds the balance; refused by validation or as underpriced it changes nothing; otherwise, once a full pool has given up what the price heap names, it enters iff it outbids its rival for the nonce, in its place or else in the queue, and nothing more changes; if all that is pooled can be paid for, it still can |
| TxPools.TxPool.RemoveTx | src/network/eth/core/tx_pool.go:871-910 | exactly that transaction leaves the pool; pending ones behind it go back to the queue and the tracked nonce falls back |
| TxPools.TxPool.PromoteTx | src/network/eth/core/tx_pool.go:707-738 | a queued transaction becomes pending and the tracked nonce follows |
| TxPools.TxPool.PromoteAccount | src/network/eth/core/tx_pool.go:928-971 | old and unpayable transactions go, exactly the executable run is promoted, the rest is cut to the queue limit unless local; other accounts stay as they were |
| TxPools.TxPool.TruncatePending | src/network/eth/core/tx_pool.go:972-1041 | fairness of the pending limit: within the limit or all but locals down to their slots, and no further below it than one transaction for each who was cut; locals lose nothing; nobody is cut below the slots; nobody not local ends longer than one who was cut |
| TxPools.TxPool.TruncateQueue | src/network/eth/core/tx_pool.go:1042-1081 | exactly the excess goes, or all that is not local; locals lose nothing, others their newest first; whoever was heard of later than an account that lost some has lost all |
| TxPools.TxPool.PromoteExecutables | src/network/eth/core/tx_pool.go:915-1082 | exactly the given accounts are promoted, or all; then the pending lists are cut fairly, then the queues |
| TxPools.TxPool.AddAll | src/network/eth/core/tx_pool.go:822-845 | each transaction has the outcome its predecessors leave it while there is room, only what can be paid for is accepted, and the lists are the old ones with the accepted ones put in; then exactly the senders of new ones are promoted, and both limits kept |
| PoolFunds.MayEnterMeans | src/network/eth/core/tx_pool.go:557-601 | validation admits exactly what its sender can still send and pay for, the value and the price of all the gas |
| PoolFunds.PromotedCovered | src/network/eth/core/tx_pool.go:928-971 | promotion keeps of an account's queue only what it can send and pay for, and all of that unless the queue limit cuts it |
| TxPools.TxPool.DemoteAccount | src/network/eth/core/tx_pool.go:1087-1130 | exactly the executable prefix stays pending, and exactly what is payable behind it is queued again |
| PoolSteps.DemotedOrDropped | src/network/eth/core/tx_pool.go:1087-1130 | demotion drops exactly what is too old, needs more gas than a block has, or costs more than the balance |
| TxPools.TxPool.DemoteUnexecutables | src/network/eth/core/tx_pool.go:1087-1130 | so for every account |
| PoolFunds.DemotedCovered | src/network/eth/core/tx_pool.go:1087-1130 | what stays pending can be sent and paid for, and nothing that can is dropped |
| PoolFunds.RenewedCovered | src/network/eth/core/tx_pool.go:395-419 | demotion and promotion together leave nothing pooled that cannot be paid for, whatever there was before |
| TxPools.TxPool.Reset | src/network/eth/core/tx_pool.go:316-419 | additions, promotion, limits, demotion, promotion and limits, account by account; afterwards all that is pooled can be sent and paid for; with nothing to inject runs become runs from the new state nonces; with something, while the limits cut no pending list, a list without gaps becomes one iff it fills |
| PoolReset.RunExactly | src/network/eth/core/tx_pool.go:395-419 | with p the first pending nonce from the new state nonce n on: the list is a run after the reset iff there is no p, or it is n, or cannot be paid for, or nothing new makes a transaction at n pending, or all usable nonces from n up to p are queued or accepted |
| PoolReset.CompleteReinjectionFills | src/network/eth/core/tx_pool.go:395-398 | injecting all nonces from n up to p again keeps runs |
| TxPools.ReinjectionLeavesGap | src/network/eth/core/tx_pool.go:395-412 | a pool and a reset after which a pending list has a gap: the first of two mined transactions comes back, a third was pending |
| TxPools.TxPool.UpdateNonces | src/network/eth/core/tx_pool.go:404-412 | the tracked nonce is one past the last pending one |
| PoolSteps.ExecutableIsRun | src/network/eth/core/tx_pool.go:1087-1130 | what demotion leaves of a gap-free list is a run from the state nonce |
| PoolFairness.FairEarly | src/network/eth/core/tx_pool.go:984-1019 | fairness when the rounds stop at the total |
| PoolFairness.FairLate | src/network/eth/core/tx_pool.go:1020-1041 | fairness when the offenders are lowered to their slots |
| Balances.SumShift | src/network/eth/core/state_transition.go:152-165 | changing one balance changes the sum of all by as much |
| Balances.FinaliseKeepsBalances | src/network/eth/core/state/statedb.go:627-650 | ending a transaction changes no balance iff those who have suicided have none, and then keeps the sum |
| Balances.FinaliseKeepsNonces | src/network/eth/core/state/statedb.go:627-650 | without suicides it changes no nonce: an account with one is not empty |
| StateTransitions.IntrinsicGas | src/network/eth/core/state_transition.go:79-109 | the exact cost of the data, or an error exactly when it does not fit 64 bits |
| StateTransitions.IntrinsicBytes | src/network/eth/core/state_transition.go:79-109 | 21000 or 53000, and 4 more for every zero byte and 68 for every other |
| StateTransitions.GasPool.SubGas | src/network/eth/core/gaspool.go:39-45 | takes gas from the pool or fails exactly when there is too little |
| StateTransitions.StateTransition.BuyGas | src/network/eth/core/state_transition.go:152-165 | the whole gas is paid for and taken from the pool, or the exact reason why not |
| StateTransitions.StateTransition.PreCheck | src/network/eth/core/state_transition.go:167-178 | the nonce check before it, with both errors |
| StateTransitions.StateTransition.Call | src/network/eth/core/vm/evm.go:106-129 | depth and balance checks, account creation, and the value moved from sender to recipient; no account is replaced, so the trie can keep step |
| StateTransitions.StateTransition.RefundGas | src/network/eth/core/state_transition.go:226-241 | at most half of the gas used is refunded, and what remains is paid back and returned to the pool |
| StateTransitions.StateTransition.TransitionDb | src/network/eth/core/state_transition.go:183-224 | exactly when a message succeeds, that the recipient it names gains its value and the sender pays value and gas used, what every account gains or loses, that balances sum to the same, none becomes negative, and the pool loses exactly the gas used; otherwise which error it is, and that a refused message changes nothing but a later failure keeps the gas from pool and sender |
| StateTransitions.SettlementMeans | src/network/eth/core/state_transition.go:136-224 | who gains and who loses what, also where sender, recipient and coinbase are the same; without a recipient the zero address gains |
| StateTransitions.ChargedMeans | src/network/eth/core/state_transition.go:226-242 | the refund counts in full up to half the gas used, and no further |
| StateTransitions.ApplyTransaction | src/network/eth/core/state_processor.go:83-121 | the same for a transaction with its end, with every balance, the sender's nonce one higher, and gas and cumulative gas in the receipt; the trie is in step with the accounts afterwards if it was before |
| StateTransitions.Process | src/network/eth/core/state_processor.go:54-77 | gas used plus what is left in the pool is the block's limit, the sum of balances is that before the block, every account has what the messages come to and its nonce counts those it sent, and the trie keeps step |
| StateTransitions.NoReplay | src/network/eth/core/state_transition.go:167-181 | the checked messages of one sender in a processed block have ascending nonces, from its nonce before to below its nonce after |

## Left out

- Trie hashing, `Commit` of a trie, the cached hashes and dirty flags of nodes, and the iterator's `Hash`, `Parent` and `LeafProof`: node hashes appear only as references.
- TrieProof.VerifyProof: the count of nodes beside the value is not returned, and a node with an empty key is refused with the malformed ones, where the source goes on.
- Difference and union iterators, and a trie that is changed while it is iterated.
- Overflow of reference counters and blob sizes in the node cache, its preimages and its clean cache: the counters are unbounded, and reads go to `dirties` or the disk.
- TrieDatabase.Database.Dereference: the order in which a node's external children are visited is left open, as Go leaves map iteration open.
- StateDB errors from the database, `Commit`, `Copy`, `ForEachStorage`'s mixing of dirty slots into the iteration, and code loading from disk by size.
- StateDatabase.StateDB.Touch: the extra dirty count of the RIPEMD precompile is kept apart, and survives reverts as in the source.
- Clique's delays before sealing, its signatures, and the wrap-around of 64-bit timestamps.
- CliqueEngine.Clique.Prepare: the vanity bytes are not modelled; extra data is the list of signers between vanity and seal, or too short to hold one.
- `insertChain`, side chains, receipts and state commits inside `writeBlockWithState`, uncles, and future blocks.
- BlockChains.BlockChain.Reorg: transaction lookups are claimed only if no transaction occurs twice on one chain, which the source assumes too.
- `txPricedList` and its stale count: what it finds underpriced and gives up is a parameter of `Add`.
- Pool lifetimes, journals on disk, events and metrics.
- PriceMerge.TransactionsByPriceAndNonce.constructor: accounts are keyed by sender; for other keys the source adds entries to the map it iterates over, and Go leaves open whether it meets them again.
- TxPools.TxPool.Reset: which transactions a reorganisation dropped is a parameter. When runs survive a re-injection is stated while the pool is not full and the pending limit cuts nobody, as when all known and injected transactions fit the global slots; otherwise cutting transactions older than the new state can track a nonce below the state's.
- Contract code, contract creation and the interpreter: the source's `Call` has them removed. `StateTransitions.StateTransition.TransitionDb` charges data as for calls, as the source does.
- The discovery table's distance lists and buckets, and the Aura engine: easy members without state that spans operations.
- The event scheduler, latency, peers, downloader, configuration, metrics and RPC: effects around external libraries.
