/** The key-value iterator over a trie: the leaves of the node iteration, as byte keys. */
module LeafIterator {
  import opened Wrappers
  import opened Encoding
  import opened Patricia
  import opened TrieMap
  import opened Trie
  import opened TrieOrder
  import opened TrieIterator

  /** Terminated visits are values, and a trie of byte keys has them at byte keys only. */
  lemma LeafVisit(t: Node, m: map<Bytes, Bytes>, i: nat)
    requires Holds(t, m) && i < |AllVisits(t)| && HasTerm(AllVisits(t)[i].path)
    ensures var x := AllVisits(t)[i];
            && IsTerminated(x.path) && |x.path| % 2 == 1 && x.node.Value?
            && forall key :: KeyHex(key) == x.path ==> key in m && m[key] == x.node.v
  {
    var x := AllVisits(t)[i];
    assert i > 0;
    LeafPathsBelow(t, -1, [], i - 1);
    LeafIsEntry(t, i);
    forall key | KeyHex(key) == x.path
      ensures key in m && m[key] == x.node.v
    {
      assert Find(t, KeyHex(key)) == Lookup(m, key);
    }
  }

  lemma LeafIsEntry(t: Node, i: nat)
    requires Canon(t) && i < |AllVisits(t)| && IsTerminated(AllVisits(t)[i].path) && AllVisits(t)[i].node.Value?
    ensures Find(t, AllVisits(t)[i].path) == Some(AllVisits(t)[i].node.v)
  {
    var x := AllVisits(t)[i];
    assert AllVisits(t)[i] == Visit(x.path, Value(x.node.v));
    assert Has(AllVisits(t), x.path, x.node.v);
    LeavesAreEntries(t, x.path, x.node.v);
  }

  /** No visit in between is a leaf, except what a seek passes over. */
  ghost predicate Barren(vs: seq<Visit>, lo: nat, hi: nat, seeking: Option<seq<Nib>>) {
    hi <= |vs| && forall i :: lo <= i < hi && HasTerm(vs[i].path) ==> seeking.Some? && Before(vs[i].path, seeking.value)
  }

  function Sought(err: Status): Option<seq<Nib>> {
    if err.SeekFailed? then Some(SeekKey(err.start)) else None
  }

  /** Progress of one Next: no leaf passed, and once a seek is over nothing before its key. */
  ghost predicate Passing(vs: seq<Visit>, lo: nat, seen: nat, more: bool, seeking: Option<seq<Nib>>) {
    if more then
      && lo < seen <= |vs| && Barren(vs, lo, seen - 1, seeking)
      && (seeking.Some? ==> forall i :: seen - 1 <= i < |vs| ==> !Before(vs[i].path, seeking.value))
    else Barren(vs, lo, seen, seeking)
  }

  lemma FirstPassing(t: Node, lo: nat, seen: nat, more: bool, seeking: Option<seq<Nib>>)
    requires Canon(t) && lo <= seen <= |AllVisits(t)| && (more ==> lo < seen)
    requires seeking.None? ==> seen == lo + if more then 1 else 0
    requires seeking.Some? ==>
      && BeforeAll(AllVisits(t), 0, if more then seen - 1 else seen, seeking.value)
      && (more ==> !Before(AllVisits(t)[seen - 1].path, seeking.value))
    ensures Passing(AllVisits(t), lo, seen, more, seeking)
  {
    AllVisitsSorted(t);
    if more && seeking.Some? {
      PastAll(AllVisits(t), seen - 1, seeking.value);
    }
  }

  lemma NextPassing(vs: seq<Visit>, lo: nat, seen: nat, more: bool, seeking: Option<seq<Nib>>)
    requires 0 < seen <= |vs| && Passing(vs, lo, seen, true, seeking) && !HasTerm(vs[seen - 1].path)
    requires more ==> seen < |vs|
    ensures Passing(vs, lo, seen + (if more then 1 else 0), more, seeking)
  {
  }

  lemma PassedLeaf(vs: seq<Visit>, lo: nat, seen: nat, seeking: Option<seq<Nib>>)
    requires Passing(vs, lo, seen, true, seeking)
    ensures lo < seen <= |vs| && Barren(vs, lo, seen - 1, seeking)
    ensures seeking.Some? ==> !Before(vs[seen - 1].path, seeking.value)
  {
  }

  lemma PassedAll(vs: seq<Visit>, lo: nat, seen: nat, seeking: Option<seq<Nib>>)
    requires Passing(vs, lo, seen, false, seeking)
    ensures Barren(vs, lo, seen, seeking)
  {
  }

  lemma HoldsCanon(t: Node, m: map<Bytes, Bytes>)
    requires Holds(t, m)
    ensures Canon(t)
  {
  }

  lemma HereIsValue(all: Store, n: Node, t: Node)
    requires Expands(all, n, t) && t.Value?
    ensures n == t
  {
  }

  class Iterator {
    const nodeIt: NodeIterator
    ghost const m: map<Bytes, Bytes>
    var key: Bytes
    var value: Bytes
    var err: Status

    ghost predicate Valid()
      reads this, nodeIt
    {
      nodeIt.Valid() && Holds(nodeIt.full, m)
    }

    constructor (nodeIt: NodeIterator, ghost m: map<Bytes, Bytes>)
      requires nodeIt.Valid() && Holds(nodeIt.full, m)
      ensures Valid() && this.nodeIt == nodeIt && this.m == m
    {
      this.nodeIt, this.m := nodeIt, m;
      key, value, err := [], [], Fine;
    }

    /** Moves to the next leaf. */
    method Next() returns (ok: bool)
      requires Valid()
      modifies this, nodeIt
      ensures Valid() && nodeIt.seen >= old(nodeIt.seen)
      ensures ok ==>
        && nodeIt.seen > old(nodeIt.seen) && nodeIt.err.Fine?
        && AllVisits(nodeIt.full)[nodeIt.seen - 1] == Visit(KeyHex(key), Value(value))
        && key in m && m[key] == value
        && (old(nodeIt.err.SeekFailed?) ==> !Before(KeyHex(key), SeekKey(old(nodeIt.err).start)))
      ensures !ok ==> key == [] && value == [] && err == nodeIt.err && !err.Fine?
      ensures !ok && !err.End? ==> err.hash !in nodeIt.db
      ensures old(nodeIt.err.End?) ==> err.End? && !ok
      ensures old(nodeIt.err.SeekFailed?) || !old(nodeIt.err.End?) ==>
        Barren(AllVisits(nodeIt.full), old(nodeIt.seen), if ok then nodeIt.seen - 1 else nodeIt.seen, Sought(old(nodeIt.err)))
    {
      hide Stacked, Rest, Expands, Canon, AllVisits, Visits, Shape, Sorted, Before, BeforeAll, Seeking, Below, ShapeStore,
           Holds, Barren, Passing, KeyHex, IsTerminated, NodeIterator.Valid, NodeIterator.Placed, NodeIterator.At;
      ghost var vs, seen0, sought := AllVisits(nodeIt.full), nodeIt.seen, Sought(nodeIt.err);
      ghost var over := nodeIt.err.End?;
      var more := nodeIt.Next(true);
      if !over {
        HoldsCanon(nodeIt.full, m);
        FirstPassing(nodeIt.full, seen0, nodeIt.seen, more, sought);
      }
      while more
        invariant nodeIt.err.Missing? || nodeIt.err.SeekFailed? ==> nodeIt.err.hash !in nodeIt.db
        invariant over ==> nodeIt.err.End?
        invariant Valid() && nodeIt.seen >= seen0 && (more <==> nodeIt.err.Fine?) && (over ==> !more)
        invariant more ==> nodeIt.seen > seen0 && nodeIt.Here(nodeIt.seen - 1)
        invariant !over ==> Passing(vs, seen0, nodeIt.seen, more, sought)
        decreases |vs| - nodeIt.seen, more
      {
        if HasTerm(nodeIt.path) {
          PassedLeaf(vs, seen0, nodeIt.seen, sought);
          LeafVisit(nodeIt.full, m, nodeIt.seen - 1);
          HereIsValue(nodeIt.all, nodeIt.stack[|nodeIt.stack| - 1].node, vs[nodeIt.seen - 1].node);
          key, value := ReadLeaf();
          assert vs[nodeIt.seen - 1] == Visit(KeyHex(key), Value(value));
          return true;
        }
        ghost var seen := nodeIt.seen;
        more := nodeIt.Next(true);
        NextPassing(vs, seen0, seen, more, sought);
      }
      if !over {
        PassedAll(vs, seen0, nodeIt.seen, sought);
      }
      key, value, err := [], [], nodeIt.err;
      return false;
    }

    /** LeafKey and LeafBlob; the source panics away from a leaf. */
    method ReadLeaf() returns (k: Bytes, v: Bytes)
      requires |nodeIt.stack| > 0 && nodeIt.stack[|nodeIt.stack| - 1].node.Value?
      requires IsTerminated(nodeIt.path) && |nodeIt.path| % 2 == 1
      ensures KeyHex(k) == nodeIt.path && Value(v) == nodeIt.stack[|nodeIt.stack| - 1].node
    {
      var bytes := HexToKeybytes(nodeIt.path);
      k, v := bytes[..], nodeIt.stack[|nodeIt.stack| - 1].node.v;
      assert KeyHex(k) == nodeIt.path;
    }
  }

  // ----- a whole iteration -----

  /** The entries read so far are the leaves at or past the key among the first `seen` visits. */
  ghost predicate Listed(vs: seq<Visit>, entries: seq<(Bytes, Bytes)>, at: seq<nat>, seen: nat, from: seq<Nib>) {
    && |at| == |entries| && seen <= |vs|
    && (forall i, j :: 0 <= i < j < |at| ==> at[i] < at[j])
    && (forall j :: 0 <= j < |at| ==>
      && at[j] < seen && !Before(vs[at[j]].path, from)
      && vs[at[j]] == Visit(KeyHex(entries[j].0), Value(entries[j].1)))
    && (forall i :: 0 <= i < seen && HasTerm(vs[i].path) && !Before(vs[i].path, from) ==> i in at)
  }

  lemma ListedNext(vs: seq<Visit>, entries: seq<(Bytes, Bytes)>, at: seq<nat>, lo: nat, seen: nat, from: seq<Nib>,
                   e: (Bytes, Bytes), seeking: Option<seq<Nib>>)
    requires Listed(vs, entries, at, lo, from) && lo < seen <= |vs|
    requires Barren(vs, lo, seen - 1, seeking) && (seeking.Some? ==> seeking.value == from)
    requires vs[seen - 1] == Visit(KeyHex(e.0), Value(e.1)) && !Before(vs[seen - 1].path, from)
    ensures Listed(vs, entries + [e], at + [seen - 1], seen, from)
  {
  }

  lemma ListedEnd(vs: seq<Visit>, entries: seq<(Bytes, Bytes)>, at: seq<nat>, lo: nat, seen: nat, from: seq<Nib>,
                  seeking: Option<seq<Nib>>)
    requires Listed(vs, entries, at, lo, from) && lo <= seen
    requires Barren(vs, lo, seen, seeking) && (seeking.Some? ==> seeking.value == from)
    ensures Listed(vs, entries, at, seen, from)
  {
  }

  /** The entries of a map at or past a key, each once, in ascending order of their paths. */
  ghost predicate Enumerates(entries: seq<(Bytes, Bytes)>, m: map<Bytes, Bytes>, from: seq<Nib>) {
    && (forall i, j :: 0 <= i < j < |entries| ==> Before(KeyHex(entries[i].0), KeyHex(entries[j].0)))
    && (forall j :: 0 <= j < |entries| ==> entries[j].0 in m && m[entries[j].0] == entries[j].1 && !Before(KeyHex(entries[j].0), from))
    && (forall k :: k in m && !Before(KeyHex(k), from) ==> (k, m[k]) in entries)
  }

  lemma ListedEnumerates(t: Node, m: map<Bytes, Bytes>, entries: seq<(Bytes, Bytes)>, at: seq<nat>, from: seq<Nib>)
    requires Holds(t, m) && Listed(AllVisits(t), entries, at, |AllVisits(t)|, from)
    ensures Enumerates(entries, m, from)
  {
    var vs := AllVisits(t);
    AllVisitsSorted(t);
    forall j | 0 <= j < |entries|
      ensures entries[j].0 in m && m[entries[j].0] == entries[j].1 && !Before(KeyHex(entries[j].0), from)
    {
      assert vs[at[j]].path == KeyHex(entries[j].0);
      LeafVisit(t, m, at[j]);
    }
    forall i, j | 0 <= i < j < |entries|
      ensures Before(KeyHex(entries[i].0), KeyHex(entries[j].0))
    {
      assert Before(vs[at[i]].path, vs[at[j]].path);
    }
    forall k | k in m && !Before(KeyHex(k), from)
      ensures (k, m[k]) in entries
    {
      EntryListed(t, m, entries, at, from, k);
    }
  }

  lemma EntryListed(t: Node, m: map<Bytes, Bytes>, entries: seq<(Bytes, Bytes)>, at: seq<nat>, from: seq<Nib>, k: Bytes)
    requires Holds(t, m) && Listed(AllVisits(t), entries, at, |AllVisits(t)|, from)
    requires k in m && !Before(KeyHex(k), from)
    ensures (k, m[k]) in entries
  {
    var vs := AllVisits(t);
    KeyHexInjective(k, k);
    LeavesAreEntries(t, KeyHex(k), m[k]);
    assert Find(t, KeyHex(k)) == Lookup(m, k);
    var i :| 0 <= i < |vs| && vs[i] == Visit(KeyHex(k), Value(m[k]));
    assert i in at;
    var j :| 0 <= j < |at| && at[j] == i;
    KeyHexInjective(k, entries[j].0);
    assert entries[j] == (k, m[k]);
  }

  /** One Next of a whole iteration. */
  method Read(it: Iterator, ghost entries: seq<(Bytes, Bytes)>, ghost at: seq<nat>, start: Bytes)
    returns (more: bool, ghost at': seq<nat>)
    requires it.Valid() && Ready(AllVisits(it.nodeIt.full), entries, at, it.nodeIt.seen, it.nodeIt.err, start)
    modifies it, it.nodeIt
    ensures it.Valid() && old(it.nodeIt.seen) <= it.nodeIt.seen
    ensures more ==> old(it.nodeIt.seen) < it.nodeIt.seen <= |AllVisits(it.nodeIt.full)|
    ensures more ==> Ready(AllVisits(it.nodeIt.full), entries + [(it.key, it.value)], at', it.nodeIt.seen, it.nodeIt.err, start)
    ensures !more && it.err.End? ==> Listed(AllVisits(it.nodeIt.full), entries, at', |AllVisits(it.nodeIt.full)|, SeekKey(start))
    ensures !more && !it.err.End? ==> (it.err.Missing? || it.err.SeekFailed?) && it.err.hash !in it.nodeIt.db
  {
    hide Stacked, Rest, Expands, Canon, AllVisits, Visits, Shape, Sorted, Before, BeforeAll, Seeking, Below, ShapeStore,
         Holds, Barren, Listed;
    ghost var vs, lo, err := AllVisits(it.nodeIt.full), it.nodeIt.seen, it.nodeIt.err;
    HoldsCanon(it.nodeIt.full, it.m);
    more := it.Next();
    at' := at;
    if more {
      at' := at + [it.nodeIt.seen - 1];
      ReadyNext(it.nodeIt.full, entries, at, lo, it.nodeIt.seen, err, start, (it.key, it.value));
    } else if it.err.End? {
      ReadyEnd(vs, entries, at, lo, it.nodeIt.seen, err, start);
    }
  }

  /** Iterating from a start key to the end reads exactly the map's entries from there on. */
  method Collect(db: Store, root: Node, start: Bytes, ghost all: Store, ghost full: Node, ghost m: map<Bytes, Bytes>)
    returns (entries: seq<(Bytes, Bytes)>, err: Status)
    requires ShapeStore(all) && (forall h :: h in db ==> h in all && db[h] == all[h])
    requires Holds(full, m) && Expands(all, root, full)
    ensures err.End? ==> Enumerates(entries, m, SeekKey(start))
    ensures !err.End? ==> (err.Missing? || err.SeekFailed?) && err.hash !in db
  {
    hide Stacked, Rest, Expands, Canon, AllVisits, Visits, Shape, Sorted, Before, BeforeAll, Seeking, Below, ShapeStore,
         Holds, Barren, Listed, Ready, Enumerates;
    HoldsCanon(full, m);
    var nodeIt := new NodeIterator(db, root, start, all, full);
    var it := new Iterator(nodeIt, m);
    entries := [];
    ghost var vs, at := AllVisits(full), [];
    var more;
    NothingListed(vs, nodeIt.seen, nodeIt.err, start);
    more, at := Read(it, entries, at, start);
    while more
      invariant it.Valid() && it.nodeIt == nodeIt && it.m == m && fresh(nodeIt) && fresh(it)
      invariant more ==> nodeIt.seen <= |vs| && Ready(vs, entries + [(it.key, it.value)], at, nodeIt.seen, nodeIt.err, start)
      invariant !more && it.err.End? ==> Listed(vs, entries, at, |vs|, SeekKey(start))
      invariant !more && !it.err.End? ==> (it.err.Missing? || it.err.SeekFailed?) && it.err.hash !in db
      decreases |vs| - nodeIt.seen, more
    {
      entries := entries + [(it.key, it.value)];
      more, at := Read(it, entries, at, start);
    }
    if it.err.End? {
      ListedEnumerates(full, m, entries, at, SeekKey(start));
    }
    err := it.err;
  }

  /** What has been read, and what the node iterator says about the rest. */
  ghost predicate Ready(vs: seq<Visit>, entries: seq<(Bytes, Bytes)>, at: seq<nat>, seen: nat, err: Status, start: Bytes) {
    && Listed(vs, entries, at, seen, SeekKey(start))
    && (err.End? ==> seen == |vs|)
    && (err.Fine? ==> forall i :: seen <= i < |vs| ==> !Before(vs[i].path, SeekKey(start)))
    && (err.SeekFailed? ==> err.start == start)
    && !err.Missing?
  }

  lemma NothingListed(vs: seq<Visit>, seen: nat, err: Status, start: Bytes)
    requires BeforeAll(vs, 0, seen, SeekKey(start)) && (err.End? ==> seen == |vs|)
    requires err.Fine? || err.End? ==> forall i :: seen <= i < |vs| ==> !Before(vs[i].path, SeekKey(start))
    requires err.Fine? || err.End? || (err.SeekFailed? && err.start == start)
    ensures Ready(vs, [], [], seen, err, start)
  {
  }

  lemma ReadyNext(t: Node, entries: seq<(Bytes, Bytes)>, at: seq<nat>, lo: nat, seen: nat, err: Status, start: Bytes, e: (Bytes, Bytes))
    requires var vs := AllVisits(t);
             && Canon(t) && Ready(vs, entries, at, lo, err, start) && !err.End? && lo < seen <= |vs|
             && Barren(vs, lo, seen - 1, Sought(err))
             && vs[seen - 1] == Visit(KeyHex(e.0), Value(e.1))
             && (err.SeekFailed? ==> !Before(KeyHex(e.0), SeekKey(err.start)))
    ensures Ready(AllVisits(t), entries + [e], at + [seen - 1], seen, Fine, start)
  {
    var vs := AllVisits(t);
    ListedNext(vs, entries, at, lo, seen, SeekKey(start), e, Sought(err));
    AllVisitsSorted(t);
    PastAll(vs, seen - 1, SeekKey(start));
  }

  lemma ReadyEnd(vs: seq<Visit>, entries: seq<(Bytes, Bytes)>, at: seq<nat>, lo: nat, seen: nat, err: Status, start: Bytes)
    requires Ready(vs, entries, at, lo, err, start) && lo <= seen == |vs|
    requires !err.End? ==> Barren(vs, lo, seen, Sought(err))
    ensures Listed(vs, entries, at, |vs|, SeekKey(start))
  {
    if !err.End? {
      ListedEnd(vs, entries, at, lo, seen, SeekKey(start), Sought(err));
    }
  }

  // ----- what seeking means for the keys -----

  predicate BytesBefore(a: Bytes, b: Bytes) {
    |b| > 0 && (|a| == 0 || a[0] < b[0] || (a[0] == b[0] && BytesBefore(a[1..], b[1..])))
  }

  /** A key passes the start of a seek exactly if it is not below it as bytes, or is a proper
      prefix of it: the terminator sorts above every nibble. */
  lemma {:induction false} SeekOrder(k: Bytes, start: Bytes)
    ensures !Before(KeyHex(k), SeekKey(start)) <==> !BytesBefore(k, start) || (k <= start && k != start)
  {
    if |k| > 0 && |start| > 0 {
      SeekOrder(k[1..], start[1..]);
      assert KeyHex(k) == [Hi(k[0]), Lo(k[0])] + KeyHex(k[1..]);
      assert SeekKey(start) == [Hi(start[0]), Lo(start[0])] + SeekKey(start[1..]);
      TwoSteps(KeyHex(k), SeekKey(start));
      JoinHiLo(k[0]);
      JoinHiLo(start[0]);
      assert k == [k[0]] + k[1..] && start == [start[0]] + start[1..];
    }
  }

  lemma TwoSteps(a: seq<Nib>, b: seq<Nib>)
    requires |a| >= 2 && |b| >= 2
    ensures Before(a, b) <==> a[0] < b[0] || (a[0] == b[0] && (a[1] < b[1] || (a[1] == b[1] && Before(a[2..], b[2..]))))
  {
    assert a[1..][1..] == a[2..] && b[1..][1..] == b[2..];
  }
}
