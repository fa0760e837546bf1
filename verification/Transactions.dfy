/** Transactions, and an account's transactions as a list by ascending nonce. */
module Transactions {
  type Address = nat
  type Hash = nat

  datatype Tx = Tx(hash: Hash, sender: Address, nonce: nat, price: nat, gas: nat, value: nat) {
    function Cost(): nat {
      price * gas + value
    }
  }

  /** Transactions by account. */
  type Accounts = map<Address, seq<Tx>>

  function Left(lists: Accounts, a: Address): seq<Tx> {
    if a in lists then lists[a] else []
  }

  /** The places the transactions take, one each. */
  function Places(lists: Accounts): set<(Address, nat)> {
    set a, i: nat | a in lists && i < |lists[a]| :: (a, i)
  }

  predicate Ascending(s: seq<Tx>) {
    forall i, j :: 0 <= i < j < |s| ==> s[i].nonce < s[j].nonce
  }

  /** s lists the items of a nonce map in order. */
  ghost predicate Flattens(items: map<nat, Tx>, s: seq<Tx>) {
    && Ascending(s)
    && (forall i :: 0 <= i < |s| ==> s[i].nonce in items && items[s[i].nonce] == s[i])
    && (forall n: nat :: n in items ==> items[n].nonce == n && items[n] in s)
  }

  predicate GapFree(s: seq<Tx>) {
    forall i :: 0 <= i < |s| - 1 ==> s[i + 1].nonce == s[i].nonce + 1
  }

  /** The conditions transactions are picked by. */
  datatype Test =
    | Below(nonce: nat)
    | Above(nonce: nat)
    | With(nonce: nat)
    | Exceeding(costLimit: nat, gasLimit: nat)
    | Not(test: Test)

  predicate Meets(tx: Tx, p: Test) {
    match p
    case Below(n) => tx.nonce < n
    case Above(n) => tx.nonce > n
    case With(n) => tx.nonce == n
    case Exceeding(cost, gas) => tx.Cost() > cost || tx.gas > gas
    case Not(q) => !Meets(tx, q)
  }

  /** The transactions that meet the test, in order. */
  function Select(s: seq<Tx>, p: Test): seq<Tx> {
    if |s| == 0 then []
    else Select(s[..|s| - 1], p) + if Meets(s[|s| - 1], p) then [s[|s| - 1]] else []
  }

  lemma {:induction false} SelectMembers(s: seq<Tx>, p: Test)
    ensures forall tx :: tx in Select(s, p) <==> tx in s && Meets(tx, p)
    ensures |Select(s, p)| + |Select(s, Not(p))| == |s|
  {
    if |s| > 0 {
      SelectMembers(s[..|s| - 1], p);
      assert s == s[..|s| - 1] + [s[|s| - 1]];
    }
  }

  lemma {:induction false} SelectAscends(s: seq<Tx>, p: Test)
    requires Ascending(s)
    ensures Ascending(Select(s, p))
  {
    if |s| > 0 {
      var front := s[..|s| - 1];
      SelectAscends(front, p);
      SelectMembers(front, p);
      var r := Select(front, p);
      forall i | 0 <= i < |r|
        ensures r[i].nonce < s[|s| - 1].nonce
      {
        assert r[i] in r;
        assert r[i] in front;
      }
    }
  }

  /** Testing below a nonce cuts an ascending list in two. */
  lemma SelectBelow(s: seq<Tx>, n: nat, k: nat)
    requires Ascending(s) && k <= |s|
    requires forall i :: 0 <= i < k ==> s[i].nonce < n
    requires forall i :: k <= i < |s| ==> s[i].nonce >= n
    ensures Select(s, Below(n)) == s[..k] && Select(s, Not(Below(n))) == s[k..]
  {
    hide Select, Ascending;
    PartsAscend(s, k);
    forall tx
      ensures tx in s[..k] <==> tx in s && Meets(tx, Below(n))
      ensures tx in s[k..] <==> tx in s && Meets(tx, Not(Below(n)))
    {
      InOnePart(s, n, k, tx);
    }
    SelectIs(s, Below(n), s[..k]);
    SelectIs(s, Not(Below(n)), s[k..]);
  }

  lemma PartsAscend(s: seq<Tx>, k: nat)
    requires Ascending(s) && k <= |s|
    ensures Ascending(s[..k]) && Ascending(s[k..])
  {
  }

  lemma InOnePart(s: seq<Tx>, n: nat, k: nat, tx: Tx)
    requires k <= |s|
    requires forall i :: 0 <= i < k ==> s[i].nonce < n
    requires forall i :: k <= i < |s| ==> s[i].nonce >= n
    ensures tx in s[..k] <==> tx in s && tx.nonce < n
    ensures tx in s[k..] <==> tx in s && tx.nonce >= n
  {
    assert s == s[..k] + s[k..];
    if tx in s[..k] {
      var i :| 0 <= i < k && s[..k][i] == tx;
      assert s[i] == tx;
    }
    if tx in s[k..] {
      var i :| 0 <= i < |s| - k && s[k..][i] == tx;
      assert s[k + i] == tx;
    }
  }

  lemma SelectIs(s: seq<Tx>, p: Test, t: seq<Tx>)
    requires Ascending(s) && Ascending(t) && forall tx :: tx in t <==> tx in s && Meets(tx, p)
    ensures Select(s, p) == t
  {
    SelectMembers(s, p);
    SelectAscends(s, p);
    AscendingUnique(Select(s, p), t);
  }

  lemma {:induction false} SelectAll(s: seq<Tx>, p: Test)
    requires forall i :: 0 <= i < |s| ==> !Meets(s[i], p)
    ensures Select(s, Not(p)) == s
  {
    if |s| > 0 {
      SelectAll(s[..|s| - 1], p);
      MeetsNot(p);
    }
  }

  lemma MeetsNot(p: Test)
    ensures forall tx {:trigger Meets(tx, Not(p))} :: Meets(tx, Not(p)) <==> !Meets(tx, p)
  {
  }

  /** A list with the new transaction in the place of its nonce. */
  function Placed(s: seq<Tx>, tx: Tx): seq<Tx> {
    Select(s, Below(tx.nonce)) + [tx] + Select(s, Above(tx.nonce))
  }

  lemma PlacedAscends(s: seq<Tx>, tx: Tx)
    requires Ascending(s)
    ensures Ascending(Placed(s, tx))
    ensures forall t :: t in Placed(s, tx) <==> t == tx || (t in s && t.nonce != tx.nonce)
  {
    var a, b := Select(s, Below(tx.nonce)), Select(s, Above(tx.nonce));
    SelectMembers(s, Below(tx.nonce));
    SelectMembers(s, Above(tx.nonce));
    SelectAscends(s, Below(tx.nonce));
    SelectAscends(s, Above(tx.nonce));
    AscendingAround(a, tx, b);
    forall t
      ensures t in a + [tx] + b <==> t in a || t == tx || t in b
    {
    }
  }

  lemma AscendingAround(a: seq<Tx>, tx: Tx, b: seq<Tx>)
    requires Ascending(a) && Ascending(b)
    requires (forall t :: t in a ==> t.nonce < tx.nonce) && forall t :: t in b ==> t.nonce > tx.nonce
    ensures Ascending(a + [tx] + b)
  {
    assert forall i :: 0 <= i < |a| ==> a[i] in a;
    assert forall i :: 0 <= i < |b| ==> b[i] in b;
  }

  /** How many of the first transactions have consecutive nonces. */
  function RunLength(s: seq<Tx>): nat
    ensures RunLength(s) <= |s|
  {
    if |s| <= 1 then |s|
    else if s[1].nonce == s[0].nonce + 1 then 1 + RunLength(s[1..]) else 1
  }

  /** How many Ready takes. */
  function ReadyLength(s: seq<Tx>, start: nat): nat
    ensures ReadyLength(s, start) <= |s|
  {
    if |s| == 0 || s[0].nonce > start then 0 else RunLength(s)
  }

  lemma {:induction false} RunIsGapFree(s: seq<Tx>)
    ensures GapFree(s[..RunLength(s)])
    ensures 0 < RunLength(s) < |s| ==> s[RunLength(s)].nonce != s[RunLength(s) - 1].nonce + 1
  {
    if |s| > 1 && s[1].nonce == s[0].nonce + 1 {
      RunIsGapFree(s[1..]);
      var r, t := s[..RunLength(s)], s[1..];
      assert forall i :: 1 <= i < |r| ==> r[i] == t[i - 1];
    }
  }

  /** Ready takes nothing exactly if the first nonce lies past the start; else the nonces that
      count up from the first, to the first that is missing. */
  lemma {:induction false} ReadyCounts(s: seq<Tx>, start: nat)
    ensures var k := ReadyLength(s, start);
            && (k == 0 <==> |s| == 0 || s[0].nonce > start)
            && (forall i :: 0 <= i < k ==> s[i].nonce == s[0].nonce + i)
            && (0 < k < |s| ==> s[k].nonce != s[0].nonce + k)
  {
    if |s| > 1 && s[0].nonce <= start && s[1].nonce == s[0].nonce + 1 {
      ReadyCounts(s[1..], s[1].nonce);
      assert forall i :: 1 <= i < ReadyLength(s, start) ==> s[i] == s[1..][i - 1];
    }
  }

  /** Ascending lists with the same members are the same. */
  lemma {:induction false} AscendingUnique(s: seq<Tx>, t: seq<Tx>)
    requires Ascending(s) && Ascending(t) && forall tx :: tx in s <==> tx in t
    ensures s == t
    decreases |s|
  {
    if |s| == 0 {
      HasMember(t);
    } else {
      assert s[|s| - 1] in t && t[|t| - 1] in s;
      var x, y := s[..|s| - 1], t[..|t| - 1];
      assert s[|s| - 1] == t[|t| - 1];
      forall tx
        ensures tx in x <==> tx in y
      {
        FrontMembers(s, tx);
        FrontMembers(t, tx);
      }
      AscendingUnique(x, y);
      assert s == x + [s[|s| - 1]] && t == y + [t[|t| - 1]];
    }
  }

  lemma HasMember(t: seq<Tx>)
    ensures |t| > 0 ==> exists tx :: tx in t
  {
    if |t| > 0 {
      assert t[0] in t;
    }
  }

  lemma HasKey(items: map<nat, Tx>)
    ensures |items| > 0 ==> exists n: nat :: n in items
  {
    if forall n: nat :: n !in items {
      assert items == map[];
    }
  }

  lemma FrontMembers(s: seq<Tx>, tx: Tx)
    requires Ascending(s) && |s| > 0
    ensures tx in s[..|s| - 1] <==> tx in s && tx != s[|s| - 1]
  {
    var front := s[..|s| - 1];
    assert s == front + [s[|s| - 1]];
    if tx in front {
      var i :| 0 <= i < |front| && front[i] == tx;
      assert s[i].nonce < s[|s| - 1].nonce;
    }
  }

  lemma {:induction false} FlattenSize(items: map<nat, Tx>, s: seq<Tx>)
    requires Flattens(items, s)
    ensures |s| == |items|
  {
    if |s| == 0 {
      HasKey(items);
    } else {
      var last := s[|s| - 1];
      var rest := items - {last.nonce};
      DropLast(items, s);
      FlattenSize(rest, s[..|s| - 1]);
      SizeWithout(items, last.nonce);
    }
  }

  lemma SizeWithout(items: map<nat, Tx>, n: nat)
    requires n in items
    ensures |items - {n}| == |items| - 1
  {
    assert (items - {n}).Keys == items.Keys - {n};
  }

  lemma DropLast(items: map<nat, Tx>, s: seq<Tx>)
    requires Flattens(items, s) && |s| > 0
    ensures Flattens(items - {s[|s| - 1].nonce}, s[..|s| - 1])
  {
    var last := s[|s| - 1];
    var rest := items - {last.nonce};
    forall n: nat | n in rest
      ensures rest[n] in s[..|s| - 1]
    {
      FrontMembers(s, items[n]);
    }
  }

  /** A part of the items, and the part of the list that shows it. */
  lemma FlattenPart(items: map<nat, Tx>, s: seq<Tx>, part: map<nat, Tx>, t: seq<Tx>)
    requires Flattens(items, s) && Ascending(t)
    requires forall n: nat :: n in part ==> n in items && part[n] == items[n]
    requires forall tx :: tx in t <==> tx in s && tx.nonce in part
    ensures Flattens(part, t)
  {
    forall i | 0 <= i < |t|
      ensures t[i].nonce in part && part[t[i].nonce] == t[i]
    {
      assert t[i] in t;
    }
    forall n: nat | n in part
      ensures part[n].nonce == n && part[n] in t
    {
      assert items[n].nonce == n;
    }
  }

  function NonceOf(tx: Tx): int {
    tx.nonce
  }

  function Itself(n: nat): int {
    n
  }

  predicate SortedBy<T>(s: seq<T>, key: T -> int) {
    forall i, j :: 0 <= i < j < |s| ==> key(s[i]) <= key(s[j])
  }

  method Insert<T>(s: seq<T>, key: T -> int, x: T) returns (r: seq<T>)
    requires SortedBy(s, key)
    ensures SortedBy(r, key) && multiset(r) == multiset(s) + multiset{x}
  {
    var i := 0;
    while i < |s| && key(s[i]) <= key(x)
      invariant 0 <= i <= |s|
      invariant forall j :: 0 <= j < i ==> key(s[j]) <= key(x)
    {
      i := i + 1;
    }
    Inserted(s, key, x, i);
    r := s[..i] + [x] + s[i..];
  }

  lemma Inserted<T>(s: seq<T>, key: T -> int, x: T, i: nat)
    requires SortedBy(s, key) && i <= |s|
    requires (forall j :: 0 <= j < i ==> key(s[j]) <= key(x)) && (i < |s| ==> key(x) < key(s[i]))
    ensures SortedBy(s[..i] + [x] + s[i..], key)
    ensures multiset(s[..i] + [x] + s[i..]) == multiset(s) + multiset{x}
  {
    var r := s[..i] + [x] + s[i..];
    forall j, k | 0 <= j < k < |r|
      ensures key(r[j]) <= key(r[k])
    {
      InsertedAt(s, x, i, j);
      InsertedAt(s, x, i, k);
    }
    InsertedMembers(s, x, i);
  }

  lemma InsertedAt<T>(s: seq<T>, x: T, i: nat, j: nat)
    requires i <= |s| && j <= |s|
    ensures (s[..i] + [x] + s[i..])[j] == if j < i then s[j] else if j == i then x else s[j - 1]
  {
  }

  lemma InsertedMembers<T>(s: seq<T>, x: T, i: nat)
    requires i <= |s|
    ensures multiset(s[..i] + [x] + s[i..]) == multiset(s) + multiset{x}
  {
    assert s == s[..i] + s[i..];
  }

  /** sort.Sort, as insertion sort. */
  method Sort<T>(s: seq<T>, key: T -> int) returns (r: seq<T>)
    ensures multiset(r) == multiset(s) && SortedBy(r, key)
  {
    r := [];
    for k := 0 to |s|
      invariant multiset(r) == multiset(s[..k]) && SortedBy(r, key)
    {
      assert s[..k + 1] == s[..k] + [s[k]];
      r := Insert(r, key, s[k]);
    }
    assert s[..|s|] == s;
  }
}
