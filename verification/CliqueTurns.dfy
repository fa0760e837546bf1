/** In-turn signing: the signers in ascending order take the blocks by turns. */
module CliqueTurns {
  import opened CliqueVoting

  function Below(signers: set<Address>, a: Address): set<Address> {
    set x | x in signers && x < a
  }

  /** The signer whose rank is the block number modulo the number of signers. */
  predicate InTurn(signers: set<Address>, number: nat, a: Address)
    requires signers != {}
  {
    a in signers && number % |signers| == |Below(signers, a)|
  }

  predicate Ascending(s: seq<Address>) {
    forall i, j :: 0 <= i < j < |s| ==> s[i] < s[j]
  }

  function Members(s: seq<Address>): set<Address> {
    set a | a in s
  }

  lemma {:induction false} AscendingSize(s: seq<Address>)
    requires Ascending(s)
    ensures |Members(s)| == |s|
  {
    if |s| == 0 {
      assert Members(s) == {};
    } else {
      var front, last := s[..|s| - 1], s[|s| - 1];
      AscendingSize(front);
      assert Members(s) == Members(front) + {last};
      assert last !in Members(front);
    }
  }

  /** The position in the sorted list is the number of smaller signers. */
  lemma RankIsPosition(s: seq<Address>, i: nat)
    requires Ascending(s) && i < |s|
    ensures |Below(Members(s), s[i])| == i
  {
    AscendingSize(s[..i]);
    assert Below(Members(s), s[i]) == Members(s[..i]);
  }

  lemma {:induction false} Least(s: set<Address>) returns (m: Address)
    requires s != {}
    ensures m in s && forall x :: x in s ==> m <= x
  {
    m :| m in s;
    if s != {m} {
      var rest := s - {m};
      var other := Least(rest);
      assert forall x :: x in s ==> x == m || x in rest;
      if other < m {
        m := other;
      }
    }
  }

  lemma EmptyAscends()
    ensures Ascending([]) && Members([]) == {}
  {
  }

  lemma AscendingSnoc(s: seq<Address>, a: Address)
    requires Ascending(s) && forall x :: x in Members(s) ==> x < a
    ensures Ascending(s + [a]) && Members(s + [a]) == Members(s) + {a}
  {
    assert forall i :: 0 <= i < |s| ==> s[i] in Members(s);
  }

  /** signers: the authorized signers in ascending order. */
  method Sorted(signers: set<Address>) returns (sigs: seq<Address>)
    ensures Ascending(sigs) && Members(sigs) == signers && |sigs| == |signers|
  {
    hide Ascending, Members;
    sigs := [];
    EmptyAscends();
    var rest := signers;
    while rest != {}
      invariant Members(sigs) + rest == signers && Ascending(sigs)
      invariant forall x, y :: x in Members(sigs) && y in rest ==> x < y
      decreases rest
    {
      ghost var m := Least(rest);
      var least :| least in rest && forall x :: x in rest ==> least <= x;
      AscendingSnoc(sigs, least);
      sigs := sigs + [least];
      rest := rest - {least};
    }
    AscendingSize(sigs);
  }

  /** inturn. */
  method IsInTurn(signers: set<Address>, number: nat, signer: Address) returns (r: bool)
    requires signers != {}
    ensures r == InTurn(signers, number, signer)
    ensures forall sigs :: Ascending(sigs) && Members(sigs) == signers && sigs != [] ==> (r <==> signer == sigs[number % |sigs|])
  {
    forall sigs | Ascending(sigs) && Members(sigs) == signers && sigs != []
      ensures InTurn(signers, number, signer) <==> signer == sigs[number % |sigs|]
    {
      TurnByPosition(sigs, number, signer);
    }
    var sigs := Sorted(signers);
    var offset := 0;
    while offset < |sigs| && sigs[offset] != signer
      invariant 0 <= offset <= |sigs|
      invariant forall i :: 0 <= i < offset ==> sigs[i] != signer
    {
      offset := offset + 1;
    }
    if offset < |sigs| {
      RankIsPosition(sigs, offset);
      assert signer in Members(sigs);
    } else {
      assert signer !in Members(sigs);
    }
    return number % |sigs| == offset;
  }

  /** In turn is the signer at the block number's place, counted round and round. */
  lemma TurnByPosition(sigs: seq<Address>, number: nat, a: Address)
    requires Ascending(sigs) && sigs != []
    ensures Members(sigs) != {} && (InTurn(Members(sigs), number, a) <==> a == sigs[number % |sigs|])
  {
    AscendingSize(sigs);
    assert sigs[0] in Members(sigs);
    RankIsPosition(sigs, number % |sigs|);
    assert sigs[number % |sigs|] in Members(sigs);
    if a in Members(sigs) {
      var i :| 0 <= i < |sigs| && sigs[i] == a;
      RankIsPosition(sigs, i);
    }
  }

  /** Every block has exactly one signer in turn. */
  lemma OneInTurn(signers: set<Address>, number: nat) returns (a: Address)
    requires signers != {}
    ensures InTurn(signers, number, a)
    ensures forall b :: InTurn(signers, number, b) ==> b == a
  {
    var sigs := SortedExists(signers);
    var k := number % |signers|;
    a := sigs[k];
    RankIsPosition(sigs, k);
    forall b | InTurn(signers, number, b)
      ensures b == a
    {
      assert b in Members(sigs);
      var i :| 0 <= i < |sigs| && sigs[i] == b;
      RankIsPosition(sigs, i);
    }
  }

  /** And every signer has exactly one turn in N blocks in a row. */
  lemma OneTurnPerRound(signers: set<Address>, a: Address, first: nat) returns (number: nat)
    requires a in signers
    ensures first <= number < first + |signers| && InTurn(signers, number, a)
    ensures forall m :: first <= m < first + |signers| && InTurn(signers, m, a) ==> m == number
  {
    var sigs := SortedExists(signers);
    assert a in Members(sigs);
    var r :| 0 <= r < |sigs| && sigs[r] == a;
    RankIsPosition(sigs, r);
    var n, q := |signers|, first % |signers|;
    number := if q <= r then first + (r - q) else first + (r - q) + n;
    forall m | first <= m < first + n
      ensures m % n == r <==> m == number
    {
      Later(first, m - first, n);
    }
  }

  lemma MultiplesAreBig(n: nat, k: int)
    requires n > 0
    ensures k >= 1 ==> n * k >= n
    ensures k <= -1 ==> n * k <= 0 - n
  {
  }

  lemma RemainderUnique(x: nat, n: nat, q: int, r: nat)
    requires r < n && x == n * q + r
    ensures x % n == r
  {
    MultiplesAreBig(n, x / n - q);
    assert n * (x / n - q) == r - x % n;
  }

  /** Remainders count up and start again. */
  lemma Later(first: nat, d: nat, n: nat)
    requires d < n
    ensures var q := first % n; (first + d) % n == if q + d < n then q + d else q + d - n
  {
    var q := first % n;
    assert first == n * (first / n) + q;
    if q + d < n {
      RemainderUnique(first + d, n, first / n, q + d);
    } else {
      assert n * (first / n + 1) == n * (first / n) + n;
      RemainderUnique(first + d, n, first / n + 1, q + d - n);
    }
  }

  lemma {:induction false} SortedExists(signers: set<Address>) returns (sigs: seq<Address>)
    ensures Ascending(sigs) && Members(sigs) == signers && |sigs| == |signers|
  {
    hide Ascending;
    EmptyAscends();
    if signers == {} {
      sigs := [];
      assert Members(sigs) == {};
    } else {
      var m := Least(signers);
      var rest := SortedExists(signers - {m});
      sigs := [m] + rest;
      assert Members(sigs) == Members(rest) + {m};
      forall i | 0 <= i < |rest|
        ensures m < rest[i]
      {
        assert rest[i] in Members(rest);
      }
      AscendingCons(m, rest);
    }
  }

  lemma AscendingCons(m: Address, rest: seq<Address>)
    requires Ascending(rest) && forall i :: 0 <= i < |rest| ==> m < rest[i]
    ensures Ascending([m] + rest)
  {
  }
}
