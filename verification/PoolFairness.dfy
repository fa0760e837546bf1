/** How the pending limit is shared: who is cut, to what, and why that is fair. */
module PoolFairness {
  import opened Transactions
  import opened Prques

  /** One list loses its last transaction. */
  function CutLast(lists: Accounts, a: Address): Accounts
    requires a in lists && |lists[a]| > 1
  {
    lists[a := lists[a][..|lists[a]| - 1]]
  }

  lemma CutLastPlaces(lists: Accounts, a: Address)
    requires a in lists && |lists[a]| > 1
    ensures |Places(CutLast(lists, a))| == |Places(lists)| - 1
  {
    var last := (a, |lists[a]| - 1);
    assert last in Places(lists);
    assert Places(CutLast(lists, a)) == Places(lists) - {last};
  }

  /** Every list is cut at its end only. */
  ghost predicate Prefixes(now: Accounts, was: Accounts) {
    now.Keys == was.Keys && forall a :: a in now ==> |now[a]| <= |was[a]| && now[a] == was[a][..|now[a]|]
  }

  ghost predicate SameBut(now: Accounts, was: Accounts, cut: seq<Address>) {
    now.Keys == was.Keys && forall a :: a in now && a !in cut ==> now[a] == was[a]
  }

  predicate Distinct(s: seq<Address>) {
    forall i, j :: 0 <= i < j < |s| ==> s[i] != s[j]
  }

  /** All those accounts have lists of one length. */
  ghost predicate Level(lists: Accounts, os: seq<Address>, level: nat) {
    forall i :: 0 <= i < |os| ==> os[i] in lists && |lists[os[i]]| == level
  }

  /** The outcome of the pending limit. Locals lose nothing; nobody is cut below the account
      slots; nobody who is not local ends with more than one who was cut; and the total is
      within the limit unless all but locals are down to their slots, and no further below it
      than one transaction for each who was cut. */
  ghost predicate Fair(was: Accounts, now: Accounts, locals: set<Address>, slots: nat, globalSlots: nat) {
    && Prefixes(now, was)
    && (forall a :: a in now && a in locals ==> now[a] == was[a])
    && (forall a :: a in now ==> |now[a]| >= slots || now[a] == was[a])
    && (forall a, b :: a in now && b in now && |now[a]| < |was[a]| && b !in locals ==> |now[b]| <= |now[a]|)
    && (|Places(now)| <= globalSlots || forall a :: a in now && a !in locals ==> |now[a]| <= slots)
    && (|Places(was)| <= globalSlots ==> now == was)
    && CutNoFurther(was, now, globalSlots)
  }

  function CutAccounts(was: Accounts, now: Accounts): set<Address> {
    set a | a in now && a in was && |now[a]| < |was[a]|
  }

  /** Before everybody who was cut lost their last one, the limit was not met. */
  ghost predicate CutNoFurther(was: Accounts, now: Accounts, globalSlots: nat) {
    now == was || |Places(now)| + |CutAccounts(was, now)| > globalSlots
  }

  lemma {:induction false} DistinctSize(os: seq<Address>, s: set<Address>)
    requires Distinct(os) && forall i :: 0 <= i < |os| ==> os[i] in s
    ensures |os| <= |s|
  {
    if |os| > 0 {
      DistinctSize(os[..|os| - 1], s - {os[|os| - 1]});
    }
  }

  /** Lowering all offenders by one more only while the total is above the limit. */
  lemma LoweredNoFurther(was: Accounts, before: Accounts, now: Accounts, os: seq<Address>, level: nat, level': nat, globalSlots: nat)
    requires CutNoFurther(was, before, globalSlots) && Prefixes(before, was) && Prefixes(now, before)
    requires Distinct(os) && Level(before, os, level) && Level(now, os, level')
    requires now == before || (level' < level && |Places(now)| + |os| > globalSlots)
    ensures CutNoFurther(was, now, globalSlots)
  {
    if now != before {
      DistinctSize(os, CutAccounts(was, now));
    }
  }

  /** The accounts that may be cut. */
  function Spammers(lists: Accounts, locals: set<Address>, slots: nat): set<Address> {
    set a | a in lists && a !in locals && |lists[a]| > slots
  }

  function ItemsOf(lists: Accounts, rest: set<Address>): set<Item> {
    set a | a in rest && a in lists :: Item(a, |lists[a]|)
  }

  lemma ItemsAdd(lists: Accounts, rest: set<Address>, a: Address)
    requires a in lists && a !in rest
    ensures multiset(ItemsOf(lists, rest + {a})) == multiset(ItemsOf(lists, rest)) + multiset{Item(a, |lists[a]|)}
  {
    var x := Item(a, |lists[a]|);
    assert ItemsOf(lists, rest + {a}) == ItemsOf(lists, rest) + {x} by {
      forall y | y in ItemsOf(lists, rest)
        ensures y in ItemsOf(lists, rest + {a})
      {
        var b :| b in rest && b in lists && y == Item(b, |lists[b]|);
        assert b in rest + {a};
      }
      assert a in rest + {a};
    }
    assert x !in ItemsOf(lists, rest);
  }

  /** What the queue gives up is one of its accounts, and the longest. */
  lemma ItemPopped(lists: Accounts, rest: set<Address>, flat: seq<Item>, left: seq<Item>, x: Item)
    requires rest <= lists.Keys && multiset(flat) == multiset(ItemsOf(lists, rest))
    requires multiset(flat) == multiset(left) + multiset{x} && forall y :: y in left ==> y.priority <= x.priority
    ensures x.value in rest && x == Item(x.value, |lists[x.value]|)
    ensures multiset(left) == multiset(ItemsOf(lists, rest - {x.value}))
    ensures forall b :: b in rest ==> |lists[b]| <= |lists[x.value]|
  {
    assert x in multiset(ItemsOf(lists, rest));
    var a := x.value;
    assert rest - {a} + {a} == rest;
    ItemsAdd(lists, rest - {a}, a);
    assert multiset(left) == multiset(ItemsOf(lists, rest)) - multiset{x};
    forall b | b in rest
      ensures |lists[b]| <= |lists[a]|
    {
      assert Item(b, |lists[b]|) in ItemsOf(lists, rest);
      assert Item(b, |lists[b]|) in multiset(flat);
      if b != a {
        assert Item(b, |lists[b]|) in multiset(left);
        assert Item(b, |lists[b]|) in left;
      }
    }
  }

  lemma NothingLeft(lists: Accounts, rest: set<Address>, flat: seq<Item>)
    requires rest <= lists.Keys && multiset(flat) == multiset(ItemsOf(lists, rest)) && flat == []
    ensures rest == {}
  {
    SomeItem(lists, rest);
    assert |multiset(ItemsOf(lists, rest))| == |multiset(flat)|;
  }

  lemma SomeItem(lists: Accounts, rest: set<Address>)
    requires rest <= lists.Keys
    ensures rest != {} ==> |ItemsOf(lists, rest)| > 0
  {
    if rest != {} {
      var b :| b in rest;
      assert Item(b, |lists[b]|) in ItemsOf(lists, rest);
    }
  }

  // ----- the state of the cut -----

  /** Between two offenders: all but the last stand at one level, no lower than the last;
      nobody else was touched, and those still to come are no longer than the last. */
  ghost predicate Cutting(was: Accounts, now: Accounts, locals: set<Address>, slots: nat, globalSlots: nat,
                          os: seq<Address>, rest: set<Address>, level: nat) {
    && Prefixes(now, was) && Distinct(os) && CutNoFurther(was, now, globalSlots)
    && (forall a :: a in Spammers(was, locals, slots) <==> a in os || a in rest)
    && (forall a :: a in rest ==> a !in os)
    && (|os| == 0 ==> now == was)
    && (|os| > 0 ==>
         var front, last := os[..|os| - 1], os[|os| - 1];
         && SameBut(now, was, front) && Level(now, front, level)
         && last in now && slots < |now[last]| <= level
         && (|Places(now)| > globalSlots ==> level == |now[last]|)
         && forall a :: a in rest && a in was ==> |was[a]| <= |now[last]|)
  }

  lemma CuttingStarts(was: Accounts, locals: set<Address>, slots: nat, globalSlots: nat)
    ensures Cutting(was, was, locals, slots, globalSlots, [], Spammers(was, locals, slots), 0)
  {
  }

  lemma CutSoFar(was: Accounts, now: Accounts, locals: set<Address>, slots: nat, globalSlots: nat,
                 os: seq<Address>, rest: set<Address>, level: nat)
    requires Cutting(was, now, locals, slots, globalSlots, os, rest, level)
    ensures CutNoFurther(was, now, globalSlots) && Prefixes(now, was)
  {
  }

  /** An account still to come is untouched, and no longer than the offenders' level. */
  lemma CuttingFacts(was: Accounts, now: Accounts, locals: set<Address>, slots: nat, globalSlots: nat,
                     os: seq<Address>, rest: set<Address>, level: nat, a: Address)
    requires Cutting(was, now, locals, slots, globalSlots, os, rest, level) && a in rest
    ensures a in was && a in now && now[a] == was[a] && |was[a]| > slots
    ensures |os| == 0 ==> now == was
    ensures |os| > 0 ==> |was[a]| <= level
  {
    assert a in Spammers(was, locals, slots);
    if |os| > 0 {
      assert a !in os[..|os| - 1];
    }
  }

  /** The first offender is only noted. */
  lemma FirstOffender(was: Accounts, locals: set<Address>, slots: nat, globalSlots: nat, rest: set<Address>, a: Address)
    requires Cutting(was, was, locals, slots, globalSlots, [], rest, 0) && a in rest
    requires forall b :: b in rest ==> b in was && |was[b]| <= |was[a]|
    ensures Cutting(was, was, locals, slots, globalSlots, [a], rest - {a}, |was[a]|)
  {
    assert [a][..0] == [];
    assert a in Spammers(was, locals, slots);
  }

  /** A further offender: the ones before are lowered to its length, or until the total is
      within the limit. */
  lemma NextOffender(was: Accounts, before: Accounts, now: Accounts, locals: set<Address>, slots: nat, globalSlots: nat,
                     os: seq<Address>, rest: set<Address>, level: nat, a: Address, level': nat)
    requires Cutting(was, before, locals, slots, globalSlots, os, rest, level) && |os| > 0 && a in rest
    requires forall b :: b in rest ==> b in was && |was[b]| <= |was[a]|
    requires Prefixes(now, before) && SameBut(now, before, os) && Level(now, os, level') && |was[a]| <= level'
    requires |Places(now)| > globalSlots ==> level' == |was[a]|
    requires CutNoFurther(was, now, globalSlots)
    ensures Cutting(was, now, locals, slots, globalSlots, os + [a], rest - {a}, level')
  {
    var os' := os + [a];
    assert os'[..|os|] == os;
    PrefixesTransitive(was, before, now);
    assert a in Spammers(was, locals, slots);
    assert a !in os;
    forall b | b in now && b !in os
      ensures now[b] == was[b]
    {
      assert b !in os[..|os| - 1];
    }
    assert Distinct(os');
    assert forall b :: b in os' <==> b in os || b == a;
  }

  lemma PrefixesTransitive(was: Accounts, between: Accounts, now: Accounts)
    requires Prefixes(between, was) && Prefixes(now, between)
    ensures Prefixes(now, was)
  {
  }

  /** Stopping because the total is within the limit. */
  lemma FairEarly(was: Accounts, now: Accounts, locals: set<Address>, slots: nat, globalSlots: nat,
                  os: seq<Address>, rest: set<Address>, level: nat)
    requires Cutting(was, now, locals, slots, globalSlots, os, rest, level)
    requires |Places(now)| <= globalSlots || (|os| == 0 && rest == {})
    requires |Places(was)| > globalSlots
    ensures Fair(was, now, locals, slots, globalSlots)
  {
    if |os| > 0 {
      forall a | a in now && now[a] != was[a]
        ensures |now[a]| == level && a !in locals
      {
        var front := os[..|os| - 1];
        assert a in front;
        var i :| 0 <= i < |front| && front[i] == a;
        assert a in os;
        assert a in Spammers(was, locals, slots);
      }
      forall b | b in now && b !in locals
        ensures |now[b]| <= level
      {
        AtMostLevel(was, now, locals, slots, globalSlots, os, rest, level, b);
      }
    } else {
      forall a | a in now && a !in locals && |now[a]| > slots
        ensures a in rest
      {
        assert a in Spammers(was, locals, slots);
      }
    }
  }

  lemma AtMostLevel(was: Accounts, now: Accounts, locals: set<Address>, slots: nat, globalSlots: nat,
                    os: seq<Address>, rest: set<Address>, level: nat, b: Address)
    requires Cutting(was, now, locals, slots, globalSlots, os, rest, level) && |os| > 0 && b in now && b !in locals
    ensures |now[b]| <= level
  {
    if b in os {
      var i :| 0 <= i < |os| && os[i] == b;
      if i < |os| - 1 {
        assert os[..|os| - 1][i] == b;
      }
    } else if b !in rest {
      assert b !in Spammers(was, locals, slots);
    }
  }

  /** Everybody who may be cut is an offender by now, and all are lowered together. */
  lemma FairLate(was: Accounts, before: Accounts, now: Accounts, locals: set<Address>, slots: nat, globalSlots: nat,
                 os: seq<Address>, level: nat, level': nat)
    requires Cutting(was, before, locals, slots, globalSlots, os, {}, level) && |os| > 0
    requires Prefixes(now, before) && SameBut(now, before, os) && Level(now, os, level') && slots <= level'
    requires |Places(now)| <= globalSlots || level' == slots
    requires CutNoFurther(was, now, globalSlots)
    requires |Places(was)| > globalSlots
    ensures Fair(was, now, locals, slots, globalSlots)
  {
    PrefixesTransitive(was, before, now);
    forall a | a in now && a !in os
      ensures now[a] == was[a]
    {
      assert a !in os[..|os| - 1];
    }
    forall a | a in now && now[a] != was[a]
      ensures |now[a]| == level' && a !in locals
    {
      assert a in os;
      var i :| 0 <= i < |os| && os[i] == a;
      assert a in Spammers(was, locals, slots);
    }
    forall b | b in now && b !in locals
      ensures |now[b]| <= level'
    {
      if b in os {
        var i :| 0 <= i < |os| && os[i] == b;
      } else {
        assert b !in Spammers(was, locals, slots);
      }
    }
  }

  /** Before the last step all offenders stand at one level. */
  lemma AllAtLevel(was: Accounts, now: Accounts, locals: set<Address>, slots: nat, globalSlots: nat,
                   os: seq<Address>, rest: set<Address>, level: nat)
    requires Cutting(was, now, locals, slots, globalSlots, os, rest, level) && |os| > 0 && |Places(now)| > globalSlots
    ensures Level(now, os, level) && level > slots && Distinct(os)
  {
    forall i | 0 <= i < |os|
      ensures os[i] in now && |now[os[i]]| == level
    {
      if i < |os| - 1 {
        assert os[..|os| - 1][i] == os[i];
      }
    }
  }
}
