/** When an account's pending list runs without a gap after a reset that injects
    transactions again. */
module PoolReset {
  import opened Wrappers
  import opened Transactions
  import opened TxPartition
  import opened TxLists
  import opened PoolFairness
  import opened PoolSteps
  import opened PoolFunds

  predicate Has(s: seq<Tx>, nonce: nat) {
    exists t :: t in s && t.nonce == nonce
  }

  /** A run holds exactly the nonces in its range. */
  lemma RunHas(s: seq<Tx>, start: nat, end: nat)
    requires Ascending(s)
    ensures IsRun(s, start, end) <==> start <= end && HasAll(s, start, end)
  {
    if IsRun(s, start, end) {
      forall m: nat | start <= m < end
        ensures Has(s, m)
      {
        assert s[m - start] in s && s[m - start].nonce == m;
      }
    } else if start <= end && HasAll(s, start, end) {
      HasAllIsRun(s, start, end);
    }
  }

  ghost predicate HasAll(s: seq<Tx>, start: nat, end: nat) {
    && (forall t :: t in s ==> start <= t.nonce < end)
    && forall m: nat :: start <= m < end ==> Has(s, m)
  }

  lemma {:induction false} HasAllIsRun(s: seq<Tx>, start: nat, end: nat)
    requires Ascending(s) && start <= end && HasAll(s, start, end)
    ensures IsRun(s, start, end)
    decreases end - start
  {
    hide HasAll, Ascending, Has;
    if start < end {
      LastOfAll(s, start, end);
      HasAllIsRun(s[..|s| - 1], start, end - 1);
    } else {
      NoneInNone(s, start);
    }
  }

  lemma NoneInNone(s: seq<Tx>, start: nat)
    requires HasAll(s, start, start)
    ensures s == []
  {
    HasMember(s);
  }

  lemma LastOfAll(s: seq<Tx>, start: nat, end: nat)
    requires Ascending(s) && start < end && HasAll(s, start, end)
    ensures |s| > 0 && s[|s| - 1].nonce == end - 1
    ensures Ascending(s[..|s| - 1]) && HasAll(s[..|s| - 1], start, end - 1)
  {
    assert Has(s, end - 1);
    var x :| x in s && x.nonce == end - 1;
    var last := |s| - 1;
    assert s[last] in s;
    var front := s[..last];
    assert s == front + [s[last]];
    forall m: nat | start <= m < end - 1
      ensures Has(front, m)
    {
      assert Has(s, m);
    }
    forall t | t in front
      ensures start <= t.nonce < end - 1
    {
      assert t in s;
    }
  }

  // ----- the executable run of a queue -----

  lemma UsableMeans(q: seq<Tx>, n: nat, balance: nat, maxGas: nat)
    requires Ascending(q)
    ensures var u := Usable(q, n, balance, maxGas);
            Ascending(u) && forall t :: t in u <==> t in q && t.nonce >= n && Affords(t, balance, maxGas)
  {
    hide Select, Affords;
    ExceedingMeans(balance, maxGas);
    MeetsNot(Below(n));
    MeetsNot(Exceeding(balance, maxGas));
    SelectMembers(q, Not(Below(n)));
    SelectAscends(q, Not(Below(n)));
    SelectMembers(Select(q, Not(Below(n))), Not(Exceeding(balance, maxGas)));
    SelectAscends(Select(q, Not(Below(n))), Not(Exceeding(balance, maxGas)));
  }

  /** Ready takes exactly the nonces from n on up to the first that is missing. */
  lemma ReadyMeans(u: seq<Tx>, n: nat)
    requires Ascending(u) && forall t :: t in u ==> t.nonce >= n
    ensures var k := ReadyLength(u, n); IsRun(u[..k], n, n + k) && !Has(u, n + k)
  {
    var k := ReadyLength(u, n);
    if k > 0 {
      assert u[0] in u;
      RunIsGapFree(u);
      RunFromFirst(u[..k]);
      assert u[..k][0] == u[0];
      if k < |u| {
        assert u[..k][k - 1] == u[k - 1] && u[k - 1].nonce == n + (k - 1);
        assert u[k].nonce > u[k - 1].nonce && u[k].nonce != n + k;
      } else {
        assert u[..k] == u;
      }
      forall i | 0 <= i < |u|
        ensures u[i].nonce != n + k
      {
        if i < k {
          assert u[..k][i] == u[i];
        } else if i > k {
          assert u[i].nonce > u[k].nonce;
        }
      }
    } else if |u| > 0 {
      assert u[0] in u && u[0].nonce > n;
    }
  }

  /** What is pending from the state's nonce on. */
  function Young(s: seq<Tx>, n: nat): seq<Tx> {
    Select(s, Not(Below(n)))
  }

  lemma YoungMeans(s: seq<Tx>, n: nat)
    requires Ascending(s)
    ensures Ascending(Young(s, n)) && forall t :: t in Young(s, n) <==> t in s && t.nonce >= n
    ensures GapFree(s) ==> GapFree(Young(s, n))
  {
    hide Select;
    MeetsNot(Below(n));
    SelectMembers(s, Not(Below(n)));
    SelectAscends(s, Not(Below(n)));
    if GapFree(s) {
      GapFreeFrom(s, n);
    }
  }

  /** When a pending list without gaps is a run from the new state's nonce n after the reset.
      With p its first nonce from n on: if there is no p, or it is n, or cannot be paid for;
      if nothing new makes the queue's transaction at n pending beforehand, so that the
      list is queued as a whole; or if the queue has all usable nonces from n up to p. */
  predicate Fills(t: PoolRules, pending: Accounts, queue: Accounts, isNew: bool, a: Address) {
    var n, balance := NonceAt(t.stateNonces, a), NonceAt(t.balances, a);
    var y, u := Young(Left(pending, a), n), Usable(Left(queue, a), n, balance, t.maxGas);
    || y == [] || y[0].nonce == n || !Affords(y[0], balance, t.maxGas)
    || !isNew || ReadyLength(u, n) == 0
    || n + ReadyLength(u, n) == y[0].nonce
  }

  // ----- demotion after promotion -----

  /** Pending from n on after promotion: the queue's run, then what was there. */
  lemma YoungAfter(s: seq<Tx>, u: seq<Tx>, l: seq<Tx>, n: nat, k: nat)
    requires Ascending(s) && Ascending(u) && Ascending(l) && k <= |u| && IsRun(u[..k], n, n + k)
    requires forall x :: x in l <==> x in s || x in u[..k]
    requires forall x, y :: x in s && y in u ==> x.nonce != y.nonce
    ensures Young(l, n) == u[..k] + Young(s, n)
    ensures forall x :: x in Young(s, n) ==> x.nonce >= n + k
  {
    hide Young;
    YoungMeans(s, n);
    YoungMeans(l, n);
    var run, y := u[..k], Young(s, n);
    CutPrefix(u, k);
    RunHas(run, n, n + k);
    forall x | x in y
      ensures x.nonce >= n + k
    {
      assert !Has(run, x.nonce);
    }
    Joined(run, y, n + k);
    forall x
      ensures x in run + y <==> x in Young(l, n)
    {
      if x in run {
        var i :| 0 <= i < k && run[i] == x;
      }
    }
    AscendingUnique(run + y, Young(l, n));
  }

  lemma Joined(x: seq<Tx>, y: seq<Tx>, m: nat)
    requires Ascending(x) && Ascending(y)
    requires (forall t :: t in x ==> t.nonce < m) && forall t :: t in y ==> t.nonce >= m
    ensures Ascending(x + y)
  {
    assert forall i :: 0 <= i < |x| ==> x[i] in x;
    assert forall i :: 0 <= i < |y| ==> y[i] in y;
  }

  /** What demotion leaves of the queue's run and the pending transactions behind it. */
  lemma ExecutableAfter(l: seq<Tx>, run: seq<Tx>, y: seq<Tx>, n: nat, balance: nat, maxGas: nat)
    requires Young(l, n) == run + y && |run| > 0 && IsRun(run, n, n + |run|)
    requires forall x :: x in run ==> Affords(x, balance, maxGas)
    ensures var young, f := run + y, FirstExceeding(run + y, balance, maxGas);
            && |run| <= f <= |young| && Executable(l, n, balance, maxGas) == young[..f]
            && (y != [] ==> (f == |run| <==> !Affords(y[0], balance, maxGas)))
  {
    hide Select, Affords, Meets;
    ExceedingMeans(balance, maxGas);
    var young, f := run + y, FirstExceeding(run + y, balance, maxGas);
    assert forall i :: 0 <= i < |run| ==> young[i] == run[i] && run[i] in run;
    if y != [] {
      assert young[|run|] == y[0];
    }
    assert young[..f][0] == run[0] && run[0].nonce == n;
    assert young[..f][0] in young[..f];
  }

  /** The first half: what is left by demotion is a run, or has n and p but not all between. */
  lemma ExecutedRun(s: seq<Tx>, u: seq<Tx>, l: seq<Tx>, n: nat, balance: nat, maxGas: nat)
    requires Ascending(s) && GapFree(s) && Ascending(u) && Ascending(l)
    requires forall x :: x in u ==> x.nonce >= n && Affords(x, balance, maxGas)
    requires forall x, y :: x in s && y in u ==> x.nonce != y.nonce
    requires var k := ReadyLength(u, n); k > 0 && forall x :: x in l <==> x in s || x in u[..k]
    ensures var y, k, r := Young(s, n), ReadyLength(u, n), Executable(l, n, balance, maxGas);
            if y == [] || !Affords(y[0], balance, maxGas) || y[0].nonce == n + k
            then |r| > 0 && IsRun(r, n, n + |r|)
            else y[0] in r && y[0].nonce > n + k && !Has(Young(l, n), n + k)
    ensures forall x :: x in Executable(l, n, balance, maxGas) ==> x in Young(l, n)
  {
    hide Young, Executable, Affords, ReadyLength, GapFree, Ascending, Has;
    var k := ReadyLength(u, n);
    var run, y := u[..k], Young(s, n);
    ReadyMeans(u, n);
    YoungMeans(s, n);
    YoungAfter(s, u, l, n, k);
    assert forall x :: x in run ==> x in u;
    ExecutableAfter(l, run, y, n, balance, maxGas);
    var young, f := run + y, FirstExceeding(run + y, balance, maxGas);
    if y == [] || !Affords(y[0], balance, maxGas) {
      assert young[..f] == run;
    } else if y[0].nonce == n + k {
      RunsMeet(run, y, n, f);
    } else {
      assert young[..f][k] == y[0] && y[0] in y;
      GapStays(run, y, n, k);
    }
  }

  lemma RunsMeet(run: seq<Tx>, y: seq<Tx>, n: nat, f: nat)
    requires IsRun(run, n, n + |run|) && GapFree(y) && |y| > 0 && y[0].nonce == n + |run| && f <= |run + y|
    ensures IsRun((run + y)[..f], n, n + f)
  {
    RunFromFirst(y);
  }

  lemma GapStays(run: seq<Tx>, y: seq<Tx>, n: nat, k: nat)
    requires IsRun(run, n, n + k) && Ascending(y) && |y| > 0 && y[0].nonce > n + k
    ensures !Has(run + y, n + k)
  {
    var young := run + y;
    forall x | x in young
      ensures x.nonce != n + k
    {
      assert x in run || x in y;
    }
  }

  // ----- the second promotion -----

  /** A run stays one: what promotion adds begins where it ends. */
  lemma PromotedRun(r: seq<Tx>, q: seq<Tx>, f: seq<Tx>, n: nat, end: nat, balance: nat, maxGas: nat)
    requires Ascending(q) && Ascending(r) && Ascending(f) && IsRun(r, n, end)
    requires forall x, y :: x in r && y in q ==> x.nonce != y.nonce
    requires var u := Usable(q, n, balance, maxGas); forall x :: x in f <==> x in r || x in u[..ReadyLength(u, end)]
    ensures var u := Usable(q, n, balance, maxGas);
            var k := ReadyLength(u, end);
            IsRun(f, n, if k > 0 then u[k - 1].nonce + 1 else end)
  {
    hide Usable, ReadyLength, Affords;
    UsableMeans(q, n, balance, maxGas);
    var u := Usable(q, n, balance, maxGas);
    RunHas(r, n, end);
    forall x | x in u
      ensures x.nonce >= end
    {
      assert !Has(r, x.nonce);
    }
    ReadyMeans(u, end);
    var k := ReadyLength(u, end);
    assert k > 0 ==> u[..k][k - 1] == u[k - 1];
    JoinedRun(r, u[..k], f, n, end, end + k);
  }

  lemma JoinedRun(x: seq<Tx>, y: seq<Tx>, f: seq<Tx>, start: nat, mid: nat, end: nat)
    requires IsRun(x, start, mid) && IsRun(y, mid, end) && Ascending(f) && forall t :: t in f <==> t in x || t in y
    ensures IsRun(f, start, end)
  {
    Joined(x, y, mid);
    AscendingUnique(x + y, f);
  }

  /** A gap that neither the list nor the queue can fill stays. */
  lemma GapIsNoRun(f: seq<Tx>, n: nat, end: nat, m: nat, x: Tx)
    requires Ascending(f) && n <= m && !Has(f, m) && x in f && x.nonce > m
    ensures !IsRun(f, n, end)
  {
    RunHas(f, n, end);
  }

  lemma FewerHave(f: seq<Tx>, r: seq<Tx>, q: seq<Tx>, m: nat)
    requires forall x :: x in f ==> x in r || x in q
    requires !Has(r, m) && !Has(q, m)
    ensures !Has(f, m)
  {
  }

  // ----- the reset of one account -----

  /** Lists by ascending nonce, an account's pending and queued nonces apart. */
  ghost predicate Ordered(v: PoolView) {
    forall a :: OrderedAt(v, a)
  }

  ghost predicate OrderedAt(v: PoolView, a: Address) {
    && Ascending(Left(v.pending, a)) && Ascending(Left(v.queue, a))
    && forall x, y :: x in Left(v.pending, a) && y in Left(v.queue, a) ==> x.nonce != y.nonce
  }

  /** The steps of a reset while the limits take nothing from the pending lists: additions,
      promotion of the account if it has a new transaction, a queue perhaps shortened,
      demotion, promotion. */
  ghost predicate ResetSteps(t: PoolRules, added: PoolView, lifted: PoolView, injected: PoolView, demoted: PoolView,
                             ready: PoolView, isNew: bool, a: Address) {
    && OrderedAt(added, a) && OrderedAt(lifted, a) && OrderedAt(demoted, a) && OrderedAt(ready, a)
    && Tracked(added.tracked, t.stateNonces, a) == NonceAt(t.stateNonces, a)
    && (if isNew then Promoted(t, added, lifted, a) else Alike(t, added, lifted, a))
    && Left(injected.pending, a) == Left(lifted.pending, a) && Left(injected.queue, a) <= Left(lifted.queue, a)
    && Tracked(injected.tracked, t.stateNonces, a) == Tracked(lifted.tracked, t.stateNonces, a)
    && Demoted(t, injected, demoted, a) && Promoted(t, demoted, ready, a)
  }

  /** A list without gaps is a run after the reset exactly if it fills. */
  lemma RunExactly(t: PoolRules, added: PoolView, lifted: PoolView, injected: PoolView, demoted: PoolView, ready: PoolView,
                   isNew: bool, a: Address)
    requires ResetSteps(t, added, lifted, injected, demoted, ready, isNew, a) && GapFree(Left(added.pending, a))
    ensures IsRun(Left(ready.pending, a), NonceAt(t.stateNonces, a), Tracked(ready.tracked, t.stateNonces, a)) <==>
            Fills(t, added.pending, added.queue, isNew, a)
  {
    hide Usable, ReadyLength, Young, Executable, IsPostponed, GapFree, Affords, Fills;
    var n, balance := NonceAt(t.stateNonces, a), NonceAt(t.balances, a);
    var u := Usable(Left(added.queue, a), n, balance, t.maxGas);
    if isNew && ReadyLength(u, n) > 0 {
      FilledByNew(t, added, lifted, injected, demoted, a);
      if Fills(t, added.pending, added.queue, isNew, a) {
        RunIsPromoted(t, demoted, ready, a);
      } else {
        GapIsPromoted(t, added, lifted, injected, demoted, ready, a);
      }
    } else {
      NothingNew(t, added, lifted, injected, demoted, isNew, a);
      RunIsPromoted(t, demoted, ready, a);
    }
  }

  /** Demotion has left a run, with the nonce behind it tracked. */
  ghost predicate LeftInRun(t: PoolRules, demoted: PoolView, a: Address) {
    IsRun(Left(demoted.pending, a), NonceAt(t.stateNonces, a), Tracked(demoted.tracked, t.stateNonces, a))
  }

  lemma RunIsPromoted(t: PoolRules, demoted: PoolView, ready: PoolView, a: Address)
    requires OrderedAt(demoted, a) && OrderedAt(ready, a) && Promoted(t, demoted, ready, a) && LeftInRun(t, demoted, a)
    ensures IsRun(Left(ready.pending, a), NonceAt(t.stateNonces, a), Tracked(ready.tracked, t.stateNonces, a))
  {
    hide Usable, ReadyLength, Ascending;
    var n, balance := NonceAt(t.stateNonces, a), NonceAt(t.balances, a);
    PromotedRun(Left(demoted.pending, a), Left(demoted.queue, a), Left(ready.pending, a), n,
                Tracked(demoted.tracked, t.stateNonces, a), balance, t.maxGas);
  }

  /** Without anything new that is executable, what starts behind n is queued as a whole. */
  lemma NothingNew(t: PoolRules, added: PoolView, lifted: PoolView, injected: PoolView, demoted: PoolView, isNew: bool, a: Address)
    requires OrderedAt(added, a) && OrderedAt(lifted, a) && OrderedAt(demoted, a) && GapFree(Left(added.pending, a))
    requires Tracked(added.tracked, t.stateNonces, a) == NonceAt(t.stateNonces, a)
    requires if isNew then Promoted(t, added, lifted, a) else Alike(t, added, lifted, a)
    requires Left(injected.pending, a) == Left(lifted.pending, a)
    requires Tracked(injected.tracked, t.stateNonces, a) == Tracked(lifted.tracked, t.stateNonces, a)
    requires Demoted(t, injected, demoted, a)
    requires var u := Usable(Left(added.queue, a), NonceAt(t.stateNonces, a), NonceAt(t.balances, a), t.maxGas);
             !isNew || ReadyLength(u, NonceAt(t.stateNonces, a)) == 0
    ensures LeftInRun(t, demoted, a) && Fills(t, added.pending, added.queue, isNew, a)
  {
    hide Usable, ReadyLength, Executable, IsPostponed, GapFree, Affords, Young;
    var s, l := Left(added.pending, a), Left(lifted.pending, a);
    AscendingUnique(s, l);
    ExecutableIsRun(l, NonceAt(t.stateNonces, a), NonceAt(t.balances, a), t.maxGas);
  }

  lemma FilledByNew(t: PoolRules, added: PoolView, lifted: PoolView, injected: PoolView, demoted: PoolView, a: Address)
    requires OrderedAt(added, a) && OrderedAt(lifted, a) && OrderedAt(demoted, a) && GapFree(Left(added.pending, a))
    requires Tracked(added.tracked, t.stateNonces, a) == NonceAt(t.stateNonces, a)
    requires Promoted(t, added, lifted, a) && Left(injected.pending, a) == Left(lifted.pending, a)
    requires Demoted(t, injected, demoted, a)
    requires var n := NonceAt(t.stateNonces, a);
             ReadyLength(Usable(Left(added.queue, a), n, NonceAt(t.balances, a), t.maxGas), n) > 0
    ensures var n := NonceAt(t.stateNonces, a);
            var k := ReadyLength(Usable(Left(added.queue, a), n, NonceAt(t.balances, a), t.maxGas), n);
            if Fills(t, added.pending, added.queue, true, a) then LeftInRun(t, demoted, a)
            else !Has(Young(Left(lifted.pending, a), n), n + k) && exists x :: x in Left(demoted.pending, a) && x.nonce > n + k
    ensures forall x :: x in Left(demoted.pending, a) ==> x in Young(Left(lifted.pending, a), NonceAt(t.stateNonces, a))
  {
    hide ReadyLength, Executable, IsPostponed, GapFree, Affords, Young, Usable, Ascending, Has, IsRun;
    var n, balance := NonceAt(t.stateNonces, a), NonceAt(t.balances, a);
    var s, q, l := Left(added.pending, a), Left(added.queue, a), Left(lifted.pending, a);
    var u := Usable(q, n, balance, t.maxGas);
    UsableMeans(q, n, balance, t.maxGas);
    ExecutedRun(s, u, l, n, balance, t.maxGas);
    FirstIsNotReady(s, u, n);
    RunEnds(Executable(l, n, balance, t.maxGas), n);
  }

  lemma RunEnds(r: seq<Tx>, n: nat)
    ensures |r| > 0 && IsRun(r, n, n + |r|) ==> r[|r| - 1].nonce + 1 == n + |r|
  {
  }

  /** What is pending at n is not in the queue, so the queue is not ready then. */
  lemma FirstIsNotReady(s: seq<Tx>, u: seq<Tx>, n: nat)
    requires Ascending(s) && Ascending(u) && (forall x :: x in u ==> x.nonce >= n) && ReadyLength(u, n) > 0
    requires forall x, y :: x in s && y in u ==> x.nonce != y.nonce
    ensures Young(s, n) != [] ==> Young(s, n)[0].nonce != n
  {
    YoungMeans(s, n);
    assert u[0] in u;
    assert Young(s, n) != [] ==> Young(s, n)[0] in s;
  }

  /** The missing nonce is in no list, and stays so. */
  lemma GapIsPromoted(t: PoolRules, added: PoolView, lifted: PoolView, injected: PoolView, demoted: PoolView, ready: PoolView, a: Address)
    requires ResetSteps(t, added, lifted, injected, demoted, ready, true, a)
    requires var n := NonceAt(t.stateNonces, a);
             var k := ReadyLength(Usable(Left(added.queue, a), n, NonceAt(t.balances, a), t.maxGas), n);
             !Has(Young(Left(lifted.pending, a), n), n + k) && exists x :: x in Left(demoted.pending, a) && x.nonce > n + k
    requires forall x :: x in Left(demoted.pending, a) ==> x in Young(Left(lifted.pending, a), NonceAt(t.stateNonces, a))
    ensures !IsRun(Left(ready.pending, a), NonceAt(t.stateNonces, a), Tracked(ready.tracked, t.stateNonces, a))
  {
    hide ReadyLength, Executable, Affords, Young, Usable, IsPostponed, Ascending;
    var n, balance := NonceAt(t.stateNonces, a), NonceAt(t.balances, a);
    var u := Usable(Left(added.queue, a), n, balance, t.maxGas);
    var m := n + ReadyLength(u, n);
    UsableMeans(Left(added.queue, a), n, balance, t.maxGas);
    ReadyMeans(u, n);
    QueueLacks(t, added, lifted, a, m);
    assert !Has(Left(injected.queue, a), m) by { PrefixHas(Left(injected.queue, a), Left(lifted.queue, a), m); }
    PostponedIsYoung(Left(injected.pending, a), n, balance, t.maxGas);
    assert !Has(Left(demoted.queue, a), m);
    var u' := Usable(Left(demoted.queue, a), n, balance, t.maxGas);
    UsableMeans(Left(demoted.queue, a), n, balance, t.maxGas);
    var k' := ReadyLength(u', Tracked(demoted.tracked, t.stateNonces, a));
    assert !Has(u'[..k'], m);
    FewerHave(Left(ready.pending, a), Left(demoted.pending, a), u'[..k'], m);
    var x :| x in Left(demoted.pending, a) && x.nonce > m;
    GapIsNoRun(Left(ready.pending, a), n, Tracked(ready.tracked, t.stateNonces, a), m, x);
  }

  lemma PrefixHas(x: seq<Tx>, y: seq<Tx>, m: nat)
    requires x <= y
    ensures Has(x, m) ==> Has(y, m)
  {
  }

  lemma QueueLacks(t: PoolRules, added: PoolView, lifted: PoolView, a: Address, m: nat)
    requires Promoted(t, added, lifted, a)
    requires !Has(Usable(Left(added.queue, a), NonceAt(t.stateNonces, a), NonceAt(t.balances, a), t.maxGas), m)
    ensures !Has(Left(lifted.queue, a), m)
  {
    hide Usable, ReadyLength;
    var u := Usable(Left(added.queue, a), NonceAt(t.stateNonces, a), NonceAt(t.balances, a), t.maxGas);
    assert forall x :: x in Left(lifted.queue, a) ==> x in u;
  }

  lemma PostponedIsYoung(l: seq<Tx>, n: nat, balance: nat, maxGas: nat)
    ensures forall x :: IsPostponed(x, l, n, balance, maxGas) ==> x in Young(l, n)
  {
    hide Select, Meets;
  }

  /** The pending limit is met as it is. */
  ghost predicate WithinLimit(lifted: PoolView, ready: PoolView, globalSlots: nat) {
    |Places(lifted.pending)| <= globalSlots && |Places(ready.pending)| <= globalSlots
  }

  lemma SettledQueue(t: PoolRules, ready: PoolView, now: PoolView, accountSlots: nat, globalSlots: nat, globalQueue: nat)
    requires Settled(t, ready, now, accountSlots, globalSlots, globalQueue)
    ensures forall a :: Left(now.queue, a) <= Left(ready.queue, a)
    ensures |Places(ready.pending)| <= globalSlots ==> now.pending == ready.pending
  {
  }

  lemma InjectedKept(t: PoolRules, added: PoolView, lifted: PoolView, injected: PoolView, nobody: bool,
                     accountSlots: nat, globalSlots: nat, globalQueue: nat)
    requires if nobody then injected == lifted == added else Settled(t, lifted, injected, accountSlots, globalSlots, globalQueue)
    requires |Places(lifted.pending)| <= globalSlots
    ensures injected.pending == lifted.pending && forall a :: Left(injected.queue, a) <= Left(lifted.queue, a)
  {
    if !nobody {
      SettledQueue(t, lifted, injected, accountSlots, globalSlots, globalQueue);
    }
  }

  /** The whole reset, while the limits take nothing from the pending lists. */
  lemma ResetRuns(t: PoolRules, was: PoolView, txs: seq<Tx>, results: seq<AddResult>, added: PoolView, lifted: PoolView,
                  injected: PoolView, demoted: PoolView, ready: PoolView, a: Address)
    requires |results| == |txs| && (added.pending, added.queue) == Injected(was.pending, was.queue, txs, results)
    requires added.tracked == map[] && Ordered(was) && Ordered(lifted) && Ordered(demoted) && Ordered(ready)
    requires if a in Senders(txs, results) then Promoted(t, added, lifted, a) else Alike(t, added, lifted, a)
    requires injected.pending == lifted.pending && injected.tracked == lifted.tracked
    requires Left(injected.queue, a) <= Left(lifted.queue, a)
    requires Demoted(t, injected, demoted, a) && Promoted(t, demoted, ready, a) && GapFree(Left(was.pending, a))
    ensures IsRun(Left(ready.pending, a), NonceAt(t.stateNonces, a), Tracked(ready.tracked, t.stateNonces, a)) <==>
            Fills(t, added.pending, added.queue, a in Senders(txs, results), a)
  {
    hide Injected, Senders, Promoted, Alike, Demoted, Fills, IsRun, GapFree;
    assert OrderedAt(was, a) && OrderedAt(lifted, a) && OrderedAt(demoted, a) && OrderedAt(ready, a);
    InjectedAt(was, txs, results, a);
    SameGaps(Left(added.pending, a), Left(was.pending, a));
    RunExactly(t, added, lifted, injected, demoted, ready, a in Senders(txs, results), a);
  }

  // ----- what re-injection makes of an account -----

  predicate SameNonces(x: seq<Tx>, y: seq<Tx>) {
    |x| == |y| && forall i :: 0 <= i < |x| ==> x[i].nonce == y[i].nonce
  }

  /** Additions replace pending transactions but neither add nor remove a pending nonce. */
  lemma {:induction false} InjectedAt(v: PoolView, txs: seq<Tx>, results: seq<AddResult>, a: Address)
    requires |results| == |txs| && OrderedAt(v, a)
    ensures var r := Injected(v.pending, v.queue, txs, results);
            OrderedAt(PoolView(r.0, r.1, map[], map[]), a) && SameNonces(Left(r.0, a), Left(v.pending, a))
  {
    hide OrderedAt, Taken;
    if |txs| == 0 {
      NothingTaken(v, a);
    } else {
      var n := |txs| - 1;
      InjectedAt(v, txs[..n], results[..n], a);
      var before := Injected(v.pending, v.queue, txs[..n], results[..n]);
      TakenAt(PoolView(before.0, before.1, map[], map[]), txs[n], a);
    }
  }

  lemma NothingTaken(v: PoolView, a: Address)
    requires OrderedAt(v, a)
    ensures OrderedAt(PoolView(v.pending, v.queue, map[], map[]), a)
  {
  }

  lemma TakenAt(v: PoolView, tx: Tx, a: Address)
    requires OrderedAt(v, a)
    ensures var r := Taken(v.pending, v.queue, tx);
            OrderedAt(PoolView(r.0, r.1, map[], map[]), a) && SameNonces(Left(r.0, a), Left(v.pending, a))
  {
    hide Placed, Ascending;
    if tx.sender == a {
      var s, q := Left(v.pending, a), Left(v.queue, a);
      PlacedAscends(s, tx);
      PlacedAscends(q, tx);
      var prior := TxAt(s, tx.nonce);
      LeftWith(v.pending, a, Placed(s, tx));
      LeftWith(v.queue, a, Placed(q, tx));
      if prior.Some? {
        var i :| 0 <= i < |s| && s[i] == prior.value;
        PlacedAt(s, tx, i);
      }
    } else {
      LeftWith(v.pending, tx.sender, Placed(Left(v.pending, tx.sender), tx));
      LeftWith(v.queue, tx.sender, Placed(Left(v.queue, tx.sender), tx));
    }
  }

  lemma SameGaps(x: seq<Tx>, y: seq<Tx>)
    requires SameNonces(x, y) && GapFree(y)
    ensures GapFree(x)
  {
    forall i | 0 <= i < |x| - 1
      ensures x[i + 1].nonce == x[i].nonce + 1
    {
      assert y[i + 1].nonce == y[i].nonce + 1;
    }
  }

  /** A transaction that is accepted at a nonce nothing is pending at, and not replaced
      afterwards, is queued. */
  lemma {:induction false} QueuedOnce(v: PoolView, txs: seq<Tx>, results: seq<AddResult>, a: Address, i: nat)
    requires |results| == |txs| && OrderedAt(v, a) && i < |txs| && results[i].Added? && txs[i].sender == a
    requires !Has(Left(v.pending, a), txs[i].nonce)
    requires forall j :: i < j < |txs| ==> !SameSlot(txs[j], txs[i])
    ensures txs[i] in Left(Injected(v.pending, v.queue, txs, results).1, a)
  {
    hide OrderedAt, Taken, Has;
    var n := |txs| - 1;
    var before := Injected(v.pending, v.queue, txs[..n], results[..n]);
    InjectedAt(v, txs[..n], results[..n], a);
    if i == n {
      SameHave(before.0, v.pending, a, txs[i].nonce);
      TakenIsQueued(PoolView(before.0, before.1, map[], map[]), txs[i]);
    } else {
      QueuedOnce(v, txs[..n], results[..n], a, i);
      assert !SameSlot(txs[n], txs[i]);
      QueuedStays(PoolView(before.0, before.1, map[], map[]), txs[n], txs[i]);
    }
  }

  lemma SameHave(x: Accounts, y: Accounts, a: Address, m: nat)
    requires SameNonces(Left(x, a), Left(y, a)) && !Has(Left(y, a), m)
    ensures !Has(Left(x, a), m)
  {
    forall t | t in Left(x, a)
      ensures t.nonce != m
    {
      var i :| 0 <= i < |Left(x, a)| && Left(x, a)[i] == t;
      assert Left(y, a)[i] in Left(y, a);
    }
  }

  lemma TakenIsQueued(v: PoolView, tx: Tx)
    requires OrderedAt(v, tx.sender) && !Has(Left(v.pending, tx.sender), tx.nonce)
    ensures tx in Left(Taken(v.pending, v.queue, tx).1, tx.sender)
  {
    hide Placed;
    PlacedAscends(Left(v.queue, tx.sender), tx);
    LeftWith(v.queue, tx.sender, Placed(Left(v.queue, tx.sender), tx));
  }

  lemma QueuedStays(v: PoolView, tx: Tx, x: Tx)
    requires OrderedAt(v, x.sender) && x in Left(v.queue, x.sender) && !SameSlot(tx, x)
    ensures x in Left(Taken(v.pending, v.queue, tx).1, x.sender)
  {
    hide Placed;
    LeftWith(v.queue, tx.sender, Placed(Left(v.queue, tx.sender), tx));
    if tx.sender == x.sender {
      PlacedAscends(Left(v.queue, tx.sender), tx);
    }
  }

  /** The transaction at a nonce comes back, and can be paid for. */
  predicate ComesBack(t: PoolRules, txs: seq<Tx>, results: seq<AddResult>, a: Address, m: nat)
    requires |results| == |txs|
  {
    exists i :: 0 <= i < |txs| && results[i].Added? && txs[i].sender == a && txs[i].nonce == m
                && Affords(txs[i], NonceAt(t.balances, a), t.maxGas)
  }

  /** A complete re-injection, of all nonces from the new state's up to the first pending
      one, fills. */
  lemma CompleteReinjectionFills(t: PoolRules, v: PoolView, txs: seq<Tx>, results: seq<AddResult>, isNew: bool, a: Address)
    requires |results| == |txs| && OrderedAt(v, a)
    requires forall i, j :: 0 <= i < j < |txs| ==> !SameSlot(txs[j], txs[i])
    requires var y, n := Young(Left(v.pending, a), NonceAt(t.stateNonces, a)), NonceAt(t.stateNonces, a);
             y != [] ==> forall m: nat :: n <= m < y[0].nonce ==> ComesBack(t, txs, results, a, m)
    ensures var r := Injected(v.pending, v.queue, txs, results); Fills(t, r.0, r.1, isNew, a)
  {
    hide Affords, Injected, Young, Usable, ReadyLength, SameSlot, Ascending;
    var n, balance := NonceAt(t.stateNonces, a), NonceAt(t.balances, a);
    var r := Injected(v.pending, v.queue, txs, results);
    InjectedAt(v, txs, results, a);
    var s, s', q := Left(v.pending, a), Left(r.0, a), Left(r.1, a);
    SameYoung(s, s', n);
    var y, u := Young(s, n), Usable(q, n, balance, t.maxGas);
    UsableMeans(q, n, balance, t.maxGas);
    ReadyMeans(u, n);
    var k := ReadyLength(u, n);
    if y != [] {
      var p := y[0].nonce;
      forall m: nat | n <= m < p
        ensures Has(u, m)
      {
        assert ComesBack(t, txs, results, a, m);
        var i :| 0 <= i < |txs| && results[i].Added? && txs[i].sender == a && txs[i].nonce == m
                 && Affords(txs[i], balance, t.maxGas);
        NotPendingBefore(s, n, m);
        QueuedOnce(v, txs, results, a, i);
      }
      YoungMeans(s', n);
      assert Young(s', n)[0] in s';
      assert !Has(u, p);
      RunUpTo(u, n, k, p);
    }
  }

  lemma SameYoung(s: seq<Tx>, s': seq<Tx>, n: nat)
    requires Ascending(s) && Ascending(s') && SameNonces(s', s)
    ensures SameNonces(Young(s', n), Young(s, n))
  {
    var i := Behind(s, n);
    SelectBelow(s, n, i);
    SelectBelow(s', n, i);
  }

  /** How many lie below n. */
  function Behind(s: seq<Tx>, n: nat): (k: nat)
    requires Ascending(s)
    ensures k <= |s|
    ensures (forall i :: 0 <= i < k ==> s[i].nonce < n) && forall i :: k <= i < |s| ==> s[i].nonce >= n
  {
    if |s| == 0 || s[|s| - 1].nonce < n then |s| else Behind(s[..|s| - 1], n)
  }

  lemma NotPendingBefore(s: seq<Tx>, n: nat, m: nat)
    requires Ascending(s) && Young(s, n) != [] && n <= m < Young(s, n)[0].nonce
    ensures !Has(s, m)
  {
    hide Young;
    YoungMeans(s, n);
    var y := Young(s, n);
    forall x | x in s
      ensures x.nonce != m
    {
      assert x.nonce >= n ==> x in y;
      AtLeastFirst(y, x);
    }
  }

  lemma AtLeastFirst(y: seq<Tx>, x: Tx)
    requires Ascending(y) && |y| > 0
    ensures x in y ==> x.nonce >= y[0].nonce
  {
  }

  lemma RunUpTo(u: seq<Tx>, n: nat, k: nat, p: nat)
    requires n <= p && k <= |u| && IsRun(u[..k], n, n + k) && !Has(u, n + k) && !Has(u, p)
    requires forall m: nat :: n <= m < p ==> Has(u, m)
    ensures n + k == p
  {
    forall m: nat | n <= m < n + k
      ensures Has(u, m)
    {
      assert u[..k][m - n] == u[m - n] && u[m - n] in u;
    }
  }

  // ----- an incomplete re-injection -----

  const FIRST := Tx(101, 1, 0, 1, 1, 0)
  const THIRD := Tx(103, 1, 2, 1, 1, 0)

  lemma NothingBeside(tx: Tx)
    ensures Placed([], tx) == [tx]
  {
  }

  lemma OnlyQueued()
    ensures Taken(map[], map[], THIRD) == (map[], map[1 := [THIRD]])
  {
    hide Placed;
    NothingBeside(THIRD);
  }

  lemma NothingPlaced(v: PoolView)
    requires v.pending == map[] && v.queue == map[]
    ensures forall x :: !IsPlaced(v, x)
  {
  }

  lemma OneUsable(tx: Tx, n: nat)
    requires tx.nonce == n && tx.Cost() <= 100 && tx.gas <= 100
    ensures Usable([tx], n, 100, 100) == [tx] && ReadyLength([tx], n) == 1
  {
    hide Select;
    SelectAll([tx], Below(n));
    SelectAll([tx], Exceeding(100, 100));
  }

  /** Only the third transaction is in the pool, and it is pending. */
  ghost predicate OnlyThird(v: PoolView) {
    forall b :: Left(v.pending, b) == (if b == 1 then [THIRD] else []) && Left(v.queue, b) == []
  }

  lemma ThirdIsPending(t: PoolRules, was: PoolView, now: PoolView)
    requires t == PoolRules(map[1 := 2], map[1 := 100], 100, {}, 10)
    requires was.pending == map[] && was.queue == map[1 := [THIRD]] && was.tracked == map[]
    requires PromotedFirst(t, was, now, [1], 1) && Ordered(now)
    ensures OnlyThird(now)
  {
    hide Usable, ReadyLength;
    OneUsable(THIRD, 2);
    assert [1][..1] == [1];
    assert Promoted(t, was, now, 1) && OrderedAt(now, 1);
    var q := [THIRD];
    assert q[..1] == q && q[1..] == [];
    AscendingUnique(Left(now.pending, 1), q);
    forall b | b != 1
      ensures Left(now.pending, b) == [] && Left(now.queue, b) == []
    {
      assert Alike(t, was, now, b);
    }
  }

  lemma StillOnlyThird(v: PoolView, w: PoolView)
    requires OnlyThird(v) && w.pending == v.pending && forall a :: Left(w.queue, a) <= Left(v.queue, a)
    ensures OnlyThird(w)
  {
  }

  lemma FirstAccepted(t: PoolRules, was: PoolView, results: seq<AddResult>)
    requires t == PoolRules(map[1 := 0], map[1 := 100], 100, {}, 10) && OnlyThird(was) && |results| == 1
    requires Decided(t, 0, 10, was, [FIRST], false, [Verdict(false, false, [])], results)
    ensures results == [Added(false)]
  {
    hide Injected, Outcome, OnlyThird;
    assert DecidedAt(t, 0, 10, was, [FIRST], false, [Verdict(false, false, [])], results, 0);
    NoneInjected(was.pending, was.queue, [FIRST]);
    assert results[..0] == [];
    FirstEnters(t, PoolView(was.pending, was.queue, map[], map[])) by { OnlyPlaced(was); }
  }

  lemma OnlyPlaced(v: PoolView)
    requires OnlyThird(v)
    ensures forall x :: IsPlaced(PoolView(v.pending, v.queue, map[], map[]), x) ==> x == THIRD
  {
  }

  lemma FirstEnters(t: PoolRules, v: PoolView)
    requires t == PoolRules(map[1 := 0], map[1 := 100], 100, {}, 10)
    requires forall x :: IsPlaced(v, x) ==> x == THIRD
    ensures Outcome(t, 0, 10, v, FIRST, false, false) == Added(false)
  {
    hide IsPlaced, Outbids;
    assert MayEnter(t, 0, FIRST, false);
  }

  lemma FirstDoesNotFill(t: PoolRules, was: PoolView, added: PoolView)
    requires t == PoolRules(map[1 := 0], map[1 := 100], 100, {}, 10) && OnlyThird(was)
    requires (added.pending, added.queue) == Injected(was.pending, was.queue, [FIRST], [Added(false)])
    ensures GapFree(Left(was.pending, 1))
    ensures !Fills(t, added.pending, added.queue, 1 in Senders([FIRST], [Added(false)]), 1)
  {
    hide Injected, Senders, Taken, OnlyThird, Fills;
    NoneInjected(was.pending, was.queue, [FIRST]);
    assert [Added(false)] == [] + [Added(false)] && [FIRST][..1] == [FIRST];
    InjectedNext(was.pending, was.queue, [FIRST], 0, [], Added(false));
    SendersNext([FIRST], 0, [], Added(false));
    FirstIsQueued(was);
    ThirdIsBehind(t, added.pending, added.queue);
  }

  lemma FirstIsQueued(was: PoolView)
    requires OnlyThird(was)
    ensures GapFree(Left(was.pending, 1))
    ensures var r := Taken(was.pending, was.queue, FIRST); Left(r.0, 1) == [THIRD] && Left(r.1, 1) == [FIRST]
  {
    hide Placed;
    NothingBeside(FIRST);
    LeftWith(was.queue, 1, [FIRST]);
  }

  lemma ThirdIsBehind(t: PoolRules, pending: Accounts, queue: Accounts)
    requires t == PoolRules(map[1 := 0], map[1 := 100], 100, {}, 10)
    requires Left(pending, 1) == [THIRD] && Left(queue, 1) == [FIRST]
    ensures !Fills(t, pending, queue, true, 1)
  {
    hide Usable, ReadyLength, Select;
    OneUsable(FIRST, 0);
    SelectAll([THIRD], Below(0));
  }

  lemma RunsEverywhere(pending: Accounts, tracked: map<Address, nat>, state: map<Address, nat>)
    ensures Contiguous(pending, tracked, state) <==> forall a :: IsRun(Left(pending, a), NonceAt(state, a), Tracked(tracked, state, a))
  {
  }

  lemma NoRunAt(pending: Accounts, tracked: map<Address, nat>, state: map<Address, nat>, a: Address)
    requires !IsRun(Left(pending, a), NonceAt(state, a), Tracked(tracked, state, a))
    ensures !Contiguous(pending, tracked, state)
  {
  }
}
