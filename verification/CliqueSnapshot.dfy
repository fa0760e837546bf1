/** The voting snapshot as the engine keeps it: votes and window updated in place, with a
    redundant tally so that votes need not be counted. */
module CliqueSnapshot {
  import opened Wrappers
  import opened CliqueVoting

  datatype Tally = Tally(authorize: bool, votes: nat)

  /** The tally holds, for exactly the accounts with live votes, their number and the one
      direction that makes sense. */
  ghost predicate Tallied(tally: map<Address, Tally>, signers: set<Address>, votes: seq<Vote>) {
    forall a :: Lookup(tally, a) == if CountOn(votes, a) == 0 then None else Some(Tally(a !in signers, CountOn(votes, a)))
  }

  function RemoveAt(votes: seq<Vote>, i: nat): seq<Vote>
    requires i < |votes|
  {
    votes[..i] + votes[i + 1..]
  }

  class Snapshot {
    const epoch: Epoch
    var number: nat
    var hash: Hash
    var signers: set<Address>
    var recents: map<nat, Address>
    var votes: seq<Vote>
    var tally: map<Address, Tally>

    function View(): Snap
      reads this
    {
      Snap(number, hash, signers, recents, votes)
    }

    ghost predicate Valid()
      reads this
    {
      Inv(View()) && Tallied(tally, signers, votes)
    }

    /** newSnapshot: a fresh start from a checkpoint's signers. */
    constructor (epoch: Epoch, number: nat, hash: Hash, signers: seq<Address>)
      ensures Valid() && this.epoch == epoch
      ensures View() == Snap(number, hash, set a | a in signers, map[], [])
    {
      this.epoch, this.number, this.hash := epoch, number, hash;
      this.signers := set a | a in signers;
      recents, votes, tally := map[], [], map[];
    }

    method Copy() returns (cpy: Snapshot)
      ensures fresh(cpy) && cpy.epoch == epoch && cpy.View() == View() && cpy.tally == tally
    {
      cpy := new Snapshot(epoch, number, hash, []);
      cpy.signers := signers;
      cpy.recents := recents;
      cpy.votes := votes;
      cpy.tally := tally;
    }

    predicate ValidVote(address: Address, authorize: bool)
      reads this
    {
      (address in signers && !authorize) || (address !in signers && authorize)
    }

    /** cast: a meaningful vote enters the tally. */
    method Cast(address: Address, authorize: bool) returns (ok: bool)
      requires Tallied(tally, signers, votes)
      modifies `tally
      ensures ok == (authorize == (address !in signers))
      ensures !ok ==> tally == old(tally)
      ensures ok ==> forall v: Vote :: v.address == address ==> Tallied(tally, signers, votes + [v])
    {
      hide Tallied;
      if !ValidVote(address, authorize) {
        return false;
      }
      forall v: Vote | v.address == address
        ensures Tallied(OneMore(tally, address, authorize), signers, votes + [v])
      {
        OneMoreTallied(tally, signers, votes, v, authorize);
      }
      if address in tally {
        tally := tally[address := tally[address].(votes := tally[address].votes + 1)];
      } else {
        tally := tally[address := Tally(authorize, 1)];
      }
      return true;
    }

    /** uncast: a vote that was counted leaves the tally again. The tally counts `counted`,
        in which the vote stands at i, as seen by the signers `basis`. */
    method Uncast(address: Address, authorize: bool, ghost basis: set<Address>, ghost counted: seq<Vote>, ghost i: nat) returns (ok: bool)
      requires Tallied(tally, basis, counted) && i < |counted|
      requires counted[i].address == address && authorize == (address !in basis)
      modifies `tally
      ensures ok && Tallied(tally, basis, RemoveAt(counted, i))
    {
      forall a {
        CountRemoveAt(counted, i, a);
      }
      assert Lookup(tally, address) == Some(Tally(address !in basis, CountOn(counted, address)));
      if address !in tally {
        return false;
      }
      var entry := tally[address];
      if entry.authorize != authorize {
        return false;
      }
      if entry.votes > 1 {
        tally := tally[address := entry.(votes := entry.votes - 1)];
      } else {
        tally := tally - {address};
      }
      return true;
    }

    /** The signer's previous vote on the account is taken back. */
    method DiscardPrevious(signer: Address, coinbase: Address)
      requires VotesOk(signers, votes) && Tallied(tally, signers, votes)
      modifies `votes, `tally
      ensures votes == Without(old(votes), CliqueVoting.Cast(signer, coinbase))
      ensures Tallied(tally, signers, votes)
    {
      hide Tallied;
      ghost var p := CliqueVoting.Cast(signer, coinbase);
      for i := 0 to |votes|
        invariant votes == old(votes) && tally == old(tally)
        invariant forall k :: 0 <= k < i ==> !Matches(votes[k], p)
      {
        var vote := votes[i];
        if vote.signer == signer && vote.address == coinbase {
          var _ := Uncast(vote.address, vote.authorize, signers, votes, i);
          FirstIsOnly(votes, p, i);
          votes := votes[..i] + votes[i + 1..];
          return;
        }
      }
      WithoutNone(votes, p);
    }

    /** All votes an account cast are taken back. */
    method DiscardVotesBy(who: Address, ghost basis: set<Address>)
      requires Meaningful(basis, votes) && Tallied(tally, basis, votes)
      modifies `votes, `tally
      ensures votes == Without(old(votes), By(who)) && Tallied(tally, basis, votes)
    {
      hide Tallied, Sifted;
      ghost var all, k := votes, 0;
      var i := 0;
      SiftedStarts(all, By(who));
      while i < |votes|
        invariant k <= |all| && Sifted(votes, all, By(who), k, i)
        invariant Tallied(tally, basis, votes)
        decreases |votes| - i
      {
        SiftedNext(votes, all, By(who), k, i);
        assert votes[i].authorize == (votes[i].address !in basis);
        if votes[i].signer == who {
          var _ := Uncast(votes[i].address, votes[i].authorize, basis, votes, i);
          votes := votes[..i] + votes[i + 1..];
        } else {
          i := i + 1;
        }
        k := k + 1;
      }
      SiftedMeans(votes, all, By(who), k, i);
    }

    /** All votes on an account are dropped; its tally entry goes separately. */
    method DiscardVotesOn(who: Address)
      modifies `votes
      ensures votes == Without(old(votes), On(who))
    {
      hide Sifted;
      ghost var all, k := votes, 0;
      var i := 0;
      SiftedStarts(all, On(who));
      while i < |votes|
        invariant k <= |all| && Sifted(votes, all, On(who), k, i)
        decreases |votes| - i
      {
        SiftedNext(votes, all, On(who), k, i);
        if votes[i].address == who {
          votes := votes[..i] + votes[i + 1..];
        } else {
          i := i + 1;
        }
        k := k + 1;
      }
      SiftedMeans(votes, all, On(who), k, i);
    }

    /** One turn of apply's loop. The snapshot's own number and hash wait for the end. */
    method ApplyHeader(header: Header) returns (error: Option<Error>)
      requires VotesOk(signers, votes) && Tallied(tally, signers, votes)
      modifies `signers, `recents, `votes, `tally
      ensures var r := Next(epoch, old(View()), header);
              if r.Err? then error == Some(r.error)
              else error == None && View() == r.value.(number := number, hash := hash)
                   && VotesOk(signers, votes) && Tallied(tally, signers, votes)
      ensures error.None? ==> forall v :: v in votes <==>
        && ((v == Vote(header.signer.value, header.number, header.coinbase, header.nonce == NONCE_AUTH)
             && v.authorize == (header.coinbase !in old(signers)))
            || (header.number % epoch != 0 && v in old(votes) && (v.signer != header.signer.value || v.address != header.coinbase)))
        && (signers == old(signers) || (v.address != header.coinbase && (header.coinbase in old(signers) ==> v.signer != header.coinbase)))
    {
      hide Tallied, VotesOk, Without, CountOn;
      if Next(epoch, View(), header).Ok? {
        forall v {
          LiveVotes(epoch, View(), header, v);
        }
      }
      var n := header.number;
      ghost var s := View();
      if n % epoch == 0 {
        votes := [];
        tally := map[];
        NothingTallied(signers);
      }
      ShiftWindow(n);
      if header.signer.None? {
        return Some(MissingSignature);
      }
      var signer := header.signer.value;
      if signer !in signers {
        return Some(UnauthorizedSigner);
      }
      if signer in recents.Values {
        return Some(RecentlySigned);
      }
      recents := recents[n := signer];
      DiscardPrevious(signer, header.coinbase);
      if header.nonce != NONCE_AUTH && header.nonce != NONCE_DROP {
        return Some(InvalidVote);
      }
      var authorize := header.nonce == NONCE_AUTH;
      var ok := Cast(header.coinbase, authorize);
      if ok {
        votes := votes + [Vote(signer, n, header.coinbase, authorize)];
      }
      VotedOk(epoch, s, header, signer);
      assert votes == Voted(epoch, s, header, signer);
      TalliedAt(tally, signers, votes, header.coinbase);
      if header.coinbase in tally && tally[header.coinbase].votes > |signers| / 2 {
        PassedOk(s, header, recents, votes);
        PassVote(s, header);
      }
      return None;
    }

    /** delete(snap.Recents, number-limit), unless that would reach below the first block. */
    method ShiftWindow(n: nat)
      modifies `recents
      ensures recents == Expire(old(recents), n, signers)
    {
      var limit := |signers| / 2 + 1;
      if n >= limit {
        recents := recents - {n - limit};
      }
    }

    /** The vote passed: the list of signers changes. */
    method PassVote(ghost s: Snap, header: Header)
      requires VotesOk(signers, votes) && Tallied(tally, signers, votes) && s.signers == signers
      requires header.coinbase in tally && tally[header.coinbase].authorize == (header.coinbase !in signers)
      modifies `signers, `recents, `votes, `tally
      ensures View() == Passed(s, header, old(recents), old(votes)).(number := number, hash := hash)
      ensures Tallied(tally, signers, votes)
    {
      hide Tallied, Without;
      ghost var basis := signers;
      if tally[header.coinbase].authorize {
        signers := signers + {header.coinbase};
      } else {
        signers := signers - {header.coinbase};
        ShiftWindow(header.number);
        DiscardVotesBy(header.coinbase, basis);
      }
      RetallyOthers(tally, basis, signers, votes, header.coinbase);
      DiscardVotesOn(header.coinbase);
      tally := tally - {header.coinbase};
    }

    /** apply: the snapshot after the headers, or the error of the first that does not fit.
        The receiver stays as it is. */
    method Apply(headers: seq<Header>) returns (r: Result<Snapshot>)
      requires Valid()
      ensures CliqueVoting.Apply(epoch, View(), headers).Ok? == r.Ok?
      ensures r.Err? ==> CliqueVoting.Apply(epoch, View(), headers) == Err(r.error)
      ensures r.Ok? ==> r.value.Valid() && r.value.epoch == epoch && CliqueVoting.Apply(epoch, View(), headers) == Ok(r.value.View())
      ensures r.Ok? ==> if headers == [] then r.value == this else fresh(r.value)
    {
      hide Tallied, Inv;
      if |headers| == 0 {
        return Ok(this);
      }
      for i := 0 to |headers| - 1
        invariant forall j :: 0 <= j < i ==> headers[j + 1].number == headers[j].number + 1
      {
        if headers[i + 1].number != headers[i].number + 1 {
          return Err(InvalidVotingChain);
        }
      }
      if headers[0].number != number + 1 {
        return Err(InvalidVotingChain);
      }
      StepsAreContiguous(number, headers);
      r := this.ApplyAll(headers);
    }

    /** The loop over contiguous headers, on a copy. */
    method ApplyAll(headers: seq<Header>) returns (r: Result<Snapshot>)
      requires Valid() && |headers| > 0 && Contiguous(number, headers)
      ensures Fold(epoch, View(), headers).Ok? == r.Ok?
      ensures r.Err? ==> Fold(epoch, View(), headers) == Err(r.error)
      ensures r.Ok? ==> fresh(r.value) && r.value.Valid() && r.value.epoch == epoch && Fold(epoch, View(), headers) == Ok(r.value.View())
    {
      hide Tallied, VotesOk, Next, Window;
      var snap := Copy();
      ghost var s := View();
      assert headers[..0] == [];
      for i := 0 to |headers|
        invariant fresh(snap) && snap.epoch == epoch && snap.number == number && snap.hash == hash
        invariant VotesOk(snap.signers, snap.votes) && Tallied(snap.tally, snap.signers, snap.votes)
        invariant Fold(epoch, s, headers[..i]).Ok?
        invariant SameButPlace(snap.View(), Fold(epoch, s, headers[..i]).value)
      {
        assert headers[..i + 1][..i] == headers[..i];
        ghost var before := Fold(epoch, s, headers[..i]).value;
        NextIgnoresPlace(epoch, snap.View(), before, headers[i]);
        var error := snap.ApplyHeader(headers[i]);
        if error.Some? {
          FoldError(epoch, s, headers, i + 1);
          return Err(error.value);
        }
      }
      assert headers[..|headers|] == headers;
      FoldKeepsInv(epoch, s, headers);
      snap.number := snap.number + |headers|;
      snap.hash := headers[|headers| - 1].hash;
      return Ok(snap);
    }
  }

  predicate SameButPlace(s: Snap, t: Snap) {
    s.signers == t.signers && s.recents == t.recents && s.votes == t.votes
  }

  lemma NextIgnoresPlace(epoch: Epoch, s: Snap, t: Snap, h: Header)
    requires SameButPlace(s, t)
    ensures Next(epoch, s, h) == Next(epoch, t, h)
  {
  }

  lemma {:induction false} FoldError(epoch: Epoch, s: Snap, hs: seq<Header>, k: nat)
    requires k <= |hs| && Fold(epoch, s, hs[..k]).Err?
    ensures Fold(epoch, s, hs) == Fold(epoch, s, hs[..k])
  {
    if k == |hs| {
      assert hs[..k] == hs;
    } else {
      assert hs[..|hs| - 1][..k] == hs[..k];
      FoldError(epoch, s, hs[..|hs| - 1], k);
    }
  }

  lemma {:induction false} StepsAreContiguous(number: nat, hs: seq<Header>)
    requires |hs| > 0 && hs[0].number == number + 1
    requires forall j :: 0 <= j < |hs| - 1 ==> hs[j + 1].number == hs[j].number + 1
    ensures Contiguous(number, hs)
  {
    var i := 0;
    while i < |hs|
      invariant 0 <= i <= |hs|
      invariant forall k :: 0 <= k < i ==> hs[k].number == number + 1 + k
    {
      assert i > 0 ==> hs[i - 1 + 1].number == hs[i - 1].number + 1;
      i := i + 1;
    }
  }

  // ----- counting -----

  /** The tally with one more vote on an account. */
  function OneMore(tally: map<Address, Tally>, address: Address, authorize: bool): map<Address, Tally> {
    tally[address := if address in tally then tally[address].(votes := tally[address].votes + 1) else Tally(authorize, 1)]
  }

  lemma OneMoreTallied(tally: map<Address, Tally>, signers: set<Address>, votes: seq<Vote>, v: Vote, authorize: bool)
    requires Tallied(tally, signers, votes) && authorize == (v.address !in signers)
    ensures Tallied(OneMore(tally, v.address, authorize), signers, votes + [v])
  {
    forall a
      ensures Lookup(OneMore(tally, v.address, authorize), a)
           == if CountOn(votes + [v], a) == 0 then None else Some(Tally(a !in signers, CountOn(votes + [v], a)))
    {
      CountAppend(votes, v, a);
      TalliedAt(tally, signers, votes, a);
    }
  }

  lemma CountAppend(votes: seq<Vote>, v: Vote, a: Address)
    ensures CountOn(votes + [v], a) == CountOn(votes, a) + if v.address == a then 1 else 0
  {
    assert (votes + [v])[..|votes|] == votes;
  }

  lemma {:induction false} CountConcat(xs: seq<Vote>, ys: seq<Vote>, a: Address)
    ensures CountOn(xs + ys, a) == CountOn(xs, a) + CountOn(ys, a)
  {
    if |ys| == 0 {
      assert xs + ys == xs;
    } else {
      assert (xs + ys)[..|xs + ys| - 1] == xs + ys[..|ys| - 1];
      CountConcat(xs, ys[..|ys| - 1], a);
    }
  }

  lemma CountRemoveAt(votes: seq<Vote>, i: nat, a: Address)
    requires i < |votes|
    ensures CountOn(RemoveAt(votes, i), a) == CountOn(votes, a) - if votes[i].address == a then 1 else 0
  {
    var front := votes[..i + 1];
    assert votes == front + votes[i + 1..];
    assert front == votes[..i] + [votes[i]];
    CountConcat(front, votes[i + 1..], a);
    CountAppend(votes[..i], votes[i], a);
    CountConcat(votes[..i], votes[i + 1..], a);
  }

  lemma {:induction false} CountWithoutOn(votes: seq<Vote>, who: Address, a: Address)
    ensures CountOn(Without(votes, On(who)), a) == if a == who then 0 else CountOn(votes, a)
  {
    if |votes| > 0 {
      var front, last := votes[..|votes| - 1], votes[|votes| - 1];
      CountWithoutOn(front, who, a);
      CountAppend(Without(front, On(who)), last, a);
      assert Without(front, On(who)) + [] == Without(front, On(who));
    }
  }

  lemma NothingTallied(signers: set<Address>)
    ensures Tallied(map[], signers, []) && VotesOk(signers, [])
  {
  }

  lemma TalliedAt(tally: map<Address, Tally>, signers: set<Address>, votes: seq<Vote>, a: Address)
    requires Tallied(tally, signers, votes)
    ensures a in tally ==> tally[a] == Tally(a !in signers, CountOn(votes, a))
    ensures a !in tally ==> CountOn(votes, a) == 0
  {
    assert Lookup(tally, a) == if CountOn(votes, a) == 0 then None else Some(Tally(a !in signers, CountOn(votes, a)));
  }

  /** Once the votes on the account that changed are gone, the others' tally stands. */
  lemma RetallyOthers(tally: map<Address, Tally>, basis: set<Address>, signers: set<Address>, votes: seq<Vote>, who: Address)
    requires Tallied(tally, basis, votes)
    requires forall a :: a != who ==> (a in basis <==> a in signers)
    ensures Tallied(tally - {who}, signers, Without(votes, On(who)))
  {
    forall a
      ensures Lookup(tally - {who}, a) == var n := CountOn(Without(votes, On(who)), a); if n == 0 then None else Some(Tally(a !in signers, n))
    {
      CountWithoutOn(votes, who, a);
      TalliedAt(tally, basis, votes, a);
    }
  }

  // ----- filtering in place -----

  /** Of all the votes the first k have been looked at, and i of those kept. */
  ghost predicate Sifted(votes: seq<Vote>, all: seq<Vote>, p: Pattern, k: nat, i: nat) {
    k <= |all| && i == |Without(all[..k], p)| && votes == Without(all[..k], p) + all[k..]
  }

  lemma SiftedStarts(all: seq<Vote>, p: Pattern)
    ensures Sifted(all, all, p, 0, 0)
  {
  }

  lemma SiftedNext(votes: seq<Vote>, all: seq<Vote>, p: Pattern, k: nat, i: nat)
    requires Sifted(votes, all, p, k, i) && i < |votes|
    ensures k < |all| && votes[i] == all[k]
    ensures Matches(votes[i], p) ==> Sifted(votes[..i] + votes[i + 1..], all, p, k + 1, i)
    ensures !Matches(votes[i], p) ==> Sifted(votes, all, p, k + 1, i + 1)
  {
    hide Without;
    WithoutNext(all, p, k);
    NextOfRest(Without(all[..k], p), all, k);
  }

  lemma SiftedMeans(votes: seq<Vote>, all: seq<Vote>, p: Pattern, k: nat, i: nat)
    requires Sifted(votes, all, p, k, i) && i >= |votes|
    ensures k == |all| && votes == Without(all, p)
  {
    assert |votes| == i + (|all| - k);
    assert all[..|all|] == all;
  }

  lemma WithoutNext(votes: seq<Vote>, p: Pattern, k: nat)
    requires k < |votes|
    ensures Without(votes[..k + 1], p) == Without(votes[..k], p) + if Matches(votes[k], p) then [] else [votes[k]]
  {
    assert votes[..k + 1][..k] == votes[..k];
  }

  lemma {:induction false} WithoutNone(votes: seq<Vote>, p: Pattern)
    requires forall k :: 0 <= k < |votes| ==> !Matches(votes[k], p)
    ensures Without(votes, p) == votes
  {
    if |votes| > 0 {
      WithoutNone(votes[..|votes| - 1], p);
    }
  }

  lemma {:induction false} WithoutConcat(xs: seq<Vote>, ys: seq<Vote>, p: Pattern)
    ensures Without(xs + ys, p) == Without(xs, p) + Without(ys, p)
  {
    if |ys| == 0 {
      assert xs + ys == xs;
    } else {
      assert (xs + ys)[..|xs + ys| - 1] == xs + ys[..|ys| - 1];
      WithoutConcat(xs, ys[..|ys| - 1], p);
    }
  }

  /** Between what was kept so far and the rest stands the next vote, to be dropped or kept. */
  lemma NextOfRest(kept: seq<Vote>, all: seq<Vote>, k: nat)
    requires k < |all|
    ensures var votes := kept + all[k..];
            && |kept| < |votes| && votes[|kept|] == all[k]
            && votes[..|kept|] + votes[|kept| + 1..] == kept + all[k + 1..]
            && votes == (kept + [all[k]]) + all[k + 1..]
  {
  }

  /** With one vote each, the first vote found is the only one. */
  lemma FirstIsOnly(votes: seq<Vote>, p: Pattern, i: nat)
    requires OneVoteEach(votes) && p.Cast? && i < |votes| && Matches(votes[i], p)
    ensures Without(votes, p) == RemoveAt(votes, i)
  {
    hide Without;
    var x, y := votes[..i], votes[i + 1..];
    assert votes[..i + 1] + y == votes;
    WithoutConcat(votes[..i + 1], y, p);
    WithoutNext(votes, p, i);
    OthersDiffer(votes, p, i, x, y);
    WithoutNone(x, p);
    WithoutNone(y, p);
    assert x + [] == x;
  }

  lemma OthersDiffer(votes: seq<Vote>, p: Pattern, i: nat, x: seq<Vote>, y: seq<Vote>)
    requires OneVoteEach(votes) && p.Cast? && i < |votes| && Matches(votes[i], p)
    requires x == votes[..i] && y == votes[i + 1..]
    ensures forall k :: 0 <= k < |x| ==> !Matches(x[k], p)
    ensures forall k :: 0 <= k < |y| ==> !Matches(y[k], p)
  {
    forall k | 0 <= k < |y|
      ensures !Matches(y[k], p)
    {
      assert y[k] == votes[i + 1 + k];
    }
  }
}
