/** The Clique engine: snapshots found by walking back to a cached or stored one, headers
    prepared, sealed and verified on top of them. */
module CliqueEngine {
  import opened Wrappers
  import opened CliqueVoting
  import opened CliqueSnapshot
  import opened CliqueSealing
  import opened CliqueTurns

  const CHECKPOINT_INTERVAL := 1024
  const DIFF_IN_TURN := 2
  const DIFF_NO_TURN := 1
  /** The hash of an empty uncle list. */
  const NO_UNCLES: Hash := 1

  /** All headers by hash, each with its parent, back to one genesis header. */
  ghost predicate Rooted(world: map<Hash, Header>) {
    forall h :: h in world ==>
      && world[h].hash == h
      && (world[h].number > 0 ==> world[h].parentHash in world && world[world[h].parentHash].number + 1 == world[h].number)
      && forall k :: k in world && world[h].number == 0 && world[k].number == 0 ==> h == k
  }

  /** The chain reader: headers by hash, and the canonical ones by number. */
  datatype Chain = Chain(headers: map<Hash, Header>, canonical: map<nat, Header>) {
    function GetHeader(hash: Hash, number: nat): Option<Header> {
      if hash in headers && headers[hash].number == number then Some(headers[hash]) else None
    }
  }

  /** What a chain reader is: canonical numbers have no gaps from genesis on, and a hash
      names one header. */
  ghost predicate Sane(world: map<Hash, Header>, chain: Chain) {
    && (forall h :: h in chain.headers ==> chain.headers[h].hash == h && (h in world ==> chain.headers[h] == world[h]))
    && 0 in chain.canonical
    && (forall n :: n in chain.canonical ==>
         && chain.canonical[n].number == n && chain.canonical[n].hash in world && chain.canonical[n] == world[chain.canonical[n].hash]
         && (n > 0 ==> n - 1 in chain.canonical))
  }

  /** The chain reader has a header and all below it. */
  ghost predicate Complete(world: map<Hash, Header>, chain: Chain, h: Hash)
    requires Rooted(world) && h in world
    decreases world[h].number
  {
    h in chain.headers && (world[h].number > 0 ==> Complete(world, chain, world[h].parentHash))
  }

  /** No header is missing on the way down from hash, the explicit parents coming first. */
  ghost predicate Linked(world: map<Hash, Header>, chain: Chain, hash: Hash, parents: seq<Header>)
    requires Rooted(world)
    decreases |parents|
  {
    if |parents| > 0 then
      var last := parents[|parents| - 1];
      last.hash == hash && (last.number > 0 ==> Linked(world, chain, last.parentHash, parents[..|parents| - 1]))
    else hash in world && Complete(world, chain, hash)
  }

  function Genesis(h: Header): Snap {
    Snap(0, h.hash, set a | a in h.extra.Signers(), map[], [])
  }

  /** The snapshot at a header: all headers since genesis applied. */
  ghost function SnapAt(epoch: Epoch, world: map<Hash, Header>, h: Hash): Result<Snap>
    requires Rooted(world) && h in world
    decreases world[h].number
  {
    if world[h].number == 0 then Ok(Genesis(world[h]))
    else
      var before := SnapAt(epoch, world, world[h].parentHash);
      if before.Err? then before else Next(epoch, before.value, world[h])
  }

  lemma {:induction false} SnapAtInv(epoch: Epoch, world: map<Hash, Header>, h: Hash)
    requires Rooted(world) && h in world && SnapAt(epoch, world, h).Ok?
    ensures var s := SnapAt(epoch, world, h).value; Inv(s) && s.number == world[h].number && s.hash == h
    decreases world[h].number
  {
    hide Next, Inv;
    if world[h].number == 0 {
      GenesisInv(world[h]);
    } else {
      var p := world[h].parentHash;
      SnapAtInv(epoch, world, p);
      NextKeepsInv(epoch, SnapAt(epoch, world, p).value, world[h]);
      NextHash(epoch, SnapAt(epoch, world, p).value, world[h]);
    }
  }

  lemma NextHash(epoch: Epoch, s: Snap, h: Header)
    requires Next(epoch, s, h).Ok?
    ensures Next(epoch, s, h).value.hash == h.hash
  {
  }

  lemma GenesisInv(h: Header)
    ensures Inv(Genesis(h))
  {
  }

  /** Headers leading from one hash up to another, oldest first. */
  ghost predicate Path(world: map<Hash, Header>, from: Hash, hs: seq<Header>, to: Hash)
    decreases |hs|
  {
    if |hs| == 0 then from == to
    else
      && hs[0].hash in world && world[hs[0].hash] == hs[0] && hs[0].parentHash == from && hs[0].number > 0
      && Path(world, hs[0].hash, hs[1..], to)
  }

  /** Wherever the walk stops, applying the headers above gives the snapshot at the top. */
  lemma {:induction false} PathGivesSnap(epoch: Epoch, world: map<Hash, Header>, from: Hash, hs: seq<Header>, to: Hash)
    requires Rooted(world) && from in world && Path(world, from, hs, to)
    ensures to in world && Contiguous(world[from].number, hs)
    ensures SnapAt(epoch, world, to) ==
            var s := SnapAt(epoch, world, from); if s.Err? then s else Fold(epoch, s.value, hs)
    ensures |hs| > 0 ==> hs[|hs| - 1].hash == to
    decreases |hs|
  {
    hide Next;
    if |hs| > 0 {
      var next := hs[0].hash;
      PathGivesSnap(epoch, world, next, hs[1..], to);
      PathStep(epoch, world, from, hs);
      ContiguousConcat(world[from].number, [hs[0]], hs[1..]);
      assert [hs[0]] + hs[1..] == hs;
    }
  }

  lemma PathStep(epoch: Epoch, world: map<Hash, Header>, from: Hash, hs: seq<Header>)
    requires Rooted(world) && from in world && |hs| > 0 && hs[0].number > 0
    requires hs[0].hash in world && world[hs[0].hash] == hs[0] && hs[0].parentHash == from
    ensures world[from].number + 1 == hs[0].number
    ensures var s, t := SnapAt(epoch, world, from), SnapAt(epoch, world, hs[0].hash);
            && t == (if s.Err? then s else Next(epoch, s.value, hs[0]))
            && (s.Ok? ==> Fold(epoch, s.value, hs) == if t.Err? then t else Fold(epoch, t.value, hs[1..]))
  {
    hide Next;
    var s := SnapAt(epoch, world, from);
    if s.Ok? {
      FoldConcat(epoch, s.value, [hs[0]], hs[1..]);
      assert [hs[0]] + hs[1..] == hs;
      assert [hs[0]][..0] == [];
      assert Fold(epoch, s.value, [hs[0]]) == Next(epoch, s.value, hs[0]);
    }
  }

  // ----- gathering headers -----

  /** Headers gathered newest first, in chain order. */
  function Backwards(hs: seq<Header>): seq<Header> {
    if |hs| == 0 then [] else [hs[|hs| - 1]] + Backwards(hs[..|hs| - 1])
  }

  lemma {:induction false} BackwardsAt(hs: seq<Header>, k: nat)
    requires k < |hs|
    ensures |Backwards(hs)| == |hs| && Backwards(hs)[k] == hs[|hs| - 1 - k]
  {
    if |hs| > 1 {
      BackwardsAt(hs[..|hs| - 1], if k > 0 then k - 1 else 0);
    } else {
      assert Backwards(hs[..0]) == [];
    }
  }

  lemma IsBackwards(hs: seq<Header>, r: seq<Header>)
    requires |r| == |hs| && forall k :: 0 <= k < |hs| ==> r[k] == hs[|hs| - 1 - k]
    ensures r == Backwards(hs)
  {
    hide Backwards;
    forall k | 0 <= k < |hs|
      ensures |Backwards(hs)| == |hs| && r[k] == Backwards(hs)[k]
    {
      BackwardsAt(hs, k);
    }
    if |hs| == 0 {
      NothingBackwards(hs);
    } else {
      BackwardsAt(hs, 0);
    }
    assert |r| == |Backwards(hs)|;
  }

  lemma NothingBackwards(hs: seq<Header>)
    requires |hs| == 0
    ensures Backwards(hs) == []
  {
  }

  /** The swaps that put the gathered headers in order. */
  method Reverse(headers: seq<Header>) returns (r: seq<Header>)
    ensures r == Backwards(headers)
  {
    hide Backwards;
    r := headers;
    var n := |headers|;
    var i := 0;
    while i < n / 2
      invariant 0 <= i <= n / 2 && |r| == n
      invariant forall k :: 0 <= k < i ==> r[k] == headers[n - 1 - k]
      invariant forall k :: n - i <= k < n ==> r[k] == headers[n - 1 - k]
      invariant forall k :: i <= k < n - i ==> r[k] == headers[k]
    {
      var low, high := r[i], r[n - 1 - i];
      r := r[i := high][n - 1 - i := low];
      i := i + 1;
    }
    IsBackwards(headers, r);
  }

  lemma PathNowhere(world: map<Hash, Header>, h: Hash)
    ensures Path(world, h, Backwards([]), h)
  {
  }

  lemma PathLonger(world: map<Hash, Header>, headers: seq<Header>, header: Header, to: Hash)
    requires header.hash in world && world[header.hash] == header && header.number > 0
    requires Path(world, header.hash, Backwards(headers), to)
    ensures Path(world, header.parentHash, Backwards(headers + [header]), to)
  {
    assert (headers + [header])[..|headers|] == headers;
    var hs := Backwards(headers + [header]);
    assert hs == [header] + Backwards(headers);
    assert hs[1..] == Backwards(headers);
  }

  lemma ParentBelow(world: map<Hash, Header>, h: Hash)
    requires Rooted(world) && h in world && world[h].number > 0
    ensures world[h].hash == h && world[h].parentHash in world && world[world[h].parentHash].number + 1 == world[h].number
  {
  }

  /** With no header missing, the walk finds what it looks for. */
  lemma FoundIfLinked(world: map<Hash, Header>, chain: Chain, h: Hash, number: nat, parents: seq<Header>)
    requires Rooted(world) && Sane(world, chain) && h in world && world[h].number == number
    requires |parents| > 0 ==> var last := parents[|parents| - 1]; last.hash in world ==> last == world[last.hash]
    ensures Linked(world, chain, h, parents) ==>
      if |parents| > 0 then parents[|parents| - 1] == world[h] else chain.GetHeader(h, number) == Some(world[h])
  {
  }

  lemma LinkedOn(world: map<Hash, Header>, chain: Chain, h: Hash, parents: seq<Header>)
    requires Rooted(world) && h in world && world[h].number > 0
    requires |parents| > 0 ==> var last := parents[|parents| - 1]; last.hash in world ==> last == world[last.hash]
    ensures Linked(world, chain, h, parents) && |parents| == 0 ==> Linked(world, chain, world[h].parentHash, [])
    ensures Linked(world, chain, h, parents) && |parents| > 0 ==>
      Linked(world, chain, parents[|parents| - 1].parentHash, parents[..|parents| - 1])
  {
  }

  lemma SaneHeader(world: map<Hash, Header>, chain: Chain, h: Hash, number: nat)
    requires Sane(world, chain) && h in world && chain.GetHeader(h, number).Some?
    ensures chain.GetHeader(h, number).value == world[h]
  {
  }

  /** What a lookup of the parent finds. */
  lemma LinkedParent(world: map<Hash, Header>, chain: Chain, h: Hash, number: nat, parents: seq<Header>)
    requires Rooted(world) && Sane(world, chain) && forall p :: p in parents ==> p.hash in world && p == world[p.hash]
    ensures var p := if |parents| > 0 then Some(parents[|parents| - 1]) else chain.GetHeader(h, number);
      && (p.Some? && h in world && p.value.hash == h ==> p.value == world[h])
      && (|parents| == 0 && p.Some? ==> p.value.number == number && p.value.hash == h)
      && (Linked(world, chain, h, parents) ==>
          h in world && world[h].hash == h && (world[h].number == number ==> p == Some(world[h])))
  {
    if |parents| > 0 {
      assert parents[|parents| - 1] in parents;
    }
  }

  lemma OnlySorted(s: seq<Address>, sorted: seq<Address>)
    requires Ascending(sorted)
    ensures Ascending(s) && Members(s) == Members(sorted) <==> s == sorted
  {
    if Ascending(s) && Members(s) == Members(sorted) {
      AscendingUnique(s, sorted);
    }
  }

  /** Number 0 is genesis, and the canonical table starts there. */
  lemma AtGenesis(epoch: Epoch, world: map<Hash, Header>, chain: Chain, h: Hash)
    requires Rooted(world) && Sane(world, chain) && h in world
    requires world[h].number in chain.canonical && (world[h].number > 0 ==> world[h].number - 1 !in chain.canonical)
    ensures world[h].number == 0 && chain.canonical[0] == world[h] && world[h].hash == h
    ensures SnapAt(epoch, world, h) == Ok(Genesis(world[h]))
  {
    assert world[chain.canonical[world[h].number].hash].number == world[h].number;
  }

  /** A snapshot as stored in the database. */
  datatype Stored = Stored(view: Snap, tally: map<Address, Tally>)

  /** What verifySeal asks of a seal. */
  predicate SealIsGood(s: Snap, h: Header) {
    && h.signer.Some? && h.signer.value in s.signers
    && VerifyAllows(s, h.number, h.signer.value)
    && h.difficulty == if InTurn(s.signers, h.number, h.signer.value) then DIFF_IN_TURN else DIFF_NO_TURN
  }

  /** What a header must be on its own. */
  predicate WellFormed(epoch: Epoch, h: Header, now: nat) {
    && h.time <= now && (h.nonce == NONCE_AUTH || h.nonce == NONCE_DROP)
    && h.extra.Full? && h.extra.excess == 0 && h.mixDigest == 0 && h.uncleHash == NO_UNCLES
    && (h.number > 0 ==> h.difficulty == DIFF_IN_TURN || h.difficulty == DIFF_NO_TURN)
    && (h.number % epoch == 0 ==> h.coinbase == 0 && h.nonce == NONCE_DROP)
    && (h.number % epoch != 0 ==> h.extra.signers == [])
  }

  /** What it must be on top of its parent. */
  predicate Follows(epoch: Epoch, period: nat, parent: Header, s: Snap, h: Header) {
    && parent.time + period <= h.time
    && (h.number % epoch == 0 ==>
        h.extra.Full? && h.extra.excess == 0 && Ascending(h.extra.signers) && Members(h.extra.signers) == s.signers)
    && SealIsGood(s, h)
  }

  /** The consensus rules for a header above genesis. */
  ghost predicate IsValid(epoch: Epoch, period: nat, world: map<Hash, Header>, h: Header, now: nat)
    requires Rooted(world)
  {
    && WellFormed(epoch, h, now)
    && h.number > 0 && h.parentHash in world && world[h.parentHash].number + 1 == h.number
    && var s := SnapAt(epoch, world, h.parentHash);
       s.Ok? && Follows(epoch, period, world[h.parentHash], s.value, h)
  }

  /** What Prepare makes of a header: a vote that would count, or none, and at checkpoints
      the signers instead. */
  ghost predicate Prepared(epoch: Epoch, period: nat, s: Snap, parent: Header, signer: Address,
                           proposals: map<Address, bool>, now: nat, was: Header, h: Header) {
    && h.number == was.number && h.parentHash == was.parentHash && h.uncleHash == was.uncleHash
    && h.time == (if parent.time + period < now then now else parent.time + period)
    && h.mixDigest == 0 && h.extra.Full? && h.extra.excess == 0
    && s.signers != {} && h.difficulty == (if InTurn(s.signers, h.number, signer) then DIFF_IN_TURN else DIFF_NO_TURN)
    && (h.number % epoch == 0 ==> Ascending(h.extra.signers) && Members(h.extra.signers) == s.signers)
    && (h.number % epoch != 0 ==> h.extra.signers == [])
    && ((h.coinbase == 0 && h.nonce == NONCE_DROP) || IsProposal(epoch, s, proposals, h))
  }

  ghost predicate IsProposal(epoch: Epoch, s: Snap, proposals: map<Address, bool>, h: Header) {
    && h.number % epoch != 0 && h.coinbase in proposals
    && h.nonce == (if proposals[h.coinbase] then NONCE_AUTH else NONCE_DROP)
    && proposals[h.coinbase] == (h.coinbase !in s.signers)
  }

  /** What Prepare, Finalize and Seal make of a header is valid once its time has come, the
      next snapshot takes it, and the vote it casts decides or stays live. */
  lemma MinedIsValid(epoch: Epoch, period: nat, world: map<Hash, Header>, signer: Address, proposals: map<Address, bool>,
                     was: Header, prepared: Header, sealed: Header, asked: nat, now: nat)
    requires Rooted(world) && was.number > 0 && was.number < UINT64
    requires was.parentHash in world && world[was.parentHash].number + 1 == was.number
    requires var s := SnapAt(epoch, world, was.parentHash);
             && s.Ok? && |s.value.signers| < UINT64
             && signer in s.value.signers && ApplyAllows(s.value, was.number, signer)
             && Prepared(epoch, period, s.value, world[was.parentHash], signer, proposals, asked, was, prepared)
    requires sealed == prepared.(uncleHash := NO_UNCLES, signer := Some(signer)) && sealed.time <= now
    ensures IsValid(epoch, period, world, sealed, now)
    ensures var s := SnapAt(epoch, world, was.parentHash).value;
            && Next(epoch, s, sealed).Ok?
            && (IsProposal(epoch, s, proposals, sealed) ==>
                || Next(epoch, s, sealed).value.signers == Toggle(s.signers, sealed.coinbase)
                || Vote(signer, sealed.number, sealed.coinbase, proposals[sealed.coinbase]) in Next(epoch, s, sealed).value.votes)
  {
    hide SnapAt, Inv, Without, Expire;
    SnapAtInv(epoch, world, was.parentHash);
    var s := SnapAt(epoch, world, was.parentHash).value;
    GoodSeal(epoch, s, sealed, signer);
    if IsProposal(epoch, s, proposals, sealed) {
      LiveVotes(epoch, s, sealed, Vote(signer, sealed.number, sealed.coinbase, proposals[sealed.coinbase]));
    }
  }

  lemma GoodSeal(epoch: Epoch, s: Snap, h: Header, signer: Address)
    requires Inv(s) && h.number == s.number + 1 && h.number < UINT64 && |s.signers| < UINT64
    requires signer in s.signers && h.signer == Some(signer) && ApplyAllows(s, h.number, signer)
    requires h.difficulty == if InTurn(s.signers, h.number, signer) then DIFF_IN_TURN else DIFF_NO_TURN
    requires h.nonce == NONCE_AUTH || h.nonce == NONCE_DROP
    ensures SealIsGood(s, h) && Next(epoch, s, h).Ok?
  {
    SealMatchesApply(s, h.number, signer);
    VerifySealIsLaxAtStart(s, h.number, signer);
    AcceptedHeaders(epoch, s, h);
  }

  /** Exactly when a valid header has a snapshot of its own: always, but for recent signers in
      the first blocks, whom verifySeal lets through. */
  lemma ValidHasSnapshot(epoch: Epoch, period: nat, world: map<Hash, Header>, h: Header, now: nat)
    requires Rooted(world) && h.hash in world && world[h.hash] == h && IsValid(epoch, period, world, h, now)
    requires h.number < UINT64 && |SnapAt(epoch, world, h.parentHash).value.signers| < UINT64
    ensures var s := SnapAt(epoch, world, h.parentHash).value;
            && (SnapAt(epoch, world, h.hash).Ok? <==> ApplyAllows(s, h.number, h.signer.value))
            && (h.number >= Limit(s.signers) ==> SnapAt(epoch, world, h.hash).Ok?)
  {
    hide Inv, Next;
    var s := SnapAt(epoch, world, h.parentHash).value;
    SnapAtInv(epoch, world, h.parentHash);
    SealMatchesApply(s, h.number, h.signer.value);
    VerifySealIsLaxAtStart(s, h.number, h.signer.value);
    AcceptedHeaders(epoch, s, h);
  }

  /** What a valid header is like: at least a period after its parent and not of the future;
      sealed by a signer, with difficulty 2 at its place in the rota and 1 otherwise; at
      checkpoints with the signers in order and no vote, elsewhere without signers. */
  lemma ValidRules(epoch: Epoch, period: nat, world: map<Hash, Header>, h: Header, now: nat, sigs: seq<Address>)
    requires Rooted(world) && IsValid(epoch, period, world, h, now)
    requires Ascending(sigs) && Members(sigs) == SnapAt(epoch, world, h.parentHash).value.signers
    ensures world[h.parentHash].time + period <= h.time <= now && world[h.parentHash].number + 1 == h.number
    ensures sigs != [] && h.signer.Some? && h.signer.value in sigs
    ensures h.difficulty == if h.signer.value == sigs[h.number % |sigs|] then 2 else 1
    ensures h.nonce == 0 || (h.nonce == 0xffff_ffff_ffff_ffff && h.number % epoch != 0)
    ensures h.extra.Full? && h.extra.excess == 0 && h.extra.signers == if h.number % epoch == 0 then sigs else []
    ensures h.number % epoch == 0 ==> h.coinbase == 0
  {
    hide SnapAt, VerifyAllows, InTurn, Rooted;
    var s := SnapAt(epoch, world, h.parentHash).value;
    assert h.signer.value in Members(sigs);
    TurnByPosition(sigs, h.number, h.signer.value);
    if h.number % epoch == 0 {
      OnlySorted(h.extra.signers, sigs);
    }
  }

  ghost predicate OnceValid(epoch: Epoch, period: nat, world: map<Hash, Header>, h: Header)
    requires Rooted(world)
  {
    exists now :: IsValid(epoch, period, world, h, now)
  }

  /** Blocks come no faster than the period: over any number of valid headers in a row. */
  lemma {:induction false} Paced(epoch: Epoch, period: nat, world: map<Hash, Header>, from: Hash, hs: seq<Header>, to: Hash)
    requires Rooted(world) && from in world && Path(world, from, hs, to)
    requires forall i :: 0 <= i < |hs| ==> OnceValid(epoch, period, world, hs[i])
    ensures to in world && world[to].time >= world[from].time + |hs| * period
    decreases |hs|
  {
    hide SnapAt, Rooted, IsValid;
    if |hs| > 0 {
      assert OnceValid(epoch, period, world, hs[0]);
      var now :| IsValid(epoch, period, world, hs[0], now);
      assert hs[0].time >= world[from].time + period by { FollowsLater(epoch, period, world, hs[0], now); }
      assert forall i :: 0 <= i < |hs[1..]| ==> hs[1..][i] == hs[i + 1];
      Paced(epoch, period, world, hs[0].hash, hs[1..], to);
      assert |hs| * period == (|hs| - 1) * period + period;
    }
  }

  lemma FollowsLater(epoch: Epoch, period: nat, world: map<Hash, Header>, h: Header, now: nat)
    requires Rooted(world) && IsValid(epoch, period, world, h, now)
    ensures h.time >= world[h.parentHash].time + period
  {
    hide SnapAt, SealIsGood;
  }

  /** A checkpoint can stand for all before it: the snapshot there has the signers it lists
      and no votes; exactly if the zero address, on which it formally votes, is no signer. */
  lemma CheckpointRestarts(epoch: Epoch, period: nat, world: map<Hash, Header>, h: Header, now: nat)
    requires Rooted(world) && h.hash in world && world[h.hash] == h && IsValid(epoch, period, world, h, now)
    requires h.number % epoch == 0 && SnapAt(epoch, world, h.hash).Ok?
    ensures var s := SnapAt(epoch, world, h.hash).value;
            s.signers == Members(h.extra.signers) && s.votes == [] <==> 0 !in h.extra.signers
  {
    hide Rooted, SealIsGood, Inv, Without;
    SnapAtInv(epoch, world, h.parentHash);
    var before := SnapAt(epoch, world, h.parentHash).value;
    assert Members(h.extra.signers) == before.signers;
    assert 0 in before.signers <==> 0 in h.extra.signers;
    RestartedVotes(epoch, before, h);
  }

  lemma RestartedVotes(epoch: Epoch, s: Snap, h: Header)
    requires Next(epoch, s, h).Ok? && h.number % epoch == 0 && h.coinbase == 0 && h.nonce == NONCE_DROP
    ensures var r := Next(epoch, s, h).value; r.signers == s.signers && r.votes == [] <==> 0 !in s.signers
  {
    hide Without, Passes;
    var votes := Voted(epoch, s, h, h.signer.value);
    var r := Next(epoch, s, h).value;
    forall v {
      LiveVotes(epoch, s, h, v);
    }
    if 0 !in s.signers {
      NothingPasses(s, h.signer.value, 0);
    } else if r.signers == s.signers {
      assert Vote(h.signer.value, h.number, 0, false) in r.votes;
    }
  }

  lemma NothingPasses(s: Snap, signer: Address, a: Address)
    ensures Without([], Cast(signer, a)) == [] && !Passes([], s, a)
  {
  }

  /** One header after the other, on top of what the chain reader has. */
  ghost predicate IsBatch(world: map<Hash, Header>, chain: Chain, headers: seq<Header>)
    requires Rooted(world)
  {
    && (forall i :: 0 <= i < |headers| ==> headers[i].hash in world && world[headers[i].hash] == headers[i])
    && (forall i :: 0 < i < |headers| ==> headers[i].parentHash == headers[i - 1].hash)
    && (|headers| > 0 ==> headers[0].parentHash in world && Complete(world, chain, headers[0].parentHash))
  }

  /** The first verdicts on a batch are right. */
  ghost predicate Verdicts(epoch: Epoch, period: nat, world: map<Hash, Header>, chain: Chain, headers: seq<Header>,
                           now: nat, results: seq<Option<Error>>)
    requires Rooted(world)
  {
    |results| <= |headers| && forall i :: 0 <= i < |results| ==>
      IsVerdict(epoch, period, world, headers[i], now, IsBatch(world, chain, headers), results[i])
  }

  ghost predicate IsVerdict(epoch: Epoch, period: nat, world: map<Hash, Header>, h: Header, now: nat, complete: bool, r: Option<Error>)
    requires Rooted(world)
  {
    h.number > 0 ==>
      && (r.None? ==> IsValid(epoch, period, world, h, now))
      && (complete ==> (r.None? <==> IsValid(epoch, period, world, h, now)))
  }

  lemma NoVerdicts(epoch: Epoch, period: nat, world: map<Hash, Header>, chain: Chain, headers: seq<Header>, now: nat)
    requires Rooted(world)
    ensures Verdicts(epoch, period, world, chain, headers, now, [])
  {
  }

  lemma NextVerdict(epoch: Epoch, period: nat, world: map<Hash, Header>, chain: Chain, headers: seq<Header>, now: nat,
                    results: seq<Option<Error>>, r: Option<Error>)
    requires Rooted(world) && Verdicts(epoch, period, world, chain, headers, now, results) && |results| < |headers|
    requires IsVerdict(epoch, period, world, headers[|results|], now, IsBatch(world, chain, headers), r)
    ensures Verdicts(epoch, period, world, chain, headers, now, results + [r])
  {
    hide IsVerdict, IsBatch;
  }

  lemma AllVerdicts(epoch: Epoch, period: nat, world: map<Hash, Header>, chain: Chain, headers: seq<Header>, now: nat,
                    results: seq<Option<Error>>)
    requires Rooted(world) && Verdicts(epoch, period, world, chain, headers, now, results) && |results| == |headers|
    ensures forall i :: 0 <= i < |headers| && headers[i].number > 0 && results[i].None? ==>
      IsValid(epoch, period, world, headers[i], now)
    ensures IsBatch(world, chain, headers) ==>
      forall i :: 0 <= i < |headers| && headers[i].number > 0 ==>
        (results[i].None? <==> IsValid(epoch, period, world, headers[i], now))
  {
    hide IsValid, IsBatch;
  }

  lemma {:induction false} BatchLinked(world: map<Hash, Header>, chain: Chain, headers: seq<Header>, i: nat)
    requires Rooted(world) && IsBatch(world, chain, headers) && i < |headers|
    ensures Linked(world, chain, headers[i].parentHash, headers[..i])
  {
    if i > 0 {
      BatchLinked(world, chain, headers, i - 1);
      assert headers[..i][..i - 1] == headers[..i - 1];
    }
  }

  lemma AscendingUnique(s: seq<Address>, t: seq<Address>)
    requires Ascending(s) && Ascending(t) && Members(s) == Members(t)
    ensures s == t
  {
    AscendingSize(s);
    AscendingSize(t);
    forall i | 0 <= i < |s|
      ensures s[i] == t[i]
    {
      assert s[i] in Members(t);
      var j :| 0 <= j < |t| && t[j] == s[i];
      RankIsPosition(s, i);
      RankIsPosition(t, j);
    }
  }

  /** A missing ancestor may stop the walk; nothing else depends on where it stopped. */
  ghost predicate Answers(epoch: Epoch, world: map<Hash, Header>, h: Hash, r: Result<Snap>)
    requires Rooted(world) && h in world
  {
    r == SnapAt(epoch, world, h) || r == Err(UnknownAncestor)
  }

  datatype Sealing = Sealed(header: Header) | Wait | Paused | Refused(error: Error)

  class Clique {
    const epoch: Epoch
    const period: nat
    ghost const world: map<Hash, Header>
    var recents: map<Hash, Snapshot>
    var store: map<Hash, Stored>
    var signer: Address
    var proposals: map<Address, bool>

    /** Every snapshot in memory or on disk is the one at its hash. */
    ghost predicate Valid()
      reads this, recents.Values
    {
      && Rooted(world)
      && (forall h :: h in recents ==>
           && h in world && recents[h].Valid() && recents[h].epoch == epoch
           && SnapAt(epoch, world, h) == Ok(recents[h].View()))
      && (forall h :: h in store ==>
           && h in world && Tallied(store[h].tally, store[h].view.signers, store[h].view.votes)
           && SnapAt(epoch, world, h) == Ok(store[h].view))
    }

    constructor (epoch: Epoch, period: nat, ghost world: map<Hash, Header>, signer: Address)
      requires Rooted(world)
      ensures Valid() && this.epoch == epoch && this.period == period && this.world == world
      ensures this.signer == signer && proposals == map[]
    {
      this.epoch, this.period, this.world, this.signer := epoch, period, world, signer;
      recents, store, proposals := map[], map[], map[];
    }

    /** loadSnapshot. */
    method LoadSnapshot(hash: Hash) returns (snap: Snapshot)
      requires Valid() && hash in store
      ensures fresh(snap) && snap.Valid() && snap.epoch == epoch && snap.View() == store[hash].view
    {
      SnapAtInv(epoch, world, hash);
      var s := store[hash];
      snap := new Snapshot(epoch, s.view.number, s.view.hash, []);
      snap.signers := s.view.signers;
      snap.recents := s.view.recents;
      snap.votes := s.view.votes;
      snap.tally := s.tally;
    }

    /** The in-memory cache may drop any snapshots when it takes a new one. */
    method Remember(snap: Snapshot)
      requires Valid() && snap.Valid() && snap.epoch == epoch && snap.hash in world
      requires SnapAt(epoch, world, snap.hash) == Ok(snap.View())
      modifies `recents
      ensures Valid() && snap.hash in recents && recents[snap.hash] == snap
      ensures forall h :: h in recents && h != snap.hash ==> h in old(recents) && recents[h] == old(recents)[h]
    {
      var kept: set<Hash> :| kept <= recents.Keys;
      recents := (map h | h in kept :: recents[h])[snap.hash := snap];
    }

    method Store(snap: Snapshot)
      requires Valid() && snap.Valid() && snap.hash in world && SnapAt(epoch, world, snap.hash) == Ok(snap.View())
      modifies `store
      ensures Valid() && store == old(store)[snap.hash := Stored(snap.View(), snap.tally)]
    {
      store := store[snap.hash := Stored(Snap(snap.number, snap.hash, snap.signers, snap.recents, snap.votes), snap.tally)];
    }

    /** A snapshot the walk can stop at, if there is one for this header. */
    method Known(chain: Chain, number: nat, hash: Hash) returns (found: Option<Snapshot>)
      requires Valid() && Sane(world, chain) && hash in world && world[hash].number == number
      modifies `store
      ensures Valid() && recents == old(recents)
      ensures found.Some? ==> IsAt(found.value, hash)
      ensures number == 0 ==> found.Some?
    {
      hide SnapAt;
      if hash in recents {
        return Some(recents[hash]);
      }
      if number % CHECKPOINT_INTERVAL == 0 && hash in store {
        var loaded := LoadSnapshot(hash);
        return Some(loaded);
      }
      if number == 0 || (number % epoch == 0 && number - 1 !in chain.canonical) {
        if number in chain.canonical {
          var checkpoint := chain.canonical[number];
          AtGenesis(epoch, world, chain, hash);
          var snap := new Snapshot(epoch, number, checkpoint.hash, checkpoint.extra.Signers());
          Store(snap);
          return Some(snap);
        }
      }
      return None;
    }

    /** snapshot: walks back to a known snapshot and applies the headers above it. Whatever
        the caches hold, the answer is the snapshot at that header, or its error. */
    method SnapshotAt(chain: Chain, number: nat, hash: Hash, parents: seq<Header>) returns (r: Result<Snapshot>)
      requires Valid() && Sane(world, chain) && hash in world && world[hash].number == number
      requires forall p :: p in parents && p.hash in world ==> p == world[p.hash]
      modifies this
      ensures Valid() && signer == old(signer) && proposals == old(proposals)
      ensures r.Ok? ==> r.value.Valid() && r.value.epoch == epoch && SnapAt(epoch, world, hash) == Ok(r.value.View())
      ensures r.Err? ==> Answers(epoch, world, hash, Err(r.error))
      ensures Linked(world, chain, hash, parents) && r.Err? ==> SnapAt(epoch, world, hash) == Err(r.error)
    {
      hide SnapAt, Fold, Sane, Inv, Tallied, Linked, Path, Rooted, Contiguous;
      var base, headers := Walk(chain, number, hash, parents);
      if base.Err? {
        return base;
      }
      ghost var h := base.value.hash;
      var ascending := Reverse(headers);
      SnapAtInv(epoch, world, h);
      PathGivesSnap(epoch, world, h, ascending, hash);
      var applied := base.value.Apply(ascending);
      if applied.Err? {
        return applied;
      }
      SnapAtInv(epoch, world, hash);
      Keep(applied.value, |headers| > 0);
      return applied;
    }

    /** The snapshot found is cached, and stored if it is a new one at a checkpoint. */
    method Keep(snap: Snapshot, applied: bool)
      requires Valid() && snap.Valid() && snap.epoch == epoch && snap.hash in world
      requires SnapAt(epoch, world, snap.hash) == Ok(snap.View())
      modifies `recents, `store
      ensures Valid() && snap.hash in recents && recents[snap.hash] == snap
      ensures store == if snap.number % CHECKPOINT_INTERVAL == 0 && applied
                       then old(store)[snap.hash := Stored(snap.View(), snap.tally)] else old(store)
    {
      hide SnapAt, Snapshot.Valid, Clique.Valid;
      Remember(snap);
      if snap.number % CHECKPOINT_INTERVAL == 0 && applied {
        Store(snap);
      }
    }

    /** The backward walk: a known snapshot, and the headers above it, newest first. */
    method Walk(chain: Chain, number: nat, hash: Hash, parents: seq<Header>) returns (r: Result<Snapshot>, headers: seq<Header>)
      requires Valid() && Sane(world, chain) && hash in world && world[hash].number == number
      requires forall p :: p in parents && p.hash in world ==> p == world[p.hash]
      modifies `store
      ensures Valid() && recents == old(recents)
      ensures r.Ok? ==> Reached(r.value, hash, headers)
      ensures r.Err? ==> r.error == UnknownAncestor && !Linked(world, chain, hash, parents)
    {
      hide SnapAt, Sane, Rooted, Inv, Tallied, Snapshot.Valid, Linked, Path;
      var rest, n, h := parents, number, hash;
      headers := [];
      var snap := Known(chain, n, h);
      PathNowhere(world, hash);
      while snap.None?
        invariant Valid() && recents == old(recents)
        invariant h in world && world[h].number == n && (n == 0 ==> snap.Some?)
        invariant Path(world, h, Backwards(headers), hash)
        invariant forall p :: p in rest ==> p in parents
        invariant Linked(world, chain, hash, parents) ==> Linked(world, chain, h, rest)
        invariant snap.Some? ==> IsAt(snap.value, h)
        decreases n, snap.None?
      {
        FoundIfLinked(world, chain, h, n, rest);
        ParentBelow(world, h);
        LinkedOn(world, chain, h, rest);
        var header;
        if |rest| > 0 {
          header := rest[|rest| - 1];
          if header.hash != h || header.number != n {
            return Err(UnknownAncestor), headers;
          }
          rest := rest[..|rest| - 1];
        } else {
          var got := chain.GetHeader(h, n);
          if got.None? {
            return Err(UnknownAncestor), headers;
          }
          header := got.value;
          SaneHeader(world, chain, h, n);
        }
        PathLonger(world, headers, header, hash);
        headers := headers + [header];
        n, h := n - 1, header.parentHash;
        snap := Known(chain, n, h);
      }
      KnownHash(snap.value, h);
      return Ok(snap.value), headers;
    }

    /** The snapshot at h. */
    ghost predicate IsAt(snap: Snapshot, h: Hash)
      requires Rooted(world)
      reads snap
    {
      h in world && snap.Valid() && snap.epoch == epoch && SnapAt(epoch, world, h) == Ok(snap.View())
    }

    ghost predicate Reached(snap: Snapshot, hash: Hash, headers: seq<Header>)
      requires Rooted(world)
      reads snap
    {
      IsAt(snap, snap.hash) && Path(world, snap.hash, Backwards(headers), hash)
    }

    lemma KnownHash(snap: Snapshot, h: Hash)
      requires Rooted(world) && IsAt(snap, h)
      ensures snap.hash == h
    {
      SnapAtInv(epoch, world, h);
    }

    /** verifySeal. */
    method VerifySeal(chain: Chain, header: Header, parents: seq<Header>) returns (error: Option<Error>)
      requires Valid() && Sane(world, chain)
      requires header.number > 0 ==> header.parentHash in world && world[header.parentHash].number + 1 == header.number
      requires forall p :: p in parents && p.hash in world ==> p == world[p.hash]
      modifies this
      ensures Valid() && signer == old(signer) && proposals == old(proposals)
      ensures header.number == 0 ==> error == Some(UnknownBlock)
      ensures header.number > 0 && error.None? ==>
        var s := SnapAt(epoch, world, header.parentHash); s.Ok? && SealIsGood(s.value, header)
      ensures header.number > 0 && Linked(world, chain, header.parentHash, parents) ==>
        match SnapAt(epoch, world, header.parentHash)
        case Err(e) => error == Some(e)
        case Ok(s) => error.None? <==> SealIsGood(s, header)
    {
      hide SnapAt, Linked, Sane;
      var number := header.number;
      if number == 0 {
        return Some(UnknownBlock);
      }
      var r := SnapshotAt(chain, number - 1, header.parentHash, parents);
      if r.Err? {
        return Some(r.error);
      }
      var snap := r.value;
      if header.signer.None? {
        return Some(MissingSignature);
      }
      var signer := header.signer.value;
      if signer !in snap.signers {
        return Some(UnauthorizedSigner);
      }
      if !VerifyAllows(snap.View(), number, signer) {
        return Some(RecentlySigned);
      }
      var inturn := IsInTurn(snap.signers, number, signer);
      if inturn && header.difficulty != DIFF_IN_TURN {
        return Some(WrongDifficulty);
      }
      if !inturn && header.difficulty != DIFF_NO_TURN {
        return Some(WrongDifficulty);
      }
      return None;
    }

    /** verifyHeader: passes exactly the valid headers, if no ancestor is missing. */
    method VerifyHeader(chain: Chain, header: Header, parents: seq<Header>, now: nat) returns (error: Option<Error>)
      requires Valid() && Sane(world, chain) && forall h :: h in chain.headers ==> h in world
      requires forall p :: p in parents ==> p.hash in world && p == world[p.hash]
      modifies this
      ensures Valid() && signer == old(signer) && proposals == old(proposals)
      ensures header.number == 0 ==> (error.None? <==> WellFormed(epoch, header, now))
      ensures header.number > 0 && error.None? ==> IsValid(epoch, period, world, header, now)
      ensures header.number > 0 && Linked(world, chain, header.parentHash, parents) ==>
        (error.None? <==> IsValid(epoch, period, world, header, now))
    {
      hide SnapAt, Linked, Sane, Follows, Rooted;
      var number := header.number;
      if header.time > now {
        return Some(FutureBlock);
      }
      var checkpoint := number % epoch == 0;
      if checkpoint && header.coinbase != 0 {
        return Some(InvalidCheckpointBeneficiary);
      }
      if header.nonce != NONCE_AUTH && header.nonce != NONCE_DROP {
        return Some(InvalidVote);
      }
      if checkpoint && header.nonce != NONCE_DROP {
        return Some(InvalidCheckpointVote);
      }
      if header.extra.Length() < EXTRA_VANITY {
        return Some(MissingVanity);
      }
      if header.extra.Length() < EXTRA_VANITY + EXTRA_SEAL {
        return Some(MissingSignature);
      }
      var signersBytes := header.extra.Length() - EXTRA_VANITY - EXTRA_SEAL;
      if !checkpoint && signersBytes != 0 {
        return Some(ExtraSigners);
      }
      if checkpoint && signersBytes % ADDRESS_LENGTH != 0 {
        return Some(InvalidCheckpointSigners);
      }
      if header.mixDigest != 0 {
        return Some(InvalidMixDigest);
      }
      if header.uncleHash != NO_UNCLES {
        return Some(InvalidUncleHash);
      }
      if number > 0 && header.difficulty != DIFF_IN_TURN && header.difficulty != DIFF_NO_TURN {
        return Some(InvalidDifficulty);
      }
      error := VerifyCascadingFields(chain, header, parents);
    }

    /** verifyCascadingFields: the checks against the parent and its snapshot. */
    method VerifyCascadingFields(chain: Chain, header: Header, parents: seq<Header>) returns (error: Option<Error>)
      requires Valid() && Sane(world, chain) && forall h :: h in chain.headers ==> h in world
      requires forall p :: p in parents ==> p.hash in world && p == world[p.hash]
      requires header.extra.Full?
      modifies this
      ensures Valid() && signer == old(signer) && proposals == old(proposals)
      ensures header.number == 0 ==> error.None?
      ensures header.number > 0 && error.None? ==>
        && header.parentHash in world && world[header.parentHash].number + 1 == header.number
        && var s := SnapAt(epoch, world, header.parentHash);
           s.Ok? && Follows(epoch, period, world[header.parentHash], s.value, header)
      ensures header.number > 0 && Linked(world, chain, header.parentHash, parents) && error.Some? ==>
        && header.parentHash in world
        && (world[header.parentHash].number + 1 == header.number ==>
            var s := SnapAt(epoch, world, header.parentHash);
            s.Ok? ==> !Follows(epoch, period, world[header.parentHash], s.value, header))
    {
      hide SnapAt, Linked, Sane, SealIsGood, Ascending, Members, Rooted;
      var number := header.number;
      if number == 0 {
        return None;
      }
      LinkedParent(world, chain, header.parentHash, number - 1, parents);
      var parent := if |parents| > 0 then Some(parents[|parents| - 1]) else chain.GetHeader(header.parentHash, number - 1);
      if parent.None? || parent.value.number != number - 1 || parent.value.hash != header.parentHash {
        return Some(UnknownAncestor);
      }
      if parent.value.time + period > header.time {
        return Some(InvalidTimestamp);
      }
      var got := SnapshotAt(chain, number - 1, header.parentHash, parents);
      if got.Err? {
        return Some(got.error);
      }
      if number % epoch == 0 {
        var snap := got.value;
        var sigs := Sorted(snap.signers);
        OnlySorted(header.extra.signers, sigs);
        if header.extra.signers != sigs || header.extra.excess != 0 {
          return Some(MismatchingCheckpointSigners);
        }
      }
      error := VerifySeal(chain, header, parents);
    }

    /** VerifyHeaders: a batch of headers gets the verdicts each would get once those before
        it were in the chain. */
    method VerifyHeaders(chain: Chain, headers: seq<Header>, now: nat) returns (results: seq<Option<Error>>)
      requires Valid() && Sane(world, chain) && forall h :: h in chain.headers ==> h in world
      requires forall i :: 0 <= i < |headers| ==> headers[i].hash in world && headers[i] == world[headers[i].hash]
      modifies this
      ensures Valid() && |results| == |headers|
      ensures forall i :: 0 <= i < |headers| && headers[i].number > 0 && results[i].None? ==>
        IsValid(epoch, period, world, headers[i], now)
      ensures IsBatch(world, chain, headers) ==>
        forall i :: 0 <= i < |headers| && headers[i].number > 0 ==>
          (results[i].None? <==> IsValid(epoch, period, world, headers[i], now))
    {
      hide IsValid, Linked, Sane, IsBatch, Rooted, Verdicts;
      results := [];
      NoVerdicts(epoch, period, world, chain, headers, now);
      for i := 0 to |headers|
        invariant Valid() && Verdicts(epoch, period, world, chain, headers, now, results) && |results| == i
      {
        if IsBatch(world, chain, headers) {
          BatchLinked(world, chain, headers, i);
        }
        var error := VerifyHeader(chain, headers[i], headers[..i], now);
        NextVerdict(epoch, period, world, chain, headers, now, results, error);
        results := results + [error];
      }
      AllVerdicts(epoch, period, world, chain, headers, now, results);
    }

    /** Seal: the header with this engine's seal, unless it is not its time. Without a block
        period, blocks without transactions are not sealed. */
    method Seal(chain: Chain, header: Header, txs: nat) returns (r: Sealing)
      requires Valid() && Sane(world, chain) && header.extra.Length() >= EXTRA_SEAL
      requires header.number > 0 ==> header.parentHash in world && world[header.parentHash].number + 1 == header.number
      modifies this
      ensures Valid() && signer == old(signer)
      ensures r.Sealed? ==>
        && r.header == header.(signer := Some(signer)) && header.number > 0
        && SnapAt(epoch, world, header.parentHash).Ok?
      ensures r.Paused? <==> header.number > 0 && period == 0 && txs == 0
      ensures header.number > 0 && (r.Sealed? || r.Wait?) ==>
        var s := SnapAt(epoch, world, header.parentHash);
        s.Ok? && signer in s.value.signers && (r.Sealed? <==> ApplyAllows(s.value, header.number, signer))
      ensures r.Wait? ==> header.number > 0
      ensures r == Refused(UnauthorizedSigner) && header.number > 0 && Linked(world, chain, header.parentHash, []) ==>
        var s := SnapAt(epoch, world, header.parentHash); s == Err(UnauthorizedSigner) || (s.Ok? && signer !in s.value.signers)
    {
      hide SnapAt, Linked, Sane;
      var number := header.number;
      if number == 0 {
        return Refused(UnknownBlock);
      }
      if period == 0 && txs == 0 {
        return Paused;
      }
      var got := SnapshotAt(chain, number - 1, header.parentHash, []);
      if got.Err? {
        return Refused(got.error);
      }
      var snap := got.value;
      if signer !in snap.signers {
        return Refused(UnauthorizedSigner);
      }
      SnapAtInv(epoch, world, header.parentHash);
      SealMatchesApply(snap.View(), number, signer);
      if !SealAllows(snap.View(), number, signer) {
        return Wait;
      }
      return Sealed(header.(signer := Some(signer)));
    }

    /** A vote on some proposal that makes sense, if there is one. */
    method Propose(snap: Snapshot, header: Header) returns (h: Header)
      ensures h == header.(coinbase := h.coinbase, nonce := h.nonce)
      ensures h == header || (h.coinbase in proposals && snap.ValidVote(h.coinbase, proposals[h.coinbase])
                              && h.nonce == if proposals[h.coinbase] then NONCE_AUTH else NONCE_DROP)
      ensures h == header ==> header.coinbase in proposals || forall a :: a in proposals ==> !snap.ValidVote(a, proposals[a])
    {
      h := header;
      var addresses := set a | a in proposals && snap.ValidVote(a, proposals[a]);
      if addresses != {} {
        var chosen :| chosen in addresses;
        h := h.(coinbase := chosen, nonce := if proposals[chosen] then NONCE_AUTH else NONCE_DROP);
      } else {
        forall a | a in proposals
          ensures !snap.ValidVote(a, proposals[a])
        {
          assert a !in addresses;
        }
      }
    }

    /** Prepare: a proposal that makes sense as the vote, the difficulty of our turn, the
        signers at checkpoints, and the earliest time there is. */
    method Prepare(chain: Chain, header: Header, now: nat) returns (r: Result<Header>)
      requires Valid() && Sane(world, chain)
      requires header.number > 0 && header.parentHash in world && world[header.parentHash].number + 1 == header.number
      requires var s := SnapAt(epoch, world, header.parentHash); s.Ok? ==> s.value.signers != {}
      modifies this
      ensures Valid() && signer == old(signer) && proposals == old(proposals)
      ensures r.Ok? ==>
        var s := SnapAt(epoch, world, header.parentHash);
        && s.Ok? && Prepared(epoch, period, s.value, world[header.parentHash], signer, proposals, now, header, r.value)
      ensures r.Err? && Linked(world, chain, header.parentHash, []) ==> SnapAt(epoch, world, header.parentHash) == Err(r.error)
    {
      hide SnapAt, Linked, Sane, Inv, Tallied, Rooted, InTurn, Ascending, Members;
      var number := header.number;
      var h := header.(coinbase := 0, nonce := NONCE_DROP);
      LinkedParent(world, chain, header.parentHash, number - 1, []);
      var got := SnapshotAt(chain, number - 1, header.parentHash, []);
      if got.Err? {
        return Err(got.error);
      }
      var snap := got.value;
      if number % epoch != 0 {
        h := Propose(snap, h);
      }
      SnapAtInv(epoch, world, header.parentHash);
      var inturn := IsInTurn(snap.signers, snap.number + 1, signer);
      h := h.(difficulty := if inturn then DIFF_IN_TURN else DIFF_NO_TURN);
      h := h.(extra := Full([], 0));
      if number % epoch == 0 {
        var sigs := Sorted(snap.signers);
        h := h.(extra := Full(sigs, 0));
      }
      h := h.(mixDigest := 0);
      var parent := chain.GetHeader(header.parentHash, number - 1);
      if parent.None? {
        return Err(UnknownAncestor);
      }
      h := h.(time := parent.value.time + period);
      if h.time < now {
        h := h.(time := now);
      }
      return Ok(h);
    }
  }
}
