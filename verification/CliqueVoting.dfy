/** Clique authorization voting (EIP-225) as a function of the headers: who may sign, which
    votes are live and when a vote passes. No tally is kept: votes are counted. */
module CliqueVoting {
  import opened Wrappers

  type Address = nat
  type Hash = nat

  /** Clique.New replaces a zero epoch by the default. */
  type Epoch = e: nat | e > 0 witness 1

  const NONCE_AUTH: nat := 0xffff_ffff_ffff_ffff
  const NONCE_DROP: nat := 0

  datatype Vote = Vote(signer: Address, block: nat, address: Address, authorize: bool)

  const EXTRA_VANITY := 32
  const EXTRA_SEAL := 65
  const ADDRESS_LENGTH := 20

  /** Extra data: bytes too few for vanity and seal, or the addresses between the two and the
      number of bytes left over. */
  datatype RawExtra = Short(length: nat) | Full(signers: seq<Address>, excess: nat) {
    function Length(): nat {
      if Short? then length else EXTRA_VANITY + |signers| * ADDRESS_LENGTH + excess + EXTRA_SEAL
    }
    /** A genesis without room for signers has none. */
    function Signers(): seq<Address> {
      if Short? then [] else signers
    }
  }

  type Extra = e: RawExtra |
    (if e.Short? then e.length < EXTRA_VANITY + EXTRA_SEAL else e.excess < ADDRESS_LENGTH) witness Short(0)

  /** `hash` is that of the finished header, and `signer` what recovering the public key from
      its seal gives, if anything. */
  datatype Header = Header(number: nat, hash: Hash, parentHash: Hash, coinbase: Address, nonce: nat,
                           difficulty: nat, signer: Option<Address>, extra: Extra,
                           time: nat, mixDigest: Hash, uncleHash: Hash)

  datatype Snap = Snap(number: nat, hash: Hash, signers: set<Address>, recents: map<nat, Address>, votes: seq<Vote>)

  datatype Error = InvalidVotingChain | MissingSignature | UnauthorizedSigner | RecentlySigned | InvalidVote
                 | UnknownAncestor | UnknownBlock | WrongDifficulty
                 | FutureBlock | InvalidCheckpointBeneficiary | InvalidCheckpointVote | MissingVanity
                 | ExtraSigners | InvalidCheckpointSigners | InvalidMixDigest | InvalidUncleHash
                 | InvalidDifficulty | InvalidTimestamp | MismatchingCheckpointSigners

  datatype Result<+T> = Ok(value: T) | Err(error: Error)

  // ----- votes -----

  /** Votes by a signer, on an account, or both. */
  datatype Pattern = By(signer: Address) | On(address: Address) | Cast(signer: Address, address: Address)

  predicate Matches(v: Vote, p: Pattern) {
    match p
    case By(signer) => v.signer == signer
    case On(address) => v.address == address
    case Cast(signer, address) => v.signer == signer && v.address == address
  }

  /** The votes a pattern does not match, in order. */
  function Without(votes: seq<Vote>, p: Pattern): seq<Vote> {
    if |votes| == 0 then []
    else
      var last := votes[|votes| - 1];
      Without(votes[..|votes| - 1], p) + if Matches(last, p) then [] else [last]
  }

  function CountOn(votes: seq<Vote>, a: Address): nat {
    if |votes| == 0 then 0
    else CountOn(votes[..|votes| - 1], a) + if votes[|votes| - 1].address == a then 1 else 0
  }

  function Limit(signers: set<Address>): nat {
    |signers| / 2 + 1
  }

  /** The signer of the block that just left the window may sign again. */
  function Expire(recents: map<nat, Address>, number: nat, signers: set<Address>): map<nat, Address> {
    if number >= Limit(signers) then recents - {number - Limit(signers)} else recents
  }

  function Toggle(signers: set<Address>, a: Address): set<Address> {
    if a in signers then signers - {a} else signers + {a}
  }

  /** The votes once the header's vote is counted: an epoch block starts afresh, a signer has
      one vote per account, and a vote for what is the case already is not kept. */
  function Voted(epoch: Epoch, s: Snap, h: Header, signer: Address): seq<Vote> {
    var live := Without(if h.number % epoch == 0 then [] else s.votes, Cast(signer, h.coinbase));
    var authorize := h.nonce == NONCE_AUTH;
    if authorize == (h.coinbase !in s.signers) then live + [Vote(signer, h.number, h.coinbase, authorize)] else live
  }

  predicate Passes(votes: seq<Vote>, s: Snap, a: Address) {
    CountOn(votes, a) > |s.signers| / 2
  }

  /** The state after one header. */
  function Next(epoch: Epoch, s: Snap, h: Header): Result<Snap> {
    var recents := Expire(s.recents, h.number, s.signers);
    if h.signer.None? then Err(MissingSignature)
    else if h.signer.value !in s.signers then Err(UnauthorizedSigner)
    else if h.signer.value in recents.Values then Err(RecentlySigned)
    else if h.nonce != NONCE_AUTH && h.nonce != NONCE_DROP then Err(InvalidVote)
    else
      var signed := recents[h.number := h.signer.value];
      var votes := Voted(epoch, s, h, h.signer.value);
      if !Passes(votes, s, h.coinbase) then Ok(Snap(h.number, h.hash, s.signers, signed, votes))
      else Ok(Passed(s, h, signed, votes))
  }

  /** A vote passes: the account joins or leaves, its own votes and those about it are void. */
  function Passed(s: Snap, h: Header, signed: map<nat, Address>, votes: seq<Vote>): Snap {
    var signers := Toggle(s.signers, h.coinbase);
    if h.coinbase in s.signers then
      Snap(h.number, h.hash, signers, Expire(signed, h.number, signers), Without(Without(votes, By(h.coinbase)), On(h.coinbase)))
    else
      Snap(h.number, h.hash, signers, signed, Without(votes, On(h.coinbase)))
  }

  function Fold(epoch: Epoch, s: Snap, hs: seq<Header>): Result<Snap> {
    if |hs| == 0 then Ok(s)
    else
      var front := Fold(epoch, s, hs[..|hs| - 1]);
      if front.Err? then front else Next(epoch, front.value, hs[|hs| - 1])
  }

  predicate Contiguous(number: nat, hs: seq<Header>) {
    forall i :: 0 <= i < |hs| ==> hs[i].number == number + 1 + i
  }

  /** What apply computes. */
  function Apply(epoch: Epoch, s: Snap, hs: seq<Header>): Result<Snap> {
    if !Contiguous(s.number, hs) then Err(InvalidVotingChain) else Fold(epoch, s, hs)
  }

  // ----- the invariant -----

  /** No vote asks for what is the case already. */
  predicate Meaningful(signers: set<Address>, votes: seq<Vote>) {
    forall i :: 0 <= i < |votes| ==> votes[i].authorize == (votes[i].address !in signers)
  }

  predicate OneVoteEach(votes: seq<Vote>) {
    forall i, j :: 0 <= i < j < |votes| ==> votes[i].signer != votes[j].signer || votes[i].address != votes[j].address
  }

  predicate VotersSign(signers: set<Address>, votes: seq<Vote>) {
    forall i :: 0 <= i < |votes| ==> votes[i].signer in signers
  }

  /** The recent signers are distinct, and signed one of the last N/2+1 blocks. */
  predicate Window(number: nat, signers: set<Address>, recents: map<nat, Address>) {
    && (forall k :: k in recents ==> k <= number < k + Limit(signers))
    && (forall k, l :: k in recents && l in recents && recents[k] == recents[l] ==> k == l)
  }

  predicate VotesOk(signers: set<Address>, votes: seq<Vote>) {
    Meaningful(signers, votes) && OneVoteEach(votes) && VotersSign(signers, votes)
  }

  predicate Inv(s: Snap) {
    VotesOk(s.signers, s.votes) && Window(s.number, s.signers, s.recents)
  }

  // ----- votes stay in order -----

  lemma {:induction false} WithoutMembers(votes: seq<Vote>, p: Pattern)
    ensures forall v :: v in Without(votes, p) <==> v in votes && !Matches(v, p)
    ensures |Without(votes, p)| <= |votes|
  {
    if |votes| > 0 {
      var front, last := votes[..|votes| - 1], votes[|votes| - 1];
      WithoutMembers(front, p);
      assert votes == front + [last];
    }
  }

  lemma {:induction false} WithoutOneEach(votes: seq<Vote>, p: Pattern)
    requires OneVoteEach(votes)
    ensures OneVoteEach(Without(votes, p))
  {
    if |votes| > 0 {
      var front, last := votes[..|votes| - 1], votes[|votes| - 1];
      WithoutOneEach(front, p);
      WithoutMembers(front, p);
      var r := Without(front, p);
      forall i | 0 <= i < |r|
        ensures r[i].signer != last.signer || r[i].address != last.address
      {
        assert r[i] in r;
        assert r[i] in front;
      }
    }
  }

  lemma WithoutOk(signers: set<Address>, votes: seq<Vote>, p: Pattern)
    requires VotesOk(signers, votes)
    ensures VotesOk(signers, Without(votes, p))
  {
    WithoutMembers(votes, p);
    WithoutOneEach(votes, p);
    var r := Without(votes, p);
    forall i | 0 <= i < |r|
      ensures r[i].signer in signers && r[i].authorize == (r[i].address !in signers)
    {
      assert r[i] in r;
      assert r[i] in votes;
    }
  }

  lemma VotedOk(epoch: Epoch, s: Snap, h: Header, signer: Address)
    requires VotesOk(s.signers, s.votes) && signer in s.signers
    ensures VotesOk(s.signers, Voted(epoch, s, h, signer))
  {
    var votes := if h.number % epoch == 0 then [] else s.votes;
    var p := Cast(signer, h.coinbase);
    WithoutOk(s.signers, votes, p);
    WithoutMembers(votes, p);
    var live := Without(votes, p);
    forall i | 0 <= i < |live|
      ensures live[i].signer != signer || live[i].address != h.coinbase
    {
      assert live[i] in live;
    }
  }

  lemma PassedOk(s: Snap, h: Header, signed: map<nat, Address>, votes: seq<Vote>)
    requires VotesOk(s.signers, votes)
    ensures VotesOk(Passed(s, h, signed, votes).signers, Passed(s, h, signed, votes).votes)
  {
    var c := h.coinbase;
    var left := if c in s.signers then Without(votes, By(c)) else votes;
    WithoutMembers(votes, By(c));
    WithoutOk(s.signers, votes, By(c));
    WithoutOk(s.signers, left, On(c));
    WithoutMembers(left, On(c));
    var r := Without(left, On(c));
    forall i | 0 <= i < |r|
      ensures r[i].address != c && (c in s.signers ==> r[i].signer != c)
    {
      assert r[i] in r;
      assert r[i] in left;
    }
  }

  lemma SignedWindow(s: Snap, h: Header)
    requires Window(s.number, s.signers, s.recents) && h.number == s.number + 1 && h.signer.Some?
    requires h.signer.value !in Expire(s.recents, h.number, s.signers).Values
    ensures Window(h.number, s.signers, Expire(s.recents, h.number, s.signers)[h.number := h.signer.value])
  {
  }

  lemma LimitToggle(signers: set<Address>, c: Address)
    ensures c in signers ==> Limit(signers) - 1 <= Limit(Toggle(signers, c)) <= Limit(signers)
    ensures c !in signers ==> Limit(signers) <= Limit(Toggle(signers, c))
  {
  }

  lemma PassedWindow(s: Snap, h: Header, signed: map<nat, Address>, votes: seq<Vote>)
    requires Window(h.number, s.signers, signed)
    ensures Window(h.number, Passed(s, h, signed, votes).signers, Passed(s, h, signed, votes).recents)
  {
    LimitToggle(s.signers, h.coinbase);
  }

  /** Every accepted header keeps the invariant. */
  lemma NextKeepsInv(epoch: Epoch, s: Snap, h: Header)
    requires Inv(s) && h.number == s.number + 1 && Next(epoch, s, h).Ok?
    ensures Inv(Next(epoch, s, h).value) && Next(epoch, s, h).value.number == h.number
  {
    hide VotesOk, Window, Voted;
    var signed := Expire(s.recents, h.number, s.signers)[h.number := h.signer.value];
    var votes := Voted(epoch, s, h, h.signer.value);
    VotedOk(epoch, s, h, h.signer.value);
    SignedWindow(s, h);
    PassedOk(s, h, signed, votes);
    PassedWindow(s, h, signed, votes);
  }

  lemma {:induction false} FoldKeepsInv(epoch: Epoch, s: Snap, hs: seq<Header>)
    requires Inv(s) && Contiguous(s.number, hs) && Fold(epoch, s, hs).Ok?
    ensures Inv(Fold(epoch, s, hs).value) && Fold(epoch, s, hs).value.number == s.number + |hs|
    ensures |hs| > 0 ==> Fold(epoch, s, hs).value.hash == hs[|hs| - 1].hash
  {
    hide Inv;
    if |hs| > 0 {
      var front := hs[..|hs| - 1];
      FoldKeepsInv(epoch, s, front);
      NextKeepsInv(epoch, Fold(epoch, s, front).value, hs[|hs| - 1]);
    }
  }

  // ----- who may sign, and what a vote takes -----

  function Voters(votes: seq<Vote>, a: Address): set<Address> {
    if |votes| == 0 then {}
    else
      var last := votes[|votes| - 1];
      Voters(votes[..|votes| - 1], a) + if last.address == a then {last.signer} else {}
  }

  lemma {:induction false} VoterHasVote(votes: seq<Vote>, a: Address, x: Address)
    ensures x in Voters(votes, a) <==> exists i :: 0 <= i < |votes| && votes[i].signer == x && votes[i].address == a
  {
    if |votes| > 0 {
      var front, last := votes[..|votes| - 1], votes[|votes| - 1];
      VoterHasVote(front, a, x);
      assert forall i :: 0 <= i < |front| ==> front[i] == votes[i];
    }
  }

  /** One vote each: counting votes is counting voters. */
  lemma {:induction false} VotersAreCounted(votes: seq<Vote>, a: Address)
    requires OneVoteEach(votes)
    ensures |Voters(votes, a)| == CountOn(votes, a)
  {
    if |votes| > 0 {
      var front, last := votes[..|votes| - 1], votes[|votes| - 1];
      VotersAreCounted(front, a);
      VoterHasVote(front, a, last.signer);
      assert forall i :: 0 <= i < |front| ==> front[i] == votes[i];
    }
  }

  /** Who has a live vote on the header's coinbase: the header's signer, if its vote means
      something, and whoever else cast one since the last epoch block that was not voided. */
  lemma VotersHaveVoted(epoch: Epoch, s: Snap, h: Header, signer: Address, x: Address)
    ensures x in Voters(Voted(epoch, s, h, signer), h.coinbase) <==>
      if x == signer then (h.nonce == NONCE_AUTH) == (h.coinbase !in s.signers)
      else h.number % epoch != 0 && exists v :: v in s.votes && v.signer == x && v.address == h.coinbase
  {
    hide Without;
    var votes := if h.number % epoch == 0 then [] else s.votes;
    var voted := Voted(epoch, s, h, signer);
    WithoutMembers(votes, Cast(signer, h.coinbase));
    VoterHasVote(voted, h.coinbase, x);
    if v :| v in voted && v.signer == x && v.address == h.coinbase {
      var i :| 0 <= i < |voted| && voted[i] == v;
    }
    if x in Voters(voted, h.coinbase) {
      var i :| 0 <= i < |voted| && voted[i].address == h.coinbase && voted[i].signer == x;
      assert voted[i] in voted;
    }
  }

  /** A header changes the signers exactly when more than half of them have a live vote on its
      coinbase; and then by that one account. */
  lemma MajorityChangesSigners(epoch: Epoch, s: Snap, h: Header)
    requires Inv(s) && Next(epoch, s, h).Ok?
    ensures var r := Next(epoch, s, h).value.signers;
            var voters := set x | x in s.signers &&
              if x == h.signer.value then (h.nonce == NONCE_AUTH) == (h.coinbase !in s.signers)
              else h.number % epoch != 0 && exists v :: v in s.votes && v.signer == x && v.address == h.coinbase;
            && (r != s.signers <==> 2 * |voters| > |s.signers|)
            && (r != s.signers ==> r == if h.coinbase in s.signers then s.signers - {h.coinbase} else s.signers + {h.coinbase})
  {
    hide Voted, Window;
    var votes := Voted(epoch, s, h, h.signer.value);
    VotedOk(epoch, s, h, h.signer.value);
    VotersAreCounted(votes, h.coinbase);
    var voters := set x | x in s.signers &&
      if x == h.signer.value then (h.nonce == NONCE_AUTH) == (h.coinbase !in s.signers)
      else h.number % epoch != 0 && exists v :: v in s.votes && v.signer == x && v.address == h.coinbase;
    forall x
      ensures x in Voters(votes, h.coinbase) <==> x in voters
    {
      VotersHaveVoted(epoch, s, h, h.signer.value, x);
      VoterHasVote(votes, h.coinbase, x);
    }
    assert Voters(votes, h.coinbase) == voters;
    assert Toggle(s.signers, h.coinbase) != s.signers;
  }

  /** The votes that are live after an accepted header: its own, if it means something, and
      but at an epoch block all earlier ones that it does not replace; without those on or by
      an account whose standing it changed. */
  lemma LiveVotes(epoch: Epoch, s: Snap, h: Header, v: Vote)
    requires Next(epoch, s, h).Ok?
    ensures var r := Next(epoch, s, h).value;
            v in r.votes <==>
              && ((v == Vote(h.signer.value, h.number, h.coinbase, h.nonce == NONCE_AUTH) && v.authorize == (h.coinbase !in s.signers))
                  || (h.number % epoch != 0 && v in s.votes && (v.signer != h.signer.value || v.address != h.coinbase)))
              && (r.signers == s.signers || (v.address != h.coinbase && (h.coinbase in s.signers ==> v.signer != h.coinbase)))
  {
    hide Without;
    var signer, r := h.signer.value, Next(epoch, s, h).value;
    WithoutMembers(if h.number % epoch == 0 then [] else s.votes, Cast(signer, h.coinbase));
    var votes := Voted(epoch, s, h, signer);
    WithoutMembers(votes, By(h.coinbase));
    WithoutMembers(Without(votes, By(h.coinbase)), On(h.coinbase));
    WithoutMembers(votes, On(h.coinbase));
    assert Toggle(s.signers, h.coinbase) != s.signers;
  }

  /** The votes stay in the order they were cast. */
  predicate InOrder(votes: seq<Vote>, number: nat) {
    && (forall i :: 0 <= i < |votes| ==> votes[i].block <= number)
    && (forall i, j :: 0 <= i < j < |votes| ==> votes[i].block < votes[j].block)
  }

  lemma {:induction false} WithoutInOrder(votes: seq<Vote>, p: Pattern, number: nat)
    requires InOrder(votes, number)
    ensures InOrder(Without(votes, p), number)
  {
    if |votes| > 0 {
      var front, last := votes[..|votes| - 1], votes[|votes| - 1];
      WithoutInOrder(front, p, number);
      WithoutMembers(front, p);
      var r := Without(front, p);
      forall i | 0 <= i < |r|
        ensures r[i].block < last.block
      {
        assert r[i] in r;
        assert r[i] in front;
      }
    }
  }

  lemma NextInOrder(epoch: Epoch, s: Snap, h: Header)
    requires InOrder(s.votes, s.number) && h.number == s.number + 1 && Next(epoch, s, h).Ok?
    ensures InOrder(Next(epoch, s, h).value.votes, h.number)
  {
    hide Without, Voted, InOrder, Expire, Toggle;
    VotedInOrder(epoch, s, h, h.signer.value);
    var voted := Voted(epoch, s, h, h.signer.value);
    WithoutInOrder(voted, By(h.coinbase), h.number);
    WithoutInOrder(Without(voted, By(h.coinbase)), On(h.coinbase), h.number);
    WithoutInOrder(voted, On(h.coinbase), h.number);
  }

  lemma VotedInOrder(epoch: Epoch, s: Snap, h: Header, signer: Address)
    requires InOrder(s.votes, s.number) && h.number == s.number + 1
    ensures InOrder(Voted(epoch, s, h, signer), h.number)
  {
    hide Without;
    WithoutInOrder(if h.number % epoch == 0 then [] else s.votes, Cast(signer, h.coinbase), s.number);
  }

  /** Who is remembered as a recent signer after a header: those of the last N/2+1 blocks, for
      the number N of signers before it as well as after it. */
  lemma RecentSigners(epoch: Epoch, s: Snap, h: Header, k: nat)
    requires Inv(s) && h.number == s.number + 1 && Next(epoch, s, h).Ok?
    ensures var r := Next(epoch, s, h).value;
            && (k in r.recents <==>
                  && (k == h.number || k in s.recents)
                  && h.number - k <= |s.signers| / 2 && h.number - k <= |r.signers| / 2)
            && (k in r.recents ==> r.recents[k] == if k == h.number then h.signer.value else s.recents[k])
  {
    hide Voted, Without, VotesOk, Toggle, Passes;
    LimitToggle(s.signers, h.coinbase);
  }
}
