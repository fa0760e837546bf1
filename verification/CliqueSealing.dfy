/** Who may sign next: the recency guards of Seal, verifySeal and apply, the turns, and how
    far apart one signer's blocks are. */
module CliqueSealing {
  import opened Wrappers
  import opened CliqueVoting

  const UINT64: nat := 0x1_0000_0000_0000_0000

  /** apply: the signer is not among the recent ones once the window has moved on. */
  predicate ApplyAllows(s: Snap, number: nat, signer: Address) {
    signer !in Expire(s.recents, number, s.signers).Values
  }

  /** Seal's guard. */
  predicate SealAllows(s: Snap, number: nat, signer: Address) {
    forall seen :: seen in s.recents && s.recents[seen] == signer ==>
      !(number < Limit(s.signers) || seen > number - Limit(s.signers))
  }

  /** verifySeal's guard, whose subtraction is on uint64. */
  predicate VerifyAllows(s: Snap, number: nat, signer: Address) {
    forall seen :: seen in s.recents && s.recents[seen] == signer ==>
      !(seen > (number - Limit(s.signers)) % UINT64)
  }

  /** Seal waits exactly when apply would refuse the block. */
  lemma SealMatchesApply(s: Snap, number: nat, signer: Address)
    requires Inv(s) && number == s.number + 1
    ensures SealAllows(s, number, signer) <==> ApplyAllows(s, number, signer)
  {
    var left := Expire(s.recents, number, s.signers);
    if signer in left.Values {
      var k :| k in left && left[k] == signer;
      assert k in s.recents && s.recents[k] == signer;
    }
    if !SealAllows(s, number, signer) {
      var seen :| seen in s.recents && s.recents[seen] == signer
                  && (number < Limit(s.signers) || seen > number - Limit(s.signers));
      assert seen in left && left[seen] == signer;
    }
  }

  /** verifySeal lets more through: in the first N/2 blocks the subtraction wraps, and any
      signer passes; from then on it agrees with apply. */
  lemma VerifySealIsLaxAtStart(s: Snap, number: nat, signer: Address)
    requires Inv(s) && number == s.number + 1 && number < UINT64 && |s.signers| < UINT64
    ensures VerifyAllows(s, number, signer) <==> ApplyAllows(s, number, signer) || number < Limit(s.signers)
  {
    SealMatchesApply(s, number, signer);
    if number < Limit(s.signers) {
      assert (number - Limit(s.signers)) % UINT64 == number - Limit(s.signers) + UINT64;
    } else {
      assert (number - Limit(s.signers)) % UINT64 == number - Limit(s.signers);
    }
  }

  /** A block that verifySeal passes and apply refuses: of four signers, the first signs the
      first two blocks. */
  lemma WrapAcceptsRecentSigner() returns (s: Snap, h: Header)
    ensures Inv(s) && h.number == s.number + 1 && h.signer.Some? && h.signer.value in s.signers
    ensures VerifyAllows(s, h.number, h.signer.value)
    ensures Next(30000, s, h) == Err(RecentlySigned)
    ensures exists genesis, first :: Inv(genesis) && genesis.number == 0 && genesis.recents == map[] && Next(30000, genesis, first) == Ok(s)
  {
    var genesis := Snap(0, 100, {1, 2, 3, 4}, map[], []);
    var first := Header(1, 101, 100, 0, NONCE_DROP, 2, Some(1), Full([], 0), 15, 0, 0);
    h := Header(2, 102, 101, 0, NONCE_DROP, 1, Some(1), Full([], 0), 30, 0, 0);
    assert |genesis.signers| == 4;
    assert Without([], Cast(1, 0)) == [];
    assert Voted(30000, genesis, first, 1) == [];
    var r := Next(30000, genesis, first);
    assert r.Ok? && r.value.recents == map[1 := 1];
    s := r.value;
    assert 1 in s.recents;
    assert s.signers == {1, 2, 3, 4} && Limit(s.signers) == 3;
    assert Expire(s.recents, 2, s.signers) == s.recents;
    assert Inv(genesis);
    NextKeepsInv(30000, genesis, first);
    VerifySealIsLaxAtStart(s, 2, 1);
  }

  // ----- somebody can always go on -----

  /** The signers of n blocks from number lo on. */
  function Blocked(recents: map<nat, Address>, lo: nat, n: nat): set<Address> {
    if n == 0 then {}
    else Blocked(recents, lo, n - 1) + if lo + n - 1 in recents then {recents[lo + n - 1]} else {}
  }

  lemma {:induction false} BlockedIsSmall(recents: map<nat, Address>, lo: nat, n: nat)
    ensures |Blocked(recents, lo, n)| <= n
    ensures forall k :: k in recents && lo <= k < lo + n ==> recents[k] in Blocked(recents, lo, n)
  {
    if n > 0 {
      BlockedIsSmall(recents, lo, n - 1);
    }
  }

  lemma SubsetSize(a: set<Address>, b: set<Address>)
    ensures a <= b ==> |a| <= |b|
  {
    if a <= b {
      assert |b - a| == |b| - |a|;
    }
  }

  lemma SmallerLeavesOne(a: set<Address>, b: set<Address>) returns (x: Address)
    requires |b| < |a|
    ensures x in a && x !in b
  {
    SubsetSize(a, b);
    x :| x in a && x !in b;
  }

  lemma LeftInWindow(s: Snap, k: nat)
    requires Inv(s) && k in Expire(s.recents, s.number + 1, s.signers)
    ensures k in s.recents && Expire(s.recents, s.number + 1, s.signers)[k] == s.recents[k]
    ensures k <= s.number && s.number + 1 < k + Limit(s.signers)
  {
  }

  /** As long as there is a signer, some signer may sign the next block. */
  lemma SomeoneMaySeal(s: Snap) returns (signer: Address)
    requires Inv(s) && s.signers != {}
    ensures signer in s.signers && ApplyAllows(s, s.number + 1, signer) && SealAllows(s, s.number + 1, signer)
  {
    hide Inv, Expire, Blocked;
    var n, limit := s.number + 1, Limit(s.signers);
    var lo := if n >= limit then n - limit + 1 else 0;
    var left := Expire(s.recents, n, s.signers);
    BlockedIsSmall(s.recents, lo, n - lo);
    signer := SmallerLeavesOne(s.signers, Blocked(s.recents, lo, n - lo));
    forall k | k in left
      ensures left[k] != signer
    {
      LeftInWindow(s, k);
    }
    SealMatchesApply(s, n, signer);
  }

  /** Exactly which headers apply accepts: those of a signer who signed none of the N/2 blocks
      before, with one of the two nonces. Seal lets the same signers through. */
  lemma AcceptedHeaders(epoch: Epoch, s: Snap, h: Header)
    requires Inv(s) && h.number == s.number + 1
    ensures Next(epoch, s, h).Ok? <==>
      && h.signer.Some? && h.signer.value in s.signers
      && (forall k :: k in s.recents && s.recents[k] == h.signer.value ==> h.number - k > |s.signers| / 2)
      && (h.nonce == NONCE_AUTH || h.nonce == NONCE_DROP)
    ensures h.signer.Some? ==> (SealAllows(s, h.number, h.signer.value) <==>
      forall k :: k in s.recents && s.recents[k] == h.signer.value ==> h.number - k > |s.signers| / 2)
  {
    if h.signer.Some? {
      SealMatchesApply(s, h.number, h.signer.value);
    }
  }

  // ----- one signer's blocks are apart -----

  /** All snapshots after headers i+1 to k have a window wider than `gap`. */
  predicate WideFrom(epoch: Epoch, s: Snap, hs: seq<Header>, i: nat, k: nat, gap: nat)
    requires k <= |hs|
  {
    forall t :: i < t <= k ==> Fold(epoch, s, hs[..t]).Ok? ==> |Fold(epoch, s, hs[..t]).value.signers| / 2 + 1 > gap
  }

  lemma FoldStep(epoch: Epoch, s: Snap, hs: seq<Header>, k: nat)
    requires k < |hs|
    ensures Fold(epoch, s, hs[..k + 1]) ==
            var front := Fold(epoch, s, hs[..k]); if front.Err? then front else Next(epoch, front.value, hs[k])
  {
    assert hs[..k + 1][..k] == hs[..k];
  }

  lemma {:induction false} FoldPrefix(epoch: Epoch, s: Snap, hs: seq<Header>, k: nat)
    requires k <= |hs| && Fold(epoch, s, hs).Ok?
    ensures Fold(epoch, s, hs[..k]).Ok?
  {
    if k == |hs| {
      assert hs[..k] == hs;
    } else {
      FoldPrefix(epoch, s, hs[..|hs| - 1], k);
      assert hs[..|hs| - 1][..k] == hs[..k];
    }
  }

  /** The effect of one header on an entry of the window. */
  lemma NextKeepsRecent(epoch: Epoch, s: Snap, h: Header, k: nat)
    requires Next(epoch, s, h).Ok?
    ensures var r := Next(epoch, s, h).value;
            && (k == h.number ==> k in r.recents && r.recents[k] == h.signer.value)
            && (k in s.recents && k < h.number && h.number != k + Limit(s.signers) && h.number != k + Limit(r.signers) ==>
                  k in r.recents && r.recents[k] == s.recents[k])
  {
    hide Voted, Without;
  }

  lemma {:induction false} RecentStays(epoch: Epoch, s: Snap, hs: seq<Header>, i: nat, k: nat, gap: nat)
    requires Contiguous(s.number, hs) && Fold(epoch, s, hs).Ok? && i < k <= |hs| && k - i <= gap + 1
    requires WideFrom(epoch, s, hs, i, k, gap)
    ensures Fold(epoch, s, hs[..k]).Ok? && hs[i].signer.Some?
    ensures var r := Fold(epoch, s, hs[..k]).value; hs[i].number in r.recents && r.recents[hs[i].number] == hs[i].signer.value
    decreases k
  {
    hide Next;
    FoldPrefix(epoch, s, hs, k);
    FoldPrefix(epoch, s, hs, k - 1);
    FoldStep(epoch, s, hs, k - 1);
    var before := Fold(epoch, s, hs[..k - 1]).value;
    NextKeepsRecent(epoch, before, hs[k - 1], hs[i].number);
    if i < k - 1 {
      RecentStays(epoch, s, hs, i, k - 1, gap);
    } else {
      NextIsSigned(epoch, before, hs[i]);
    }
  }

  lemma NextIsSigned(epoch: Epoch, s: Snap, h: Header)
    requires Next(epoch, s, h).Ok?
    ensures h.signer.Some? && h.signer.value in s.signers && ApplyAllows(s, h.number, h.signer.value)
  {
  }

  /** While the window stays wider than their distance, two blocks have different signers;
      so with N signers throughout, any N/2+1 blocks in a row do. */
  lemma SignersAreSpaced(epoch: Epoch, s: Snap, hs: seq<Header>, i: nat, j: nat)
    requires Contiguous(s.number, hs) && Fold(epoch, s, hs).Ok? && i < j < |hs|
    requires WideFrom(epoch, s, hs, i, j, j - i)
    ensures hs[i].signer.Some? && hs[j].signer.Some? && hs[i].signer != hs[j].signer
  {
    hide Next;
    FoldPrefix(epoch, s, hs, j + 1);
    FoldStep(epoch, s, hs, j);
    RecentStays(epoch, s, hs, i, j, j - i);
    var before := Fold(epoch, s, hs[..j]).value;
    NextIsSigned(epoch, before, hs[j]);
    var left := Expire(before.recents, hs[j].number, before.signers);
    assert hs[i].number in left && left[hs[i].number] == hs[i].signer.value;
  }

  // ----- applying in parts -----

  lemma {:induction false} FoldConcat(epoch: Epoch, s: Snap, xs: seq<Header>, ys: seq<Header>)
    ensures Fold(epoch, s, xs + ys) ==
            var r := Fold(epoch, s, xs); if r.Err? then r else Fold(epoch, r.value, ys)
    decreases |ys|
  {
    if |ys| == 0 {
      assert xs + ys == xs;
    } else {
      var front := ys[..|ys| - 1];
      FoldConcat(epoch, s, xs, front);
      assert (xs + ys)[..|xs + ys| - 1] == xs + front;
    }
  }

  /** Applying a chain of headers in one go or in two comes to the same, errors included. */
  lemma ApplyConcat(epoch: Epoch, s: Snap, xs: seq<Header>, ys: seq<Header>)
    requires Inv(s)
    ensures Contiguous(s.number, xs + ys) ==>
      Apply(epoch, s, xs + ys) == var r := Apply(epoch, s, xs); if r.Err? then r else Apply(epoch, r.value, ys)
    ensures Apply(epoch, s, xs + ys).Ok? <==> Apply(epoch, s, xs).Ok? && Apply(epoch, Apply(epoch, s, xs).value, ys).Ok?
  {
    hide Fold, Inv;
    var all := xs + ys;
    FoldConcat(epoch, s, xs, ys);
    if Contiguous(s.number, xs) && Fold(epoch, s, xs).Ok? {
      FoldKeepsInv(epoch, s, xs);
      var mid := s.number + |xs|;
      ContiguousConcat(s.number, xs, ys);
    } else if Contiguous(s.number, all) {
      assert forall i :: 0 <= i < |xs| ==> xs[i] == all[i];
    } else {
      ContiguousConcat(s.number, xs, ys);
    }
  }

  lemma ContiguousConcat(number: nat, xs: seq<Header>, ys: seq<Header>)
    ensures Contiguous(number, xs + ys) <==> Contiguous(number, xs) && Contiguous(number + |xs|, ys)
  {
    var all := xs + ys;
    if Contiguous(number, all) {
      assert forall i :: 0 <= i < |xs| ==> xs[i] == all[i];
      assert forall i :: 0 <= i < |ys| ==> ys[i] == all[|xs| + i];
    }
  }
}
