/** Applying messages to the state: gas is bought, spent and refunded, value moves, and
    nothing is made or lost on the way. */
module StateTransitions {
  import opened Wrappers
  import opened StateObjects
  import opened StateRevert
  import opened StateDatabase
  import opened Balances

  const MAX_UINT64: nat := 0xffff_ffff_ffff_ffff
  const TX_GAS: nat := 21000
  const TX_GAS_CONTRACT_CREATION: nat := 53000
  const TX_DATA_ZERO_GAS: nat := 4
  const TX_DATA_NON_ZERO_GAS: nat := 68
  const CALL_CREATE_DEPTH: nat := 1024

  type Uint64 = n: nat | n <= MAX_UINT64
  type Byte = b: nat | b < 256

  datatype Message = Message(from: Address, to: Option<Address>, gasPrice: nat, gas: Uint64, value: nat,
                             nonce: Uint64, checkNonce: bool, data: seq<Byte>)

  datatype Error = NonceTooHigh | NonceTooLow | InsufficientBalanceForGas | GasLimitReached | OutOfGas
                 | Depth | InsufficientBalance

  datatype Result<+T> = Ok(value: T) | Err(error: Error)

  function NonZeroes(data: seq<Byte>): nat {
    if |data| == 0 then 0 else NonZeroes(data[..|data| - 1]) + if data[|data| - 1] != 0 then 1 else 0
  }

  lemma {:induction false} NonZeroesAtMost(data: seq<Byte>)
    ensures NonZeroes(data) <= |data|
  {
    if |data| > 0 {
      NonZeroesAtMost(data[..|data| - 1]);
    }
  }

  /** What a message's data costs before anything runs. */
  function Intrinsic(data: seq<Byte>, contractCreation: bool): nat {
    NonZeroesAtMost(data);
    (if contractCreation then TX_GAS_CONTRACT_CREATION else TX_GAS)
      + NonZeroes(data) * TX_DATA_NON_ZERO_GAS + (|data| - NonZeroes(data)) * TX_DATA_ZERO_GAS
  }

  /** What every byte adds to the cost of none. */
  lemma IntrinsicBytes(data: seq<Byte>, b: Byte, contractCreation: bool)
    ensures Intrinsic([], contractCreation) == if contractCreation then 53000 else 21000
    ensures Intrinsic(data + [b], contractCreation) == Intrinsic(data, contractCreation) + if b == 0 then 4 else 68
  {
    NonZeroesAtMost(data);
    assert (data + [b])[..|data|] == data;
  }

  /** IntrinsicGas: the exact cost, or an error exactly when it exceeds 64 bits. */
  method IntrinsicGas(data: seq<Byte>, contractCreation: bool) returns (r: Result<Uint64>)
    requires |data| <= MAX_UINT64
    ensures r == if Intrinsic(data, contractCreation) <= MAX_UINT64 then Ok(Intrinsic(data, contractCreation)) else Err(OutOfGas)
  {
    NonZeroesAtMost(data);
    var gas := if contractCreation then TX_GAS_CONTRACT_CREATION else TX_GAS;
    if |data| > 0 {
      var nz := 0;
      for i := 0 to |data|
        invariant nz == NonZeroes(data[..i])
      {
        assert data[..i + 1][..i] == data[..i];
        if data[i] != 0 {
          nz := nz + 1;
        }
      }
      assert data[..|data|] == data;
      if (MAX_UINT64 - gas) / TX_DATA_NON_ZERO_GAS < nz {
        return Err(OutOfGas);
      }
      gas := gas + nz * TX_DATA_NON_ZERO_GAS;
      var z := |data| - nz;
      if (MAX_UINT64 - gas) / TX_DATA_ZERO_GAS < z {
        return Err(OutOfGas);
      }
      gas := gas + z * TX_DATA_ZERO_GAS;
    }
    return Ok(gas);
  }

  class GasPool {
    var gas: nat

    ghost predicate Valid()
      reads this
    {
      gas <= MAX_UINT64
    }

    constructor (gas: Uint64)
      ensures Valid() && this.gas == gas
    {
      this.gas := gas;
    }

    /** AddGas panics above 64 bits. */
    method AddGas(amount: nat)
      requires Valid() && gas + amount <= MAX_UINT64
      modifies this
      ensures Valid() && gas == old(gas) + amount
    {
      gas := gas + amount;
    }

    method SubGas(amount: nat) returns (ok: bool)
      requires Valid()
      modifies this
      ensures Valid() && ok == (amount <= old(gas)) && gas == if ok then old(gas) - amount else old(gas)
    {
      if gas < amount {
        return false;
      }
      gas := gas - amount;
      return true;
    }
  }

  /** What a successful message does to an account's balance. */
  function Settlement(msg: Message, used: nat, moved: bool, coinbase: Address, a: Address): int {
    (if a == msg.from then 0 - used * msg.gasPrice else 0)
    + (if a == coinbase then used * msg.gasPrice else 0)
    + (if moved && a == msg.from then 0 - msg.value else 0)
    + (if moved && (msg.to == Some(a) || (msg.to.None? && a == 0)) then msg.value else 0)
  }

  /** Who gains and who loses what, also where sender, recipient and coinbase are the same. */
  lemma SettlementMeans(msg: Message, used: nat, moved: bool, coinbase: Address)
    ensures var fee, v := used * msg.gasPrice, if moved then msg.value else 0;
            var to := match msg.to { case Some(b) => b case None => 0 };
            && (forall a :: a != msg.from && a != to && a != coinbase ==> Settlement(msg, used, moved, coinbase, a) == 0)
            && (to != msg.from && to != coinbase ==> Settlement(msg, used, moved, coinbase, to) == v)
            && (to != msg.from && to == coinbase ==> Settlement(msg, used, moved, coinbase, to) == v + fee)
            && (to != msg.from && msg.from != coinbase ==> Settlement(msg, used, moved, coinbase, msg.from) == 0 - fee - v)
            && (to != msg.from && msg.from == coinbase ==> Settlement(msg, used, moved, coinbase, msg.from) == 0 - v)
            && (to == msg.from && msg.from != coinbase ==> Settlement(msg, used, moved, coinbase, msg.from) == 0 - fee)
            && (to == msg.from == coinbase ==> Settlement(msg, used, moved, coinbase, msg.from) == 0)
            && (coinbase != msg.from && coinbase != to ==> Settlement(msg, used, moved, coinbase, coinbase) == fee)
  {
  }

  function Recipient(msg: Message): Address {
    if msg.to.None? then 0 else msg.to.value
  }

  /** Gas a message is charged: its data's, less a refund of at most half. */
  function Charged(msg: Message, refund: nat): int {
    var gas := Intrinsic(msg.data, false);
    gas - if refund < gas / 2 then refund else gas / 2
  }

  /** The refund counts in full as long as it is within half the gas used, and no further. */
  lemma ChargedMeans(msg: Message, refund: nat)
    ensures var gas := Intrinsic(msg.data, false);
            && (2 * refund <= gas ==> Charged(msg, refund) == gas - refund)
            && (2 * refund >= gas ==> 2 * Charged(msg, refund) == gas + gas % 2)
  {
  }

  /** Why a message is refused before anything is charged, if it is. */
  function Refusal(msg: Message, s: State, pool: nat): Option<Error> {
    if msg.checkNonce && NonceOf(s, msg.from) < msg.nonce then Some(NonceTooHigh)
    else if msg.checkNonce && NonceOf(s, msg.from) > msg.nonce then Some(NonceTooLow)
    else if BalanceOf(s, msg.from) < msg.gas * msg.gasPrice then Some(InsufficientBalanceForGas)
    else if pool < msg.gas then Some(GasLimitReached)
    else None
  }

  /** What a failed message leaves behind. Refused, it changes nothing; but once the gas is
      paid for, neither the pool nor the sender gets any of it back. */
  ghost predicate LeftBehind(msg: Message, error: Error, s: State, pool: nat, s': State, pool': nat) {
    var refusal := Refusal(msg, s, pool);
    if refusal.Some? then error == refusal.value && SameAccounts(s, s') && pool' == pool
    else
      && pool' == pool - msg.gas
      && (forall a :: BalanceOf(s', a) == BalanceOf(s, a) - if a == msg.from then msg.gas * msg.gasPrice else 0)
      && (if Intrinsic(msg.data, false) > msg.gas
          then error == OutOfGas && forall a :: NonceOf(s', a) == NonceOf(s, a)
          else error == InsufficientBalance && forall a :: NonceOf(s', a) == NonceOf(s, a) + if a == msg.from then 1 else 0)
  }

  ghost predicate NoDebts(s: State) {
    forall a :: BalanceOf(s, a) >= 0
  }

  class StateTransition {
    const state: StateDB
    const gp: GasPool
    const msg: Message
    const coinbase: Address
    const depth: nat
    var gas: nat
    var initialGas: nat

    ghost predicate Valid()
      reads this, state, state.journal, gp
    {
      state.Valid() && gp.Valid() && gas <= initialGas <= MAX_UINT64 && |msg.data| <= MAX_UINT64
    }

    constructor (state: StateDB, gp: GasPool, msg: Message, coinbase: Address, depth: nat)
      requires state.Valid() && gp.Valid() && |msg.data| <= MAX_UINT64
      ensures Valid() && this.state == state && this.gp == gp && this.msg == msg && this.coinbase == coinbase
      ensures this.depth == depth && gas == 0 && initialGas == 0
    {
      this.state, this.gp, this.msg, this.coinbase, this.depth := state, gp, msg, coinbase, depth;
      gas, initialGas := 0, 0;
    }

    /** Adds to (or takes from) one account. */
    method Credit(addr: Address, amount: int)
      requires Valid()
      modifies state, state.journal
      ensures Valid() && state.journal == old(state.journal) && Moved(old(state.Now()), state.Now(), addr, amount)
      ensures state.refund == old(state.refund)
      ensures old(state.InStepSoFar()) ==> state.InStepSoFar()
    {
      hide StateDB.Valid, InStep, Moved, WithBalance, OrNew, Put, Sound;
      SoundNow(state);
      PutRefund(state.Now());
      PutMoves(state.cs, state.Now(), addr, amount);
      if amount >= 0 {
        state.AddBalance(addr, amount);
      } else {
        state.SubBalance(addr, 0 - amount);
      }
    }

    method UseGas(amount: nat) returns (ok: bool)
      requires Valid()
      modifies `gas
      ensures Valid() && ok == (amount <= old(gas)) && gas == if ok then old(gas) - amount else old(gas)
    {
      if gas < amount {
        return false;
      }
      gas := gas - amount;
      return true;
    }

    /** buyGas: the whole gas is paid for and taken from the block's pool in advance. */
    method BuyGas() returns (error: Option<Error>)
      requires Valid() && gas == 0
      modifies this, gp, state, state.journal
      ensures Valid() && state.journal == old(state.journal) && state.refund == old(state.refund)
      ensures old(state.InStepSoFar()) ==> state.InStepSoFar()
      ensures error == (if BalanceOf(old(state.Now()), msg.from) < msg.gas * msg.gasPrice then Some(InsufficientBalanceForGas)
                        else if old(gp.gas) < msg.gas then Some(GasLimitReached) else None)
      ensures error.None? ==> gas == initialGas == msg.gas && gp.gas == old(gp.gas) - msg.gas
      ensures error.None? ==> Moved(old(state.Now()), state.Now(), msg.from, 0 - msg.gas * msg.gasPrice)
      ensures error.Some? ==> gp.gas == old(gp.gas) && gas == old(gas) && SameAccounts(old(state.Now()), state.Now())
    {
      hide StateDB.Valid, InStep, Moved, SameAccounts, BalanceOf;
      var mgval := msg.gas * msg.gasPrice;
      ghost var s := state.Now();
      var balance := state.GetBalance(msg.from);
      ghost var s' := state.Now();
      Unchanged(s, s');
      if balance < mgval {
        return Some(InsufficientBalanceForGas);
      }
      var ok := gp.SubGas(msg.gas);
      if !ok {
        return Some(GasLimitReached);
      }
      gas := gas + msg.gas;
      initialGas := msg.gas;
      Credit(msg.from, 0 - mgval);
      MovedAfterSame(s, s', state.Now(), msg.from, 0 - mgval);
      return None;
    }

    method PreCheck() returns (error: Option<Error>)
      requires Valid() && gas == 0
      modifies this, gp, state, state.journal
      ensures Valid() && state.journal == old(state.journal) && state.refund == old(state.refund)
      ensures old(state.InStepSoFar()) ==> state.InStepSoFar()
      ensures error == Refusal(msg, old(state.Now()), old(gp.gas))
      ensures error.None? ==> gas == initialGas == msg.gas && gp.gas == old(gp.gas) - msg.gas
      ensures error.None? ==> Moved(old(state.Now()), state.Now(), msg.from, 0 - msg.gas * msg.gasPrice)
      ensures error.Some? ==> gp.gas == old(gp.gas) && gas == old(gas) && SameAccounts(old(state.Now()), state.Now())
    {
      hide StateDB.Valid, InStep, Moved, SameAccounts;
      ghost var s := state.Now();
      if msg.checkNonce {
        var nonce := state.GetNonce(msg.from);
        Unchanged(s, state.Now());
        if nonce < msg.nonce {
          return Some(NonceTooHigh);
        } else if nonce > msg.nonce {
          return Some(NonceTooLow);
        }
      }
      ghost var s' := state.Now();
      Unchanged(s, s');
      assert BalanceOf(s', msg.from) == BalanceOf(s, msg.from);
      error := BuyGas();
      if error.Some? {
        SameTwice(s, s', state.Now());
      } else {
        MovedAfterSame(s, s', state.Now(), msg.from, 0 - msg.gas * msg.gasPrice);
      }
    }

    /** The sender's nonce goes up. */
    method BumpNonce()
      requires Valid()
      modifies state, state.journal
      ensures Valid() && state.journal == old(state.journal) && state.refund == old(state.refund)
      ensures old(state.InStepSoFar()) ==> state.InStepSoFar()
      ensures Bumped(old(state.Now()), state.Now(), msg.from)
    {
      hide StateDB.Valid, InStep, Bumped, SameAccounts, Put, OrNew, Sound;
      ghost var s := state.Now();
      var nonce := state.GetNonce(msg.from);
      ghost var s' := state.Now();
      Unchanged(s, s');
      SoundNow(state);
      PutBumps(state.cs, s, s', msg.from);
      PutRefund(s');
      state.SetNonce(msg.from, nonce + 1);
    }

    /** Call, as far as it goes without code to run: the value moves, to an account created
        for it if need be. */
    method Call(to: Address, gas: nat, value: nat) returns (leftOver: nat, error: Option<Error>, ghost between: State)
      requires Valid()
      modifies state, state.journal
      ensures Valid() && state.journal == old(state.journal) && state.refund == old(state.refund) && leftOver == gas
      ensures old(state.InStepSoFar()) ==> state.InStepSoFar()
      ensures error == (if depth > CALL_CREATE_DEPTH then Some(Depth)
                        else if BalanceOf(old(state.Now()), msg.from) < value then Some(InsufficientBalance) else None)
      ensures var v := if error.None? then value else 0;
              Moved(old(state.Now()), between, msg.from, 0 - v) && Moved(between, state.Now(), to, v)
    {
      hide StateDB.Valid, InStep, Moved, SameAccounts;
      ghost var s := state.Now();
      NothingMoved(s, s, msg.from) by { Unchanged(s, s); }
      NothingMoved(s, s, to) by { Unchanged(s, s); }
      if depth > CALL_CREATE_DEPTH {
        return gas, Some(Depth), s;
      }
      var balance := state.GetBalance(msg.from);
      ghost var s1 := state.Now();
      Unchanged(s, s1);
      NothingMoved(s, s1, to);
      if balance < value {
        return gas, Some(InsufficientBalance), s;
      }
      var exists' := state.Exist(to);
      ghost var s2 := state.Now();
      Unchanged(s, s2);
      if !exists' {
        if value == 0 {
          NothingMoved(s, s2, to);
          return gas, None, s;
        }
        CreateRecipient(to);
      } else {
        NothingMoved(s2, s2, to) by { Unchanged(s2, s2); }
      }
      ghost var s3 := state.Now();
      MovedAfterSame(s, s2, s3, to, 0);
      Credit(msg.from, 0 - value);
      between := state.Now();
      MovedTwice(s, s3, between, to, msg.from, 0 - value);
      Credit(to, value);
      return gas, None, between;
    }

    method CreateRecipient(to: Address)
      requires Valid() && Live(state.Now(), to).None?
      modifies state, state.journal
      ensures Valid() && state.journal == old(state.journal) && state.refund == old(state.refund)
      ensures old(state.InStepSoFar()) ==> state.InStepSoFar()
      ensures Moved(old(state.Now()), state.Now(), to, 0)
    {
      hide StateDB.Valid, InStep, Moved, Put, Sound;
      SoundNow(state);
      CreateMoves(state.cs, state.Now(), to);
      PutRefund(state.Now());
      state.CreateAccount(to);
    }

    /** refundGas: the refund counter, up to half of the gas used, and the remaining gas are
        paid back; the remaining gas returns to the pool. */
    method RefundGas()
      requires Valid() && gp.gas + initialGas <= MAX_UINT64
      modifies this, gp, state, state.journal
      ensures Valid() && state.journal == old(state.journal) && state.refund == old(state.refund) && initialGas == old(initialGas)
      ensures old(state.InStepSoFar()) ==> state.InStepSoFar()
      ensures var half := (initialGas - old(gas)) / 2;
              gas == old(gas) + if half < old(state.refund) then half else old(state.refund)
      ensures gp.gas == old(gp.gas) + gas
      ensures Moved(old(state.Now()), state.Now(), msg.from, gas * msg.gasPrice)
    {
      hide StateDB.Valid, InStep, Moved;
      var refund := GasUsed() / 2;
      if refund > state.refund {
        refund := state.refund;
      }
      gas := gas + refund;
      var remaining := gas * msg.gasPrice;
      Credit(msg.from, remaining);
      gp.AddGas(gas);
    }

    function GasUsed(): nat
      requires gas <= initialGas
      reads this
    {
      initialGas - gas
    }

    /** TransitionDb: exactly when it succeeds, what everybody gains or loses, and that the
        sum of all balances stays, nobody gets into debt, and the pool loses the gas used. */
    method TransitionDb() returns (r: Result<(nat, bool)>)
      requires Valid() && gas == 0 && initialGas == 0
      modifies this, gp, state, state.journal
      ensures state.Valid() && gp.Valid() && state.journal == old(state.journal) && state.refund == old(state.refund)
      ensures old(state.InStepSoFar()) ==> state.InStepSoFar()
      ensures var s, price := old(state.Now()), msg.gas * msg.gasPrice;
              r.Ok? <==>
                && (msg.checkNonce ==> NonceOf(s, msg.from) == msg.nonce)
                && BalanceOf(s, msg.from) >= price && old(gp.gas) >= msg.gas && Intrinsic(msg.data, false) <= msg.gas
                && (depth > CALL_CREATE_DEPTH || BalanceOf(s, msg.from) - price >= msg.value)
      ensures r.Err? ==> LeftBehind(msg, r.error, old(state.Now()), old(gp.gas), state.Now(), gp.gas)
      ensures r.Ok? ==>
        var used, failed := r.value.0, r.value.1;
        && used == Charged(msg, old(state.refund)) && failed == (depth > CALL_CREATE_DEPTH)
        && gp.gas == old(gp.gas) - used
        && (forall a :: BalanceOf(state.Now(), a) == BalanceOf(old(state.Now()), a) + Settlement(msg, used, !failed, coinbase, a))
        && (!failed ==> forall b :: msg.to == Some(b) && b != msg.from && b != coinbase ==>
              BalanceOf(state.Now(), b) == BalanceOf(old(state.Now()), b) + msg.value)
        && (msg.to != Some(msg.from) && (msg.to.None? ==> msg.from != 0) && msg.from != coinbase ==>
              BalanceOf(state.Now(), msg.from) ==
                BalanceOf(old(state.Now()), msg.from) - used * msg.gasPrice - if failed then 0 else msg.value)
        && (forall a :: NonceOf(state.Now(), a) == NonceOf(old(state.Now()), a) + if a == msg.from then 1 else 0)
        && Total(state.Now()) == Total(old(state.Now()))
        && (NoDebts(old(state.Now())) ==> NoDebts(state.Now()))
        && (NobodyLeft(old(state.Now())) ==> NobodyLeft(state.Now()))
    {
      hide StateDB.Valid, InStep, StateDB.InStepSoFar, Moved, Bumped, NobodyLeft, NoDebts, Settlement, Total, SameAccounts, LeftBehind,
           BalanceOf, NonceOf, Intrinsic, Recipient;
      ghost var s0, pool := state.Now(), gp.gas;
      var error := PreCheck();
      if error.Some? {
        RefusedChangesNothing(msg, s0, pool, state.Now());
        return Err(error.value);
      }
      ghost var s1 := state.Now();
      var intrinsic := IntrinsicGas(msg.data, false);
      if intrinsic.Err? {
        OutOfGasKeepsGas(msg, s0, pool, s1);
        return Err(intrinsic.error);
      }
      var ok := UseGas(intrinsic.value);
      if !ok {
        OutOfGasKeepsGas(msg, s0, pool, s1);
        return Err(OutOfGas);
      }
      BumpNonce();
      ghost var s2 := state.Now();
      var left, vmerr;
      ghost var s3;
      left, vmerr, s3 := Call(Recipient(msg), gas, msg.value);
      gas := left;
      ghost var s4 := state.Now();
      SenderAtCall(s0, s1, s2, msg);
      if vmerr == Some(InsufficientBalance) {
        FailedCallKeepsGas(msg, s0, pool, s1, s2, s3, s4);
        return Err(InsufficientBalance);
      }
      RefundGas();
      ghost var s5 := state.Now();
      Credit(coinbase, GasUsed() * msg.gasPrice);
      ghost var s6 := state.Now();
      TransitionSums(s0, s1, s2, s3, s4, s5, s6, msg, gas, GasUsed(), vmerr.None?, coinbase);
      SettlementMeans(msg, GasUsed(), vmerr.None?, coinbase);
      return Ok((GasUsed(), vmerr.Some?));
    }
  }

  // ----- blocks -----

  /** A transaction's receipt: whether it failed, its gas, and the gas of the block so far. */
  datatype Receipt = Receipt(failed: bool, gasUsed: nat, cumulative: nat)

  function CumulativeAt(receipts: seq<Receipt>, i: nat): nat
    requires i <= |receipts|
  {
    if i == 0 then 0 else receipts[i - 1].cumulative
  }

  /** Each receipt has its message's charge, and adds it to the one before. Only the first
      message can have a refund to its credit. */
  ghost predicate Accounted(receipts: seq<Receipt>, msgs: seq<Message>, refund: nat) {
    |receipts| <= |msgs| && forall i :: 0 <= i < |receipts| ==> AccountedAt(receipts, msgs, refund, i)
  }

  ghost predicate AccountedAt(receipts: seq<Receipt>, msgs: seq<Message>, refund: nat, i: nat)
    requires i < |receipts| <= |msgs|
  {
    && receipts[i].gasUsed == Charged(msgs[i], if i == 0 then refund else 0)
    && receipts[i].cumulative == CumulativeAt(receipts, i) + receipts[i].gasUsed
  }

  lemma AccountedSnoc(receipts: seq<Receipt>, msgs: seq<Message>, refund: nat, x: Receipt)
    requires Accounted(receipts, msgs, refund) && |receipts| < |msgs|
    requires x.gasUsed == Charged(msgs[|receipts|], if |receipts| == 0 then refund else 0)
    requires x.cumulative == CumulativeAt(receipts, |receipts|) + x.gasUsed
    ensures Accounted(receipts + [x], msgs, refund)
  {
    hide Charged;
    var all := receipts + [x];
    forall i | 0 <= i < |all|
      ensures AccountedAt(all, msgs, refund, i)
    {
      if i < |receipts| {
        assert AccountedAt(receipts, msgs, refund, i);
        assert i > 0 ==> all[i - 1] == receipts[i - 1];
      }
    }
  }

  /** How many of the messages an account sends. */
  function Sent(msgs: seq<Message>, a: Address): nat {
    if |msgs| == 0 then 0 else Sent(msgs[..|msgs| - 1], a) + if msgs[|msgs| - 1].from == a then 1 else 0
  }

  /** What the messages come to for an account. */
  function Ledger(msgs: seq<Message>, receipts: seq<Receipt>, coinbase: Address, a: Address): int
    requires |receipts| == |msgs|
  {
    if |msgs| == 0 then 0
    else
      var n := |msgs| - 1;
      Ledger(msgs[..n], receipts[..n], coinbase, a) + Settlement(msgs[n], receipts[n].gasUsed, !receipts[n].failed, coinbase, a)
  }

  /** A block so far: every account has what the messages come to, its nonce counts those it
      sent, and each message had its sender's nonce at the time. */
  ghost predicate Booked(msgs: seq<Message>, receipts: seq<Receipt>, coinbase: Address, s: State, t: State) {
    && |receipts| == |msgs|
    && (forall a :: BalanceOf(t, a) == BalanceOf(s, a) + Ledger(msgs, receipts, coinbase, a))
    && (forall a :: NonceOf(t, a) == NonceOf(s, a) + Sent(msgs, a))
    && (forall i :: 0 <= i < |msgs| && msgs[i].checkNonce ==>
          msgs[i].nonce == NonceOf(s, msgs[i].from) + Sent(msgs[..i], msgs[i].from))
  }

  lemma NothingBooked(coinbase: Address, s: State)
    ensures Booked([], [], coinbase, s, s)
  {
  }

  lemma BookedNext(msgs: seq<Message>, i: nat, receipts: seq<Receipt>, coinbase: Address, s: State, mid: State, t: State, x: Receipt)
    requires i < |msgs| && Booked(msgs[..i], receipts, coinbase, s, mid)
    requires forall a :: BalanceOf(t, a) == BalanceOf(mid, a) + Settlement(msgs[i], x.gasUsed, !x.failed, coinbase, a)
    requires forall a :: NonceOf(t, a) == NonceOf(mid, a) + if a == msgs[i].from then 1 else 0
    requires msgs[i].checkNonce ==> NonceOf(mid, msgs[i].from) == msgs[i].nonce
    ensures Booked(msgs[..i + 1], receipts + [x], coinbase, s, t)
  {
    hide BalanceOf, NonceOf, Settlement;
    var more, rs := msgs[..i + 1], receipts + [x];
    assert more[..i] == msgs[..i] && rs[..i] == receipts;
    forall k | 0 <= k < |more| && more[k].checkNonce
      ensures more[k].nonce == NonceOf(s, more[k].from) + Sent(more[..k], more[k].from)
    {
      assert more[..k] == msgs[..i][..k];
      assert k < i ==> more[k] == msgs[..i][k];
    }
  }

  lemma BookedSame(msgs: seq<Message>, receipts: seq<Receipt>, coinbase: Address, s: State, mid: State, t: State)
    requires Booked(msgs, receipts, coinbase, s, mid)
    requires forall a :: BalanceOf(t, a) == BalanceOf(mid, a) && NonceOf(t, a) == NonceOf(mid, a)
    ensures Booked(msgs, receipts, coinbase, s, t)
  {
    hide BalanceOf, NonceOf;
  }

  lemma {:induction false} SentGrows(msgs: seq<Message>, i: nat, a: Address)
    requires i < |msgs| && msgs[i].from == a
    ensures Sent(msgs[..i], a) < Sent(msgs, a)
  {
    var n := |msgs| - 1;
    if i < n {
      SentGrows(msgs[..n], i, a);
      assert msgs[..n][..i] == msgs[..i];
    }
  }

  /** No message is applied twice: an account's messages have ascending nonces. */
  lemma NoReplay(msgs: seq<Message>, receipts: seq<Receipt>, coinbase: Address, s: State, t: State, i: nat, j: nat)
    requires Booked(msgs, receipts, coinbase, s, t) && i < j < |msgs|
    requires msgs[i].from == msgs[j].from && msgs[i].checkNonce && msgs[j].checkNonce
    ensures msgs[i].nonce < msgs[j].nonce
    ensures NonceOf(s, msgs[i].from) <= msgs[i].nonce < NonceOf(t, msgs[i].from)
  {
    var a := msgs[i].from;
    SentGrows(msgs[..j], i, a);
    assert msgs[..j][..i] == msgs[..i];
    SentGrows(msgs, i, a);
  }

  /** ApplyTransaction: the message, then the end of the transaction. */
  method ApplyTransaction(state: StateDB, gp: GasPool, msg: Message, coinbase: Address, depth: nat, usedGas: nat) returns (r: Result<Receipt>)
    requires state.Valid() && gp.Valid() && |msg.data| <= MAX_UINT64 && NobodyLeft(state.Now())
    modifies gp, state, state.journal
    ensures state.Valid() && gp.Valid() && (state.journal == old(state.journal) || fresh(state.journal))
    ensures old(state.InStepSoFar()) ==> state.InStepSoFar() && (r.Ok? ==> forall a :: InStep(state.Now(), a))
    ensures r.Ok? ==>
      && r.value.gasUsed == Charged(msg, old(state.refund)) && r.value.cumulative == usedGas + r.value.gasUsed
      && gp.gas == old(gp.gas) - r.value.gasUsed && state.refund == 0 && r.value.failed == (depth > CALL_CREATE_DEPTH)
      && (forall a :: BalanceOf(state.Now(), a) ==
            BalanceOf(old(state.Now()), a) + Settlement(msg, r.value.gasUsed, !r.value.failed, coinbase, a))
      && (forall a :: NonceOf(state.Now(), a) == NonceOf(old(state.Now()), a) + if a == msg.from then 1 else 0)
      && (msg.checkNonce ==> NonceOf(old(state.Now()), msg.from) == msg.nonce)
      && Total(state.Now()) == Total(old(state.Now())) && NobodyLeft(state.Now())
      && (NoDebts(old(state.Now())) ==> NoDebts(state.Now()))
  {
    hide StateDB.Valid, StateDB.InStepSoFar, InStep, NobodyLeft, Total, BalanceOf, NonceOf, Settlement, LeaveNothing;
    var st := new StateTransition(state, gp, msg, coinbase, depth);
    var done := st.TransitionDb();
    if done.Err? {
      return Err(done.error);
    }
    ghost var s, dirty := state.Now(), state.journal.dirties.Keys;
    DirtyNow(state);
    state.Finalise(true);
    NobodyLeaves(state.cs, true, s, state.Now(), dirty);
    FinaliseKeepsBalances(state.cs, true, s, state.Now(), dirty);
    FinaliseKeepsNonces(state.cs, true, s, state.Now(), dirty);
    return Ok(Receipt(done.value.1, done.value.0, usedGas + done.value.0));
  }

  lemma DirtyNow(state: StateDB)
    requires state.Valid()
    ensures forall a :: a in state.journal.dirties.Keys && a in state.Now().objects ==> !state.Now().objects[a].deleted
  {
  }

  /** Process: all transactions of a block. The gas used and what is left in the pool make
      up the block's gas limit, and the sum of all balances is the same as before. */
  method Process(state: StateDB, msgs: seq<Message>, gasLimit: Uint64, coinbase: Address)
    returns (r: Result<seq<Receipt>>, usedGas: nat, gp: GasPool)
    requires state.Valid() && NobodyLeft(state.Now()) && forall i :: 0 <= i < |msgs| ==> |msgs[i].data| <= MAX_UINT64
    modifies state, state.journal
    ensures state.Valid() && fresh(gp)
    ensures r.Ok? && old(state.InStepSoFar()) ==> forall a :: InStep(state.Now(), a)
    ensures r.Ok? ==>
      && usedGas + gp.gas == gasLimit
      && Total(state.Now()) == Total(old(state.Now()))
      && (NoDebts(old(state.Now())) ==> NoDebts(state.Now()))
      && |r.value| == |msgs|
      && Accounted(r.value, msgs, old(state.refund)) && usedGas == CumulativeAt(r.value, |msgs|)
      && Booked(msgs, r.value, coinbase, old(state.Now()), state.Now())
  {
    hide StateDB.Valid, StateDB.InStepSoFar, InStep, NobodyLeft, Total, NoDebts, Charged, Booked, BalanceOf, NonceOf, Settlement;
    gp := new GasPool(gasLimit);
    usedGas := 0;
    var receipts: seq<Receipt> := [];
    NothingBooked(coinbase, state.Now());
    for i := 0 to |msgs|
      invariant state.Valid() && gp.Valid() && NobodyLeft(state.Now()) && fresh(gp)
      invariant state.journal == old(state.journal) || fresh(state.journal)
      invariant usedGas + gp.gas == gasLimit && |receipts| == i
      invariant old(state.InStepSoFar()) ==> state.InStepSoFar()
      invariant state.refund == if i == 0 then old(state.refund) else 0
      invariant Total(state.Now()) == Total(old(state.Now()))
      invariant NoDebts(old(state.Now())) ==> NoDebts(state.Now())
      invariant Booked(msgs[..i], receipts, coinbase, old(state.Now()), state.Now())
      invariant Accounted(receipts, msgs, old(state.refund)) && usedGas == CumulativeAt(receipts, i)
    {
      ghost var mid := state.Now();
      var applied := ApplyTransaction(state, gp, msgs[i], coinbase, 0, usedGas);
      if applied.Err? {
        return Err(applied.error), 0, gp;
      }
      usedGas := usedGas + applied.value.gasUsed;
      AccountedSnoc(receipts, msgs, old(state.refund), applied.value);
      BookedNext(msgs, i, receipts, coinbase, old(state.Now()), mid, state.Now(), applied.value);
      receipts := receipts + [applied.value];
    }
    assert msgs[..|msgs|] == msgs;
    ghost var last := state.Now();
    EndOfBlock(state);
    BookedSame(msgs, receipts, coinbase, old(state.Now()), last, state.Now());
    return Ok(receipts), usedGas, gp;
  }

  /** The engine's Finalize computes the root, which ends a transaction once more. */
  method EndOfBlock(state: StateDB)
    requires state.Valid() && NobodyLeft(state.Now())
    modifies state, state.journal
    ensures state.Valid() && Total(state.Now()) == Total(old(state.Now()))
    ensures old(state.InStepSoFar()) ==> forall a :: InStep(state.Now(), a)
    ensures NoDebts(old(state.Now())) ==> NoDebts(state.Now())
    ensures forall a :: BalanceOf(state.Now(), a) == BalanceOf(old(state.Now()), a) && NonceOf(state.Now(), a) == NonceOf(old(state.Now()), a)
  {
    hide StateDB.Valid, StateDB.InStepSoFar, InStep, NobodyLeft, Total, BalanceOf, NonceOf, LeaveNothing;
    ghost var s, dirty := state.Now(), state.journal.dirties.Keys;
    DirtyNow(state);
    state.Finalise(true);
    NobodyLeaves(state.cs, true, s, state.Now(), dirty);
    FinaliseKeepsBalances(state.cs, true, s, state.Now(), dirty);
    FinaliseKeepsNonces(state.cs, true, s, state.Now(), dirty);
  }

  lemma Unchanged(s: State, t: State)
    ensures (forall b :: Live(t, b) == Live(s, b)) ==> SameAccounts(s, t)
    ensures (forall b :: Live(t, b) == Live(s, b)) ==> forall b :: BalanceOf(t, b) == BalanceOf(s, b) && NonceOf(t, b) == NonceOf(s, b)
  {
    if forall b :: Live(t, b) == Live(s, b) {
      forall b
        ensures BalanceOf(t, b) == BalanceOf(s, b) && NonceOf(t, b) == NonceOf(s, b)
      {
        assert Live(t, b) == Live(s, b);
      }
    }
  }

  lemma SameTwice(s: State, t: State, u: State)
    requires SameAccounts(s, t) && SameAccounts(t, u)
    ensures SameAccounts(s, u)
  {
  }

  lemma MovedTwice(s: State, t: State, u: State, a: Address, b: Address, d: int)
    requires Moved(s, t, a, 0) && Moved(t, u, b, d)
    ensures Moved(s, u, b, d)
  {
    forall x
      ensures BalanceOf(u, x) == BalanceOf(s, x) + if x == b then d else 0
    {
      assert BalanceOf(u, x) == BalanceOf(t, x) + if x == b then d else 0;
      assert BalanceOf(t, x) == BalanceOf(s, x) + if x == a then 0 else 0;
    }
  }

  lemma SenderAtCall(s0: State, s1: State, s2: State, msg: Message)
    requires Moved(s0, s1, msg.from, 0 - msg.gas * msg.gasPrice) && Bumped(s1, s2, msg.from)
    ensures BalanceOf(s2, msg.from) == BalanceOf(s0, msg.from) - msg.gas * msg.gasPrice
  {
  }

  lemma RefusedChangesNothing(msg: Message, s: State, pool: nat, s': State)
    requires Refusal(msg, s, pool).Some? && SameAccounts(s, s')
    ensures LeftBehind(msg, Refusal(msg, s, pool).value, s, pool, s', pool)
  {
  }

  lemma OutOfGasKeepsGas(msg: Message, s0: State, pool: nat, s1: State)
    requires Refusal(msg, s0, pool).None? && Intrinsic(msg.data, false) > msg.gas
    requires Moved(s0, s1, msg.from, 0 - msg.gas * msg.gasPrice)
    ensures LeftBehind(msg, OutOfGas, s0, pool, s1, pool - msg.gas)
  {
    hide BalanceOf, NonceOf, NobodyLeft;
  }

  lemma FailedCallKeepsGas(msg: Message, s0: State, pool: nat, s1: State, s2: State, s3: State, s4: State)
    requires Refusal(msg, s0, pool).None? && Intrinsic(msg.data, false) <= msg.gas
    requires Moved(s0, s1, msg.from, 0 - msg.gas * msg.gasPrice) && Bumped(s1, s2, msg.from)
    requires Moved(s2, s3, msg.from, 0) && Moved(s3, s4, Recipient(msg), 0)
    ensures LeftBehind(msg, InsufficientBalance, s0, pool, s4, pool - msg.gas)
  {
    hide BalanceOf, NonceOf, NobodyLeft;
  }

  /** The steps of a successful transition taken together. */
  lemma TransitionSums(s0: State, s1: State, s2: State, s3: State, s4: State, s5: State, s6: State,
                       msg: Message, left: nat, used: nat, moved: bool, coinbase: Address)
    requires Moved(s0, s1, msg.from, 0 - msg.gas * msg.gasPrice) && Bumped(s1, s2, msg.from)
    requires var v := if moved then msg.value else 0; Moved(s2, s3, msg.from, 0 - v) && Moved(s3, s4, Recipient(msg), v)
    requires Moved(s4, s5, msg.from, left * msg.gasPrice) && Moved(s5, s6, coinbase, used * msg.gasPrice)
    requires left + used == msg.gas && BalanceOf(s0, msg.from) - msg.gas * msg.gasPrice >= if moved then msg.value else 0
    ensures forall a :: BalanceOf(s6, a) == BalanceOf(s0, a) + Settlement(msg, used, moved, coinbase, a)
    ensures forall a :: NonceOf(s6, a) == NonceOf(s0, a) + if a == msg.from then 1 else 0
    ensures Total(s6) == Total(s0)
    ensures NoDebts(s0) ==> NoDebts(s6)
    ensures NobodyLeft(s0) ==> NobodyLeft(s6)
  {
    hide Moved, Total, NobodyLeft, Settlement;
    assert left * msg.gasPrice + used * msg.gasPrice == msg.gas * msg.gasPrice;
    forall a
      ensures BalanceOf(s6, a) == BalanceOf(s0, a) + Settlement(msg, used, moved, coinbase, a)
      ensures NonceOf(s6, a) == NonceOf(s0, a) + if a == msg.from then 1 else 0
      ensures NoDebts(s0) ==> BalanceOf(s6, a) >= 0
    {
      OneAccount(s0, s1, s2, s3, s4, s5, s6, msg, left, used, moved, coinbase, a);
    }
    MovedTotal(s0, s1, msg.from, 0 - msg.gas * msg.gasPrice);
    SameTotal(s1, s2);
    MovedTotal(s2, s3, msg.from, 0 - if moved then msg.value else 0);
    MovedTotal(s3, s4, Recipient(msg), if moved then msg.value else 0);
    MovedTotal(s4, s5, msg.from, left * msg.gasPrice);
    MovedTotal(s5, s6, coinbase, used * msg.gasPrice);
    NobodyDies(s0, s1, s2, s3, s4, s5, s6, msg, left, used, moved, coinbase);
  }

  lemma NobodyDies(s0: State, s1: State, s2: State, s3: State, s4: State, s5: State, s6: State,
                     msg: Message, left: nat, used: nat, moved: bool, coinbase: Address)
    requires Moved(s0, s1, msg.from, 0 - msg.gas * msg.gasPrice) && Bumped(s1, s2, msg.from)
    requires var v := if moved then msg.value else 0; Moved(s2, s3, msg.from, 0 - v) && Moved(s3, s4, Recipient(msg), v)
    requires Moved(s4, s5, msg.from, left * msg.gasPrice) && Moved(s5, s6, coinbase, used * msg.gasPrice)
    ensures NobodyLeft(s0) ==> NobodyLeft(s6)
  {
    hide NobodyLeft, BalanceOf, NonceOf;
  }

  lemma OneAccount(s0: State, s1: State, s2: State, s3: State, s4: State, s5: State, s6: State,
                   msg: Message, left: nat, used: nat, moved: bool, coinbase: Address, a: Address)
    requires Moved(s0, s1, msg.from, 0 - msg.gas * msg.gasPrice) && Bumped(s1, s2, msg.from)
    requires var v := if moved then msg.value else 0; Moved(s2, s3, msg.from, 0 - v) && Moved(s3, s4, Recipient(msg), v)
    requires Moved(s4, s5, msg.from, left * msg.gasPrice) && Moved(s5, s6, coinbase, used * msg.gasPrice)
    requires left * msg.gasPrice + used * msg.gasPrice == msg.gas * msg.gasPrice
    requires BalanceOf(s0, msg.from) - msg.gas * msg.gasPrice >= if moved then msg.value else 0
    ensures BalanceOf(s6, a) == BalanceOf(s0, a) + Settlement(msg, used, moved, coinbase, a)
    ensures NonceOf(s6, a) == NonceOf(s0, a) + if a == msg.from then 1 else 0
    ensures NoDebts(s0) ==> BalanceOf(s6, a) >= 0
  {
    hide NobodyLeft, BalanceOf, NonceOf, Settlement, Recipient;
    var v := if moved then msg.value else 0;
    StepsMakeSettlement(msg, left, used, moved, coinbase, a);
    assert BalanceOf(s1, a) == BalanceOf(s0, a) + if a == msg.from then 0 - msg.gas * msg.gasPrice else 0;
    assert BalanceOf(s2, a) == BalanceOf(s1, a);
    assert BalanceOf(s3, a) == BalanceOf(s2, a) + if a == msg.from then 0 - v else 0;
    assert BalanceOf(s4, a) == BalanceOf(s3, a) + if a == Recipient(msg) then v else 0;
    assert BalanceOf(s5, a) == BalanceOf(s4, a) + if a == msg.from then left * msg.gasPrice else 0;
    assert BalanceOf(s6, a) == BalanceOf(s5, a) + if a == coinbase then used * msg.gasPrice else 0;
  }

  lemma StepsMakeSettlement(msg: Message, left: nat, used: nat, moved: bool, coinbase: Address, a: Address)
    requires left * msg.gasPrice + used * msg.gasPrice == msg.gas * msg.gasPrice
    ensures var v := if moved then msg.value else 0;
            Settlement(msg, used, moved, coinbase, a) ==
              (if a == msg.from then left * msg.gasPrice - msg.gas * msg.gasPrice - v else 0)
              + (if a == Recipient(msg) then v else 0) + (if a == coinbase then used * msg.gasPrice else 0)
  {
  }

  lemma PutRefund(s: State)
    ensures forall obj :: Put(s, obj).refund == s.refund
  {
  }

  lemma SoundNow(state: StateDB)
    requires state.Valid()
    ensures Sound(state.Now())
  {
  }
}
