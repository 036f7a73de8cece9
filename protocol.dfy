/**
 * The implemented factory and pool-owner instructions of the protocol
 * program: initialising the factory, enabling a fee tier, handing over
 * ownership, setting the packed protocol fee and collecting accrued protocol
 * fees. Accounts are objects whose fields the instructions update in place;
 * events are returned as values.
 *
 * An instruction that returns an error or panics fails its transaction, and
 * the runtime then discards every account write it made. The methods below
 * therefore leave all accounts unchanged on each error path.
 */
module CyclosProtocol {
  import opened Primitives

  /** Largest fee tier, in hundredths of a basis point (100%). */
  const MAX_FEE: int := 1_000_000

  /** Largest tick spacing a fee tier may use. */
  const MAX_TICK_SPACING: int := 16384

  datatype ErrorCode = FeeLimit | TickSpacingLimit | Locked

  /** How an instruction fails: a program error code or a panic. */
  datatype Failure = Code(code: ErrorCode) | Panicked(reason: Panic)

  datatype OwnerChangedEvent = OwnerChangedEvent(oldOwner: Pubkey, newOwner: Pubkey)

  datatype FeeAmountEnabledEvent = FeeAmountEnabledEvent(fee: uint32, tickSpacing: uint16)

  datatype SetFeeProtocolEvent = SetFeeProtocolEvent(
    feeProtocol0Old: uint8, feeProtocol1Old: uint8,
    feeProtocol0: uint8, feeProtocol1: uint8)

  /**
   * The event of `set_fee_protocol`, and whether the instruction logged its
   * "Protocol fee should be 0 or 1/N" message.
   */
  datatype SetFeeProtocolOutcome = SetFeeProtocolOutcome(event: SetFeeProtocolEvent, loggedMessage: bool)

  datatype CollectProtocolEvent = CollectProtocolEvent(amount0: uint64, amount1: uint64)

  class FactoryState {
    var bump: uint8
    var owner: Pubkey
  }

  class FeeState {
    var bump: uint8
    var fee: uint32
    var tickSpacing: uint16

    /** The limits `enable_fee_amount` enforces before it stores a fee tier. */
    predicate WithinLimits()
      reads this
    {
      fee as int <= MAX_FEE && tickSpacing as int <= MAX_TICK_SPACING
    }
  }

  /** The pool fields that the modelled instructions read or write. */
  class PoolState {
    var bump: uint8
    var token0: Pubkey
    var token1: Pubkey
    var fee: uint32
    var tickSpacing: uint16
    var feeProtocol: uint8
    var protocolFeesToken0: uint64
    var protocolFeesToken1: uint64
    var unlocked: bool
  }

  // ---------------------------------------------------------------------
  // Factory instructions

  /** `initialize`: records the bump and the first owner. */
  method Initialize(factoryState: FactoryState, owner: Pubkey, bump: uint8)
    returns (event: OwnerChangedEvent)
    modifies factoryState
    ensures factoryState.bump == bump && factoryState.owner == owner
    ensures event == OwnerChangedEvent(DEFAULT_PUBKEY, owner)
  {
    factoryState.bump := bump;
    factoryState.owner := owner;
    event := OwnerChangedEvent(DEFAULT_PUBKEY, owner);
  }

  /**
   * `enable_fee_amount`: rejects a fee above 100% first, then a tick spacing
   * above 16384, and otherwise stores the three arguments.
   */
  method EnableFeeAmount(feeState: FeeState, fee: uint32, tickSpacing: uint16, feeBump: uint8)
    returns (r: Result<FeeAmountEnabledEvent, ErrorCode>)
    modifies feeState
    ensures fee as int > MAX_FEE ==> r == Err(FeeLimit)
    ensures fee as int <= MAX_FEE && tickSpacing as int > MAX_TICK_SPACING ==> r == Err(TickSpacingLimit)
    ensures r.Err? ==> unchanged(feeState)
    ensures r.Ok? <==> fee as int <= MAX_FEE && tickSpacing as int <= MAX_TICK_SPACING
    ensures r.Ok? ==>
              feeState.bump == feeBump && feeState.fee == fee && feeState.tickSpacing == tickSpacing
              && r.value == FeeAmountEnabledEvent(fee, tickSpacing)
    ensures r.Ok? ==> feeState.WithinLimits()
  {
    if fee as int > MAX_FEE {
      return Err(FeeLimit);
    }
    if tickSpacing as int > MAX_TICK_SPACING {
      return Err(TickSpacingLimit);
    }
    feeState.bump := feeBump;
    feeState.fee := fee;
    feeState.tickSpacing := tickSpacing;
    return Ok(FeeAmountEnabledEvent(fee, tickSpacing));
  }

  /** `set_owner`: the new owner's key replaces the stored one. */
  method SetOwner(factoryState: FactoryState, owner: Pubkey, newOwner: Pubkey)
    returns (event: OwnerChangedEvent)
    modifies factoryState`owner
    ensures factoryState.owner == newOwner && factoryState.bump == old(factoryState.bump)
    ensures event == OwnerChangedEvent(owner, newOwner)
  {
    factoryState.owner := newOwner;
    event := OwnerChangedEvent(owner, newOwner);
  }

  // ---------------------------------------------------------------------
  // Protocol fee packing

  /** The values the source's comment allows: 0, or 1/N for 4 <= N <= 10. */
  predicate ValidProtocolFee(feeProtocol: uint8) {
    feeProtocol == 0 || (4 <= feeProtocol <= 10)
  }

  /**
   * `(fee_protocol_1 << 4) + fee_protocol_0` on `u8`: the shift drops the
   * high bits of `fee_protocol_1`, and the checked addition panics when the
   * sum leaves `u8`. For two 4-bit values the byte unpacks with `% 16` and
   * `>> 4` to the same pair.
   */
  function PackFeeProtocol(feeProtocol0: uint8, feeProtocol1: uint8): (r: Option<uint8>)
    ensures r.None? <==> (feeProtocol1 as int * 16) % 256 + feeProtocol0 as int > 255
    ensures feeProtocol0 <= 15 && feeProtocol1 <= 15 ==>
              r.Some? && r.value % 16 == feeProtocol0 && r.value / 16 == feeProtocol1
  {
    var shifted := (feeProtocol1 as int * 16) % 256;
    if shifted + feeProtocol0 as int > 255 then None
    else Some((shifted + feeProtocol0 as int) as uint8)
  }

  /**
   * Packing is not injective beyond four bits: `fee_protocol_1 = 16` stores
   * the same byte as `fee_protocol_1 = 0`.
   */
  lemma PackDropsHighBits()
    ensures PackFeeProtocol(0, 16) == PackFeeProtocol(0, 0) == Some(0)
  {
  }

  // ---------------------------------------------------------------------
  // Pool owner instructions

  /**
   * `set_fee_protocol`: under the pool lock, stores the packed pair and
   * reports the previous one. The range check only logs, and it logs when
   * both values are valid; it never rejects.
   */
  method SetFeeProtocol(poolState: PoolState, feeProtocol0: uint8, feeProtocol1: uint8)
    returns (r: Result<SetFeeProtocolOutcome, Failure>)
    modifies poolState
    ensures !old(poolState.unlocked) ==> r == Err(Code(Locked))
    ensures r.Err? ==> unchanged(poolState)
    ensures r.Ok? <==> old(poolState.unlocked) && PackFeeProtocol(feeProtocol0, feeProtocol1).Some?
    ensures old(poolState.unlocked) && r.Err? ==> r == Err(Panicked(ArithmeticOverflow))
    ensures r.Ok? ==>
              poolState.feeProtocol == PackFeeProtocol(feeProtocol0, feeProtocol1).value
              && poolState.unlocked
    ensures r.Ok? ==>
              r.value.event == SetFeeProtocolEvent(
                old(poolState.feeProtocol) % 16, old(poolState.feeProtocol) / 16,
                feeProtocol0, feeProtocol1)
    ensures r.Ok? ==>
              (r.value.loggedMessage <==> ValidProtocolFee(feeProtocol0) && ValidProtocolFee(feeProtocol1))
    ensures r.Ok? ==>
              poolState.protocolFeesToken0 == old(poolState.protocolFeesToken0)
              && poolState.protocolFeesToken1 == old(poolState.protocolFeesToken1)
              && poolState.fee == old(poolState.fee) && poolState.tickSpacing == old(poolState.tickSpacing)
              && poolState.bump == old(poolState.bump)
              && poolState.token0 == old(poolState.token0) && poolState.token1 == old(poolState.token1)
  {
    if !poolState.unlocked {
      return Err(Code(Locked));
    }
    poolState.unlocked := false;

    var loggedMessage :=
      (feeProtocol0 == 0 || (feeProtocol0 >= 4 && feeProtocol0 <= 10))
      && (feeProtocol1 == 0 || (feeProtocol1 >= 4 && feeProtocol1 <= 10));

    var feeProtocolOld := poolState.feeProtocol;
    // `u8 << 4` drops the high bits; the following `+` is checked
    var shifted := (feeProtocol1 as int * 16) % 256;
    if shifted + feeProtocol0 as int > 255 {
      // the panic fails the transaction, so the lock write is discarded
      poolState.unlocked := true;
      return Err(Panicked(ArithmeticOverflow));
    }
    poolState.feeProtocol := (shifted + feeProtocol0 as int) as uint8;

    var event := SetFeeProtocolEvent(feeProtocolOld % 16, feeProtocolOld / 16, feeProtocol0, feeProtocol1);

    poolState.unlocked := true;
    return Ok(SetFeeProtocolOutcome(event, loggedMessage));
  }

  /**
   * The amount of one token that `collect_protocol` pays out: the request
   * capped at the accrued fees, minus one unit when the cap would empty the
   * balance. A positive balance therefore never reaches zero, and no
   * subtraction underflows.
   */
  function CollectedAmount(requested: uint64, accrued: uint64): (amount: uint64)
    ensures amount <= requested && amount <= accrued
    ensures requested < accrued ==> amount == requested
    ensures 0 < accrued <= requested ==> amount == accrued - 1
    ensures accrued == 0 ==> amount == 0
    ensures accrued > 0 ==> accrued - amount >= 1
  {
    var capped := if requested > accrued then accrued else requested;
    if capped > 0 && capped == accrued then capped - 1 else capped
  }

  /**
   * Once a balance is down to its last unit, collecting it pays nothing:
   * the unit stays in the pool whatever is requested.
   */
  lemma LastUnitStays(requested: uint64)
    ensures CollectedAmount(requested, 1) == 0
  {
  }

  /**
   * Two collections in a row never pay out more than the balance had, and
   * leave a positive balance positive.
   */
  lemma RepeatedCollection(first: uint64, second: uint64, accrued: uint64)
    requires accrued > 0
    ensures var rest := accrued - CollectedAmount(first, accrued);
            CollectedAmount(first, accrued) as int + CollectedAmount(second, rest) as int < accrued as int
  {
    var rest := accrued - CollectedAmount(first, accrued);
    assert rest >= 1;
    assert CollectedAmount(second, rest) < rest;
  }

  /**
   * `collect_protocol`: under the pool lock, pays out `CollectedAmount` of
   * each token independently and deducts it from that token's accrued
   * protocol fees.
   */
  method CollectProtocol(poolState: PoolState, amount0Requested: uint64, amount1Requested: uint64)
    returns (r: Result<CollectProtocolEvent, Failure>)
    modifies poolState
    ensures !old(poolState.unlocked) ==> r == Err(Code(Locked)) && unchanged(poolState)
    ensures r.Ok? <==> old(poolState.unlocked)
    ensures r.Ok? ==>
              r.value.amount0 == CollectedAmount(amount0Requested, old(poolState.protocolFeesToken0))
              && r.value.amount1 == CollectedAmount(amount1Requested, old(poolState.protocolFeesToken1))
    ensures r.Ok? ==>
              poolState.protocolFeesToken0 == old(poolState.protocolFeesToken0) - r.value.amount0
              && poolState.protocolFeesToken1 == old(poolState.protocolFeesToken1) - r.value.amount1
    ensures r.Ok? ==>
              poolState.unlocked && poolState.feeProtocol == old(poolState.feeProtocol)
              && poolState.fee == old(poolState.fee) && poolState.tickSpacing == old(poolState.tickSpacing)
              && poolState.bump == old(poolState.bump)
              && poolState.token0 == old(poolState.token0) && poolState.token1 == old(poolState.token1)
  {
    if !poolState.unlocked {
      return Err(Code(Locked));
    }
    poolState.unlocked := false;

    // the amounts paid out are MIN(requested, accrued)
    var amount0 := if amount0Requested > poolState.protocolFeesToken0 then poolState.protocolFeesToken0
                   else amount0Requested;
    var amount1 := if amount1Requested > poolState.protocolFeesToken1 then poolState.protocolFeesToken1
                   else amount1Requested;

    if amount0 > 0 {
      // one unit stays behind; `checked_sub(1)` cannot fail since amount0 > 0
      if amount0 == poolState.protocolFeesToken0 {
        amount0 := amount0 - 1;
      }
      // `checked_sub` cannot fail since amount0 <= the accrued fees
      poolState.protocolFeesToken0 := poolState.protocolFeesToken0 - amount0;
    }
    if amount1 > 0 {
      if amount1 == poolState.protocolFeesToken1 {
        amount1 := amount1 - 1;
      }
      poolState.protocolFeesToken1 := poolState.protocolFeesToken1 - amount1;
    }

    poolState.unlocked := true;
    return Ok(CollectProtocolEvent(amount0, amount1));
  }
}
