/**
 * The tick-bitmap index of the concentrated-liquidity core: the codec that
 * turns a tick into a record key and an in-record bit position, the record
 * that stores 256 "initialized" flags as two 128-bit words, the flip that
 * toggles one flag, and the scan for the next initialized flag inside one
 * record.
 *
 * Everything is modelled as the Rust code evaluates it, including operator
 * precedence (`%` binds tighter than `^`), the direction of range
 * expressions, what `Bitmap::len` returns and where `u8` arithmetic panics.
 */
module TickBitmap {
  import opened Primitives

  // ---------------------------------------------------------------------
  // Tick codec

  /** Largest magnitude of `tick / spacing` that the codec accepts. */
  const MAX_TICK_DIV_SPACING: int := 429772

  /**
   * `get_tick_div_spacing`: `tick / spacing` after asserting that the
   * remainder is zero. Rust panics on a zero divisor, on the one quotient
   * that leaves `i32` (`i32::MIN % -1` already overflows) and on a nonzero
   * remainder.
   */
  function GetTickDivSpacing(tick: int32, spacing: int32): (r: Result<int32, Panic>)
    ensures r.Ok? <==>
              spacing != 0 && !(tick as int == INT32_MIN && spacing == -1)
              && (tick as int) % (spacing as int) == 0
    ensures r.Ok? ==> r.value as int * spacing as int == tick as int
    ensures r.Ok? ==> r.value as int == tick as int / spacing as int
    ensures spacing == 0 ==> r == Err(DivisionByZero)
    ensures spacing != 0 && r.Err? && (tick as int) % (spacing as int) != 0 ==>
              r == Err(AssertionFailed)
  {
    if spacing == 0 then
      Err(DivisionByZero)
    else if tick as int == INT32_MIN && spacing == -1 then
      Err(ArithmeticOverflow)
    else
      ExactDivision(tick as int, spacing as int);
      if TruncRem(tick as int, spacing as int) != 0 then
        Err(AssertionFailed)
      else
        QuotientFits(tick, spacing);
        Ok(TruncDiv(tick as int, spacing as int) as int32)
  }

  /** An exact truncating quotient stays in `i32` except for `i32::MIN / -1`. */
  lemma QuotientFits(tick: int32, spacing: int32)
    requires spacing != 0 && !(tick as int == INT32_MIN && spacing == -1)
    requires (tick as int) % (spacing as int) == 0
    ensures -0x8000_0000 <= TruncDiv(tick as int, spacing as int) < 0x8000_0000
  {
    var a, b := tick as int, spacing as int;
    ExactDivision(a, b);
    var t := TruncDiv(a, b);
    assert t * b == a;
    if b == 1 {
      assert t == a;
    } else if b == -1 {
      assert t == -a;
    } else {
      AbsOfProduct(t, b);
      assert Abs(t) * Abs(b) == Abs(a);
      MulMonotone(Abs(t), 2, Abs(b));
      assert Abs(t) * 2 <= 0x8000_0000;
    }
  }

  lemma MulMonotone(x: nat, y: nat, z: nat)
    requires y <= z
    ensures x * y <= x * z
  {
    assert x * z == x * y + x * (z - y);
  }

  /**
   * `get_word_and_bit_pos`, exactly as Rust parses it:
   * `((tds >> 8) % 2) ^ 15` for the word (negated for a negative input) and
   * `(tds.abs() % 2) ^ 8` for the bit. `>>` on `i32` is an arithmetic shift,
   * which rounds toward negative infinity like Dafny's `/` by a positive
   * divisor; `%` truncates toward zero; `^` acts on two's-complement bits.
   * The `as i16` and `as u8` casts never truncate: the conversions below are
   * checked. The result is characterised by parity alone: the bit position
   * is 8 or 9 and the word key takes one of four values.
   */
  function GetWordAndBitPos(tickDivSpacing: int32): (r: Result<(int16, uint8), Panic>)
    ensures r.Ok? <==> -MAX_TICK_DIV_SPACING <= tickDivSpacing as int <= MAX_TICK_DIV_SPACING
    ensures r.Err? ==> r.error == AssertionFailed
    ensures r.Ok? ==> r.value.1 as int == 8 + tickDivSpacing as int % 2
    ensures r.Ok? && tickDivSpacing >= 0 ==>
              r.value.0 as int == 15 - (tickDivSpacing as int / 256) % 2
    ensures r.Ok? && tickDivSpacing < 0 ==>
              r.value.0 as int == (if (tickDivSpacing as int / 256) % 2 == 0 then -15 else 16)
  {
    var tds := tickDivSpacing as int;
    if !(tds >= -MAX_TICK_DIV_SPACING && tds <= MAX_TICK_DIV_SPACING) then
      Err(AssertionFailed)
    else
      var shifted := tds / 256;
      var highParity := TruncRem(shifted, 2);
      TruncRemByTwo(shifted);
      XorParityWith15(highParity as int32);
      var wordPos := Xor32(highParity as int32, 15) as int as int16;
      var wordPos := if tickDivSpacing < 0 then -wordPos else wordPos;
      var lowParity := TruncRem(Abs(tds), 2);
      TruncRemByTwo(Abs(tds));
      AbsParity(tds);
      XorParityWith8(lowParity as int32);
      var bitPos := Xor32(lowParity as int32, 8) as int as uint8;
      Ok((wordPos, bitPos))
  }

  /** Rust's `x % 2` is 0 for even `x` and takes the sign of `x` otherwise. */
  lemma TruncRemByTwo(x: int)
    ensures TruncRem(x, 2) == (if x % 2 == 0 then 0 else if x >= 0 then 1 else -1)
  {
    TruncRemOfMagnitudes(x, 2);
    AbsParity(x);
  }

  lemma AbsParity(x: int)
    ensures Abs(x) % 2 == x % 2
  {
    if x < 0 {
      var y: int := Abs(x);
      var k := y / 2;
      assert y == 2 * k + y % 2;
      if y % 2 == 1 {
        assert x == 2 * (-k - 1) + 1;
      } else {
        assert x == 2 * (-k);
      }
    }
  }

  /** `m ^ 15` for the three values Rust's `% 2` can produce. */
  lemma XorParityWith15(m: int32)
    requires -1 <= m <= 1
    ensures Xor32(m, 15) == (if m == 0 then 15 else if m == 1 then 14 else -16)
  {
    Pow2Widths();
    if m == 0 {
      XorBitsZero(15, 32);
    } else if m == 1 {
      assert XorBits(1, 15, 32) == 2 * XorBits(0, 7, 31);
      Pow2Monotone(3, 31);
      XorBitsZero(7, 31);
    } else {
      AllOnesXor15();
    }
  }

  /** The pattern of -1 is 32 one bits; `^ 15` clears the low four. */
  lemma AllOnesXor15()
    ensures XorBits(0xFFFF_FFFF, 15, 32) == 0xFFFF_FFF0
  {
    XorBitsOnes(32, 4);
    Pow2Widths();
  }

  /** `m ^ 8` for the two values `abs() % 2` can produce. */
  lemma XorParityWith8(m: int32)
    requires 0 <= m <= 1
    ensures Xor32(m, 8) == 8 + m
  {
    Pow2Widths();
    if m == 0 {
      XorBitsZero(8, 32);
    } else {
      assert XorBits(1, 8, 32) == 2 * XorBits(0, 4, 31) + 1;
      Pow2Monotone(3, 31);
      XorBitsZero(4, 31);
    }
  }

  /**
   * The codec sends the whole accepted range into eight (word, bit) pairs:
   * word keys 14 and 15 for non-negative inputs, -15 and 16 for negative
   * ones, and bit positions 8 and 9 only.
   */
  lemma WordAndBitPosImage(tickDivSpacing: int32)
    requires -MAX_TICK_DIV_SPACING <= tickDivSpacing as int <= MAX_TICK_DIV_SPACING
    ensures GetWordAndBitPos(tickDivSpacing).Ok?
    ensures GetWordAndBitPos(tickDivSpacing).value.1 in {8, 9}
    ensures tickDivSpacing >= 0 ==> GetWordAndBitPos(tickDivSpacing).value.0 in {14, 15}
    ensures tickDivSpacing < 0 ==> GetWordAndBitPos(tickDivSpacing).value.0 in {-15, 16}
  {
  }

  /** Two different ticks land on the same record and the same bit. */
  lemma CodecCollision()
    ensures GetWordAndBitPos(0) == Ok((15, 8))
    ensures GetWordAndBitPos(2) == Ok((15, 8))
  {
    var atZero, atTwo := GetWordAndBitPos(0), GetWordAndBitPos(2);
    assert atZero.value.0 == 15 && atZero.value.1 == 8;
    assert atTwo.value.0 == 15 && atTwo.value.1 == 8;
  }

  /**
   * More generally, inside one 256-wide window every value shares its
   * (word, bit) pair with the value two above it.
   */
  lemma {:induction false} CodecCollidesWithinWindow(tickDivSpacing: int32)
    requires 0 <= tickDivSpacing as int && tickDivSpacing as int % 256 < 254
    requires tickDivSpacing as int + 2 <= MAX_TICK_DIV_SPACING
    ensures GetWordAndBitPos(tickDivSpacing) == GetWordAndBitPos(tickDivSpacing + 2)
  {
    var t := tickDivSpacing as int;
    assert (t + 2) / 256 == t / 256;
    assert (t + 2) % 2 == t % 2;
  }

  /**
   * The pair never reconstructs its input: `word_pos * 256 + bit_pos`
   * differs from `tick_div_spacing` for every accepted value.
   */
  lemma CodecNeverReconstructs(tickDivSpacing: int32)
    requires -MAX_TICK_DIV_SPACING <= tickDivSpacing as int <= MAX_TICK_DIV_SPACING
    ensures GetWordAndBitPos(tickDivSpacing).Ok?
    ensures var (wordPos, bitPos) := GetWordAndBitPos(tickDivSpacing).value;
            wordPos as int * 256 + bitPos as int != tickDivSpacing as int
  {
    var t := tickDivSpacing as int;
    var (wordPos, bitPos) := GetWordAndBitPos(tickDivSpacing).value;
    var w := wordPos as int;
    // the key sits in the bits above bit 7 of its own placement, but not of the input
    PlacementQuotient(w, bitPos as int);
    assert t / 256 != w by {
      if t >= 0 {
        assert w == 15 - (t / 256) % 2;
      } else {
        assert t / 256 < 0;
      }
    }
  }

  /** A value placed as `w * 256 + b` with `b` below 256 has quotient `w`. */
  lemma PlacementQuotient(w: int, b: int)
    requires 0 <= b < 256
    ensures (w * 256 + b) / 256 == w
  {
    var q := (w * 256 + b) / 256;
    var r := (w * 256 + b) % 256;
    assert (w - q) * 256 == r - b;
  }

  // ---------------------------------------------------------------------
  // The 256-bit record

  /** `[u128; 2]`: bits 0-127 live in word 0, bits 128-255 in word 1. */
  type Words = s: seq<uint128> | |s| == 2 witness [0, 0]

  /**
   * `Bitmap::<256>::from_value`: the 256 flags the two words hold, flag `i`
   * being bit `i % 128` of word `i / 128`.
   */
  function FromValue(words: Words): (bits: seq<bool>)
    ensures |bits| == 256
  {
    seq(256, i requires 0 <= i < 256 => BitOf(words[i / 128] as nat, i % 128))
  }

  /** `a ^ b` on `u128`. */
  function Xor128(a: uint128, b: uint128): uint128 {
    Pow2Widths();
    XorBits(a as nat, b as nat, 128) as uint128
  }

  /** `1 << k` on `u128`; `k < 128`, so no bit is shifted out. */
  function ShiftedOne(k: nat): uint128
    requires k < 128
  {
    Pow2Monotone(k, 128);
    Pow2Widths();
    Pow2(k) as uint128
  }

  /** The single-bit mask that `flip_tick` builds for a position. */
  function FlipMask(bitPos: uint8): Words {
    if bitPos < 128 then [ShiftedOne(bitPos as nat), 0] else [0, ShiftedOne(bitPos as nat - 128)]
  }

  /** The words after `flip_tick(bitPos)`: word-wise exclusive or with the mask. */
  function Flipped(words: Words, bitPos: uint8): Words {
    var mask := FlipMask(bitPos);
    [Xor128(words[0], mask[0]), Xor128(words[1], mask[1])]
  }

  /**
   * Flipping position `b` toggles flag `b` of the decoded bitmap and leaves
   * the other 255 flags as they were.
   */
  lemma FlipToggles(words: Words, bitPos: uint8)
    ensures FromValue(Flipped(words, bitPos))
            == FromValue(words)[bitPos as int := !FromValue(words)[bitPos]]
  {
    var before, after := FromValue(words), FromValue(Flipped(words, bitPos));
    var b := bitPos as int;
    var mask := FlipMask(bitPos);
    forall i | 0 <= i < 256
      ensures after[i] == (if i == b then !before[i] else before[i])
    {
      var h, j := i / 128, i % 128;
      XorBitsBit(words[h] as nat, mask[h] as nat, 128, j);
      if h == b / 128 {
        Pow2Bit(b % 128, j);
      } else {
        BitOfZero(j);
      }
    }
  }

  /** Flipping the same position twice restores the words. */
  lemma FlipInvolution(words: Words, bitPos: uint8)
    ensures Flipped(Flipped(words, bitPos), bitPos) == words
  {
    var mask := FlipMask(bitPos);
    Pow2Widths();
    XorBitsTwice(words[0] as nat, mask[0] as nat, 128);
    XorBitsTwice(words[1] as nat, mask[1] as nat, 128);
  }

  /** `2^127`, the top bit of a `u128`. */
  const TOP_BIT: uint128 := 0x8000_0000_0000_0000_0000_0000_0000_0000

  /**
   * The four unit tests of the source: starting from `[0, 0]`, flipping 0,
   * 127, 128 and 255 sets exactly the expected word bit, and flipping again
   * clears it.
   */
  lemma FlipScenarios()
    ensures Flipped([0, 0], 0) == [1, 0] && Flipped([1, 0], 0) == [0, 0]
    ensures Flipped([0, 0], 127) == [TOP_BIT, 0] && Flipped([TOP_BIT, 0], 127) == [0, 0]
    ensures Flipped([0, 0], 128) == [0, 1] && Flipped([0, 1], 128) == [0, 0]
    ensures Flipped([0, 0], 255) == [0, TOP_BIT] && Flipped([0, TOP_BIT], 255) == [0, 0]
  {
    Pow2Widths();
    Pow2Add(127, 1);
    assert ShiftedOne(0) == 1 && ShiftedOne(127) == TOP_BIT;
    XorBitsZero(1, 128);
    XorBitsZero(TOP_BIT as nat, 128);
    XorBitsZero(0, 128);
    XorBitsTwice(0, 1, 128);
    XorBitsTwice(0, TOP_BIT as nat, 128);
  }

  /** The all-zero record decodes to 256 clear flags. */
  lemma ZeroWordsAllClear()
    ensures forall i :: 0 <= i < 256 ==> !FromValue([0, 0])[i]
  {
    forall i | 0 <= i < 256 ensures !FromValue([0, 0])[i] {
      BitOfZero(i % 128);
    }
  }

  // ---------------------------------------------------------------------
  // Next initialized tick within one record

  /** `Bitmap::len`: the number of set flags. */
  function PopCount(bits: seq<bool>): (n: nat)
    ensures n <= |bits|
    ensures n == 0 <==> forall i :: 0 <= i < |bits| ==> !bits[i]
    ensures n == |bits| <==> forall i :: 0 <= i < |bits| ==> bits[i]
  {
    if bits == [] then 0
    else
      var last := |bits| - 1;
      assert forall i :: 0 <= i < last ==> bits[..last][i] == bits[i];
      PopCount(bits[..last]) + (if bits[last] then 1 else 0)
  }

  /** Toggling one flag moves the count by exactly one. */
  lemma {:induction false} PopCountToggle(bits: seq<bool>, k: nat)
    requires k < |bits|
    ensures PopCount(bits[k := !bits[k]]) == if bits[k] then PopCount(bits) - 1 else PopCount(bits) + 1
  {
    var last := |bits| - 1;
    var toggled := bits[k := !bits[k]];
    if k == last {
      assert toggled[..last] == bits[..last];
    } else {
      assert toggled[..last] == bits[..last][k := !bits[k]];
      PopCountToggle(bits[..last], k);
    }
  }

  /** `bitmap.len() as u8`: the count truncated to eight bits (256 becomes 0). */
  function LenAsU8(bits: seq<bool>): uint8 {
    (PopCount(bits) % 256) as uint8
  }

  /**
   * The first set flag among `lo .. hi` (Rust's half-open `lo..hi`, empty
   * when `lo >= hi`), if any.
   */
  function FirstSetIn(bits: seq<bool>, lo: nat, hi: nat): (r: Option<nat>)
    requires hi <= |bits|
    decreases hi as int - lo as int
    ensures r.Some? ==>
              lo <= r.value < hi && bits[r.value]
              && forall j :: lo <= j < r.value ==> !bits[j]
    ensures r.None? ==> forall j :: lo <= j < hi ==> !bits[j]
  {
    if lo >= hi then None
    else if bits[lo] then Some(lo)
    else FirstSetIn(bits, lo + 1, hi)
  }

  /**
   * The result of `next_initialized_tick_within_one_word` on decoded flags.
   * Leftward (`lte`), the loop runs over `current_bit_pos..=0`, an ascending
   * range that is empty unless the start is 0, so the answer is always
   * position 0. Rightward, `current_bit_pos + 1` overflows at 255, the scan
   * stops below `len() as u8` (the truncated set-flag count, not 256), and
   * without a hit the answer `len() as u8 - 1` underflows when that is 0.
   */
  function SearchWithinWord(bits: seq<bool>, current: uint8, lte: bool): (r: Result<(uint8, bool), Panic>)
    requires |bits| == 256
    ensures lte ==> r == Ok((0, current == 0 && bits[0]))
    ensures !lte && current == 255 ==> r == Err(ArithmeticOverflow)
    ensures !lte && r.Ok? && r.value.1 ==>
              current < r.value.0 < LenAsU8(bits) && bits[r.value.0]
              && forall j :: current as int < j < r.value.0 as int ==> !bits[j]
    ensures !lte && current < 255 && (forall j :: current as int < j < LenAsU8(bits) as int ==> !bits[j]) ==>
              r == if LenAsU8(bits) == 0 then Err(ArithmeticOverflow) else Ok((LenAsU8(bits) - 1, false))
    ensures !lte && current < 255 && (exists j :: current as int < j < LenAsU8(bits) as int && bits[j]) ==>
              r.Ok? && r.value.1
  {
    if lte then
      match FirstSetIn(bits, current as nat, 1)
      case Some(i) => Ok((i as uint8, true))
      case None => Ok((0, false))
    else if current == 255 then
      Err(ArithmeticOverflow)
    else
      var len := LenAsU8(bits);
      match FirstSetIn(bits, current as nat + 1, len as nat)
      case Some(i) => Ok((i as uint8, true))
      case None => if len == 0 then Err(ArithmeticOverflow) else Ok((len - 1, false))
  }

  /**
   * The leftward search misses every set flag but flag 0: from a set
   * position `b > 0` it reports `(0, false)`.
   */
  lemma LeftSearchMissesSetFlag(bits: seq<bool>, b: uint8)
    requires |bits| == 256 && 0 < b && bits[b]
    ensures SearchWithinWord(bits, b, true) == Ok((0, false))
  {
  }

  /** On an all-clear record every rightward search panics. */
  lemma RightSearchOnEmptyRecordPanics(bits: seq<bool>, current: uint8)
    requires |bits| == 256 && forall i :: 0 <= i < 256 ==> !bits[i]
    ensures SearchWithinWord(bits, current, false) == Err(ArithmeticOverflow)
  {
  }

  /** On a full record the count truncates to 0 and every rightward search panics. */
  lemma RightSearchOnFullRecordPanics(bits: seq<bool>, current: uint8)
    requires |bits| == 256 && forall i :: 0 <= i < 256 ==> bits[i]
    ensures SearchWithinWord(bits, current, false) == Err(ArithmeticOverflow)
  {
  }

  /**
   * A record holding one initialized tick never reports it to the right:
   * the scan bound is 1, so the answer is `(0, false)` wherever the tick is.
   */
  lemma RightSearchNeverFindsLoneTick(bits: seq<bool>, current: uint8)
    requires |bits| == 256 && PopCount(bits) == 1 && current < 255
    ensures SearchWithinWord(bits, current, false) == Ok((0, false))
  {
  }

  /**
   * Hence, on a record created by `default()` and flipped once, the
   * rightward search never finds the flipped tick.
   */
  lemma FreshRecordFlipNotFound(bitPos: uint8, current: uint8)
    requires current < 255
    ensures FromValue(Flipped([0, 0], bitPos))[bitPos]
    ensures SearchWithinWord(FromValue(Flipped([0, 0], bitPos)), current, false) == Ok((0, false))
  {
    FlipToggles([0, 0], bitPos);
    ZeroWordsAllClear();
    PopCountToggle(FromValue([0, 0]), bitPos as nat);
    RightSearchNeverFindsLoneTick(FromValue(Flipped([0, 0], bitPos)), current);
  }

  // ---------------------------------------------------------------------
  // The persisted record

  /**
   * `TickBitmapState`: the account holding one 256-tick window of a pool.
   * The keys and `left_16_bits_of_tick` identify the record; only `bitmap`
   * is ever updated.
   */
  class TickBitmapState {
    var bump: uint8
    var token0: Pubkey
    var token1: Pubkey
    var fee: Pubkey
    var left16BitsOfTick: uint16
    var bitmap: Words

    /** `TickBitmapState::default()`. */
    constructor Default()
      ensures bump == 0 && token0 == DEFAULT_PUBKEY && token1 == DEFAULT_PUBKEY
      ensures fee == DEFAULT_PUBKEY && left16BitsOfTick == 0
      ensures bitmap == [0, 0]
      ensures forall i :: 0 <= i < 256 ==> !DecodeBitmap()[i]
    {
      bump := 0;
      token0, token1, fee := DEFAULT_PUBKEY, DEFAULT_PUBKEY, DEFAULT_PUBKEY;
      left16BitsOfTick := 0;
      bitmap := [0, 0];
      ZeroWordsAllClear();
    }

    /** `decode_bitmap`: the 256 flags of the record. */
    function DecodeBitmap(): (bits: seq<bool>)
      reads this
      ensures |bits| == 256
      ensures forall i :: 0 <= i < 128 ==> bits[i] == BitOf(bitmap[0] as nat, i)
      ensures forall i :: 128 <= i < 256 ==> bits[i] == BitOf(bitmap[1] as nat, i - 128)
    {
      FromValue(bitmap)
    }

    /**
     * `flip_tick`: toggles flag `bitPos` and nothing else; the identifying
     * fields are untouched.
     */
    method FlipTick(bitPos: uint8)
      modifies this`bitmap
      ensures bitmap == Flipped(old(bitmap), bitPos)
      ensures DecodeBitmap() == old(DecodeBitmap())[bitPos as int := !old(DecodeBitmap())[bitPos]]
      ensures bump == old(bump) && token0 == old(token0) && token1 == old(token1)
      ensures fee == old(fee) && left16BitsOfTick == old(left16BitsOfTick)
    {
      var mask: Words := if bitPos < 128 then [ShiftedOne(bitPos as nat), 0]
                         else [0, ShiftedOne(bitPos as nat - 128)];
      bitmap := [Xor128(bitmap[0], mask[0]), Xor128(bitmap[1], mask[1])];
      FlipToggles(old(bitmap), bitPos);
    }

    /**
     * `next_initialized_tick_within_one_word`: the two `for` loops with early
     * returns, over the decoded flags. Reads the record and changes nothing.
     */
    method NextInitializedTickWithinOneWord(currentBitPos: uint8, lte: bool)
      returns (r: Result<(uint8, bool), Panic>)
      ensures r == SearchWithinWord(DecodeBitmap(), currentBitPos, lte)
    {
      var bitmap := DecodeBitmap();
      if lte {
        // `current_bit_pos..=0` counts upward from the start
        var i: nat := currentBitPos as nat;
        while i <= 0
          invariant currentBitPos as nat <= i && (i <= 1 || i == currentBitPos as nat)
          invariant FirstSetIn(bitmap, currentBitPos as nat, 1) == FirstSetIn(bitmap, i, 1)
          decreases 1 - i
        {
          if bitmap[i] {
            return Ok((i as uint8, true));
          }
          i := i + 1;
        }
        return Ok((0, false));
      } else {
        if currentBitPos == 255 {
          // `current_bit_pos + 1` overflows `u8`
          return Err(ArithmeticOverflow);
        }
        var len := (PopCount(bitmap) % 256) as uint8;
        var i: nat := currentBitPos as nat + 1;
        while i < len as nat
          invariant currentBitPos as nat + 1 <= i && (i <= len as nat || i == currentBitPos as nat + 1)
          invariant FirstSetIn(bitmap, currentBitPos as nat + 1, len as nat) == FirstSetIn(bitmap, i, len as nat)
        {
          if bitmap[i] {
            return Ok((i as uint8, true));
          }
          i := i + 1;
        }
        if len == 0 {
          // `bitmap.len() as u8 - 1` underflows `u8`
          return Err(ArithmeticOverflow);
        }
        return Ok((len - 1, false));
      }
    }
  }
}
