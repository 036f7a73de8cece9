/**
 * The fixed-width integers, panics and keys that the on-chain programs are
 * written with. Integers are Dafny's unbounded ones restricted by newtypes,
 * so every place where a Rust operation could leave its type is a proof
 * obligation here, and every place where Rust wraps, truncates or panics is
 * written out explicitly.
 */
module Primitives {

  newtype int32 = x: int | -0x8000_0000 <= x < 0x8000_0000
  newtype int16 = x: int | -0x8000 <= x < 0x8000
  newtype uint8 = x: int | 0 <= x < 0x100
  newtype uint16 = x: int | 0 <= x < 0x1_0000
  newtype uint32 = x: int | 0 <= x < 0x1_0000_0000
  newtype uint64 = x: int | 0 <= x < 0x1_0000_0000_0000_0000
  newtype uint128 = x: int | 0 <= x < 0x1_0000_0000_0000_0000_0000_0000_0000_0000

  const INT32_MIN: int := -0x8000_0000

  datatype Option<T> = None | Some(value: T)

  datatype Result<T, E> = Ok(value: T) | Err(error: E)

  /** Why a Rust computation aborts the running instruction. */
  datatype Panic =
    | AssertionFailed     // `assert!` / `assert_eq!` did not hold
    | ArithmeticOverflow  // checked integer arithmetic left its type
    | DivisionByZero      // `/` or `%` by zero

  /** A Solana account address. Its 32 bytes are never inspected by the model. */
  datatype Pubkey = Pubkey(bytes: seq<uint8>)

  /** `Pubkey::default()`, which is also the address of the system program. */
  const DEFAULT_PUBKEY: Pubkey := Pubkey(seq(32, _ => 0))

  function Abs(x: int): nat {
    if x < 0 then -x else x
  }

  /** Rust's `/` on signed integers: the quotient rounded toward zero. */
  function TruncDiv(a: int, b: int): int
    requires b != 0
  {
    var q := Abs(a) / Abs(b);
    if (a < 0) == (b < 0) then q else -q
  }

  /** Rust's `%` on signed integers: the remainder takes the sign of `a`. */
  function TruncRem(a: int, b: int): int
    requires b != 0
  {
    a - b * TruncDiv(a, b)
  }

  /**
   * Rust's truncating remainder and Dafny's Euclidean one agree on whether
   * `b` divides `a`, and when it does the two quotients coincide.
   */
  lemma ExactDivision(a: int, b: int)
    requires b != 0
    ensures (TruncRem(a, b) == 0) == (a % b == 0)
    ensures a % b == 0 ==> TruncDiv(a, b) * b == a && TruncDiv(a, b) == a / b
  {
    TruncRemOfMagnitudes(a, b);
    DividesMagnitudes(a, b);
    var t := TruncDiv(a, b);
    assert TruncRem(a, b) == a - b * t;
    if a % b == 0 {
      assert b * t == a;
      MultipleDivides(t, b);
      assert t * b == b * t;
    }
  }

  /** The truncating remainder is the remainder of the magnitudes, signed like `a`. */
  lemma TruncRemOfMagnitudes(a: int, b: int)
    requires b != 0
    ensures TruncRem(a, b) == (if a < 0 then -(Abs(a) % Abs(b)) else Abs(a) % Abs(b))
  {
    var q, r := Abs(a) / Abs(b), Abs(a) % Abs(b);
    assert Abs(a) == Abs(b) * q + r;
    if a >= 0 && b > 0 {
    } else if a >= 0 {
      assert TruncRem(a, b) == a + b * q;
    } else if b > 0 {
      assert TruncRem(a, b) == a + b * q;
    } else {
      assert TruncRem(a, b) == a - b * q;
    }
  }

  /** `b` divides `a` exactly when `|b|` divides `|a|`. */
  lemma DividesMagnitudes(a: int, b: int)
    requires b != 0
    ensures (a % b == 0) == (Abs(a) % Abs(b) == 0)
  {
    if a % b == 0 {
      DividesGivesMagnitudes(a, b);
    }
    if Abs(a) % Abs(b) == 0 {
      MagnitudesGiveDivides(a, b);
    }
  }

  lemma DividesGivesMagnitudes(a: int, b: int)
    requires b != 0 && a % b == 0
    ensures Abs(a) % Abs(b) == 0
  {
    var k := a / b;
    assert a == b * k;
    AbsOfProduct(b, k);
    MultipleDivides(Abs(k), Abs(b));
  }

  lemma MagnitudesGiveDivides(a: int, b: int)
    requires b != 0 && Abs(a) % Abs(b) == 0
    ensures a % b == 0
  {
    var k := Abs(a) / Abs(b);
    assert Abs(a) == Abs(b) * k;
    var t := if (a < 0) == (b < 0) then k else -k;
    AbsOfProduct(b, t);
    assert Abs(b * t) == Abs(a);
    assert (b * t < 0) == (a < 0) || a == 0;
    assert a == b * t;
    MultipleDivides(t, b);
  }

  lemma AbsOfProduct(x: int, y: int)
    ensures Abs(x * y) == Abs(x) * Abs(y)
  {
    if x < 0 && y >= 0 {
      assert x * y == -(Abs(x) * y);
    } else if x >= 0 && y < 0 {
      assert x * y == -(x * Abs(y));
    } else if x < 0 && y < 0 {
      assert x * y == Abs(x) * Abs(y);
    }
  }

  /** Dafny's `/` and `%` on an exact multiple. */
  lemma MultipleDivides(k: int, b: int)
    requires b != 0
    ensures (b * k) % b == 0 && (b * k) / b == k
  {
    var a := b * k;
    var q, r := a / b, a % b;
    assert a == b * q + r && 0 <= r < Abs(b);
    assert b * (k - q) == r;
    if k - q >= 1 {
      MulAtLeast(b, k - q);
    } else if k - q <= -1 {
      MulAtLeast(b, q - k);
    }
  }

  lemma MulAtLeast(b: int, m: int)
    requires m >= 1
    ensures Abs(b * m) >= Abs(b)
  {
    if b >= 0 {
      assert b * m == b + b * (m - 1);
    } else {
      assert -(b * m) == -b + (-b) * (m - 1);
    }
  }

  // ---------------------------------------------------------------------
  // Bits of non-negative numbers

  function Pow2(n: nat): (p: nat)
    ensures p >= 1
  {
    if n == 0 then 1 else 2 * Pow2(n - 1)
  }

  lemma {:induction false} Pow2Add(m: nat, n: nat)
    ensures Pow2(m + n) == Pow2(m) * Pow2(n)
  {
    if n > 0 {
      Pow2Add(m, n - 1);
      assert Pow2(m + n) == 2 * Pow2(m + n - 1);
    }
  }

  /** The powers of two that are the widths of Rust's integer types. */
  lemma Pow2Widths()
    ensures Pow2(8) == 0x100 && Pow2(16) == 0x1_0000 && Pow2(32) == 0x1_0000_0000
    ensures Pow2(128) == 0x1_0000_0000_0000_0000_0000_0000_0000_0000
    ensures Pow2(4) == 16 && Pow2(28) == 0x1000_0000
  {
    Pow2Upto32();
    Pow2Add(32, 32);
    assert Pow2(64) == 0x1_0000_0000_0000_0000;
    Pow2Add(64, 64);
  }

  lemma Pow2Upto32()
    ensures Pow2(4) == 16 && Pow2(8) == 0x100 && Pow2(12) == 0x1000 && Pow2(16) == 0x1_0000
    ensures Pow2(28) == 0x1000_0000 && Pow2(32) == 0x1_0000_0000
  {
    Pow2Upto16();
    Pow2Add(16, 12);
    Pow2Add(16, 16);
  }

  lemma Pow2Upto16()
    ensures Pow2(4) == 16 && Pow2(8) == 0x100 && Pow2(12) == 0x1000 && Pow2(16) == 0x1_0000
  {
    assert Pow2(4) == 16;
    Pow2Add(4, 4);
    Pow2Add(8, 4);
    Pow2Add(8, 8);
  }

  /** Bit `k` of `x`, counting from the least significant bit. */
  predicate BitOf(x: nat, k: nat) {
    if k == 0 then x % 2 == 1 else BitOf(x / 2, k - 1)
  }

  /** Exclusive or of the low `width` bits of `a` and `b`. */
  function XorBits(a: nat, b: nat, width: nat): (r: nat)
    ensures r < Pow2(width)
  {
    if width == 0 then 0
    else 2 * XorBits(a / 2, b / 2, width - 1) + (if a % 2 == b % 2 then 0 else 1)
  }

  /** One unfolding of `XorBits`: the low bit, then the rest shifted down. */
  lemma XorBitsStep(a: nat, b: nat, width: nat)
    requires width > 0
    ensures XorBits(a, b, width) == 2 * XorBits(a / 2, b / 2, width - 1) + (if a % 2 == b % 2 then 0 else 1)
  {
  }

  /** Below the width, each bit of the result is the exclusive or of the inputs' bits. */
  lemma {:induction false} XorBitsBit(a: nat, b: nat, width: nat, k: nat)
    requires k < width
    ensures BitOf(XorBits(a, b, width), k) == (BitOf(a, k) != BitOf(b, k))
  {
    var low := if a % 2 == b % 2 then 0 else 1;
    var r := XorBits(a, b, width);
    assert r == 2 * XorBits(a / 2, b / 2, width - 1) + low;
    assert r / 2 == XorBits(a / 2, b / 2, width - 1) && r % 2 == low;
    if k > 0 {
      XorBitsBit(a / 2, b / 2, width - 1, k - 1);
    }
  }

  /** `1 << k` has bit `k` and no other. */
  lemma {:induction false} Pow2Bit(k: nat, j: nat)
    ensures BitOf(Pow2(k), j) == (j == k)
  {
    if k == 0 {
      if j > 0 {
        BitOfZero(j - 1);
      }
    } else if j > 0 {
      assert Pow2(k) / 2 == Pow2(k - 1);
      Pow2Bit(k - 1, j - 1);
    }
  }

  lemma {:induction false} BitOfZero(j: nat)
    ensures !BitOf(0, j)
  {
    if j > 0 {
      BitOfZero(j - 1);
    }
  }

  lemma {:induction false} Pow2Monotone(k: nat, n: nat)
    requires k < n
    ensures Pow2(k) < Pow2(n)
  {
    if k < n - 1 {
      Pow2Monotone(k, n - 1);
    }
  }

  /** Numbers below `2^width` are determined by their low `width` bits. */
  lemma {:induction false} BitsDetermine(a: nat, b: nat, width: nat)
    requires a < Pow2(width) && b < Pow2(width)
    requires forall k :: 0 <= k < width ==> BitOf(a, k) == BitOf(b, k)
    ensures a == b
  {
    if width > 0 {
      assert BitOf(a, 0) == BitOf(b, 0);
      forall k | 0 <= k < width - 1
        ensures BitOf(a / 2, k) == BitOf(b / 2, k)
      {
        assert BitOf(a, k + 1) == BitOf(b, k + 1);
      }
      BitsDetermine(a / 2, b / 2, width - 1);
    }
  }

  /** Applying the same exclusive or twice is the identity within the width. */
  lemma XorBitsTwice(a: nat, b: nat, width: nat)
    requires a < Pow2(width)
    ensures XorBits(XorBits(a, b, width), b, width) == a
  {
    forall k | 0 <= k < width
      ensures BitOf(XorBits(XorBits(a, b, width), b, width), k) == BitOf(a, k)
    {
      XorBitsBit(XorBits(a, b, width), b, width, k);
      XorBitsBit(a, b, width, k);
    }
    BitsDetermine(XorBits(XorBits(a, b, width), b, width), a, width);
  }

  /** Exclusive or with zero is the identity within the width. */
  lemma XorBitsZero(a: nat, width: nat)
    requires a < Pow2(width)
    ensures XorBits(a, 0, width) == a && XorBits(0, a, width) == a
  {
    forall k | 0 <= k < width
      ensures BitOf(XorBits(a, 0, width), k) == BitOf(a, k)
      ensures BitOf(XorBits(0, a, width), k) == BitOf(a, k)
    {
      XorBitsBit(a, 0, width, k);
      XorBitsBit(0, a, width, k);
      BitOfZero(k);
    }
    BitsDetermine(XorBits(a, 0, width), a, width);
    BitsDetermine(XorBits(0, a, width), a, width);
  }

  /** `n` one bits with the low `m` of them cleared by an exclusive or. */
  lemma {:induction false} XorBitsOnes(n: nat, m: nat)
    requires m <= n
    ensures XorBits(Pow2(n) - 1, Pow2(m) - 1, n) == Pow2(n) - Pow2(m)
  {
    if m == 0 {
      XorBitsZero(Pow2(n) - 1, n);
    } else {
      XorBitsStep(Pow2(n) - 1, Pow2(m) - 1, n);
      assert (Pow2(n) - 1) / 2 == Pow2(n - 1) - 1;
      assert (Pow2(m) - 1) / 2 == Pow2(m - 1) - 1;
      XorBitsOnes(n - 1, m - 1);
    }
  }

  /** The two's-complement bit pattern of a 32-bit signed value. */
  function ToBits32(x: int32): nat {
    if x < 0 then x as int + 0x1_0000_0000 else x as int
  }

  /** Rust's `^` on `i32`: exclusive or of the two's-complement patterns. */
  function Xor32(a: int32, b: int32): int32 {
    var u := XorBits(ToBits32(a), ToBits32(b), 32);
    Pow2Widths();
    (if u < 0x8000_0000 then u else u - 0x1_0000_0000) as int32
  }
}
