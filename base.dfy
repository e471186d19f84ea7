/** Vocabulary shared by every module: optional values, panics, and the
    fixed-width integers of the Rust and C interfaces. */
module Base {

  datatype Option<+T> = None | Some(value: T)

  datatype Result<+T, +E> = Ok(value: T) | Err(error: E)

  /** The outcome of Rust code that may panic: either the value it returned,
      or a panic that unwinds to the nearest `catch_unwind` (or aborts). */
  datatype Unwind<+T> = Returned(value: T) | Panicked

  const U32_MAX: int := 0xFFFF_FFFF
  const I32_MIN: int := -0x8000_0000
  const I32_MAX: int := 0x7FFF_FFFF

  type u8 = x: int | 0 <= x < 0x100
  type u32 = x: int | 0 <= x <= 0xFFFF_FFFF
  type i32 = x: int | -0x8000_0000 <= x <= 0x7FFF_FFFF

  function Abs(x: int): nat
  {
    if x < 0 then -x else x
  }

  function Min(a: int, b: int): int
  {
    if a <= b then a else b
  }

  function Max(a: int, b: int): int
  {
    if a >= b then a else b
  }

  /** `x as i32` on a wider integer: keeps the low 32 bits, read as two's
      complement. */
  function AsI32(x: int): (r: i32)
    ensures (x - r) % 0x1_0000_0000 == 0
    ensures I32_MIN <= x <= I32_MAX ==> r == x
  {
    var m := x % 0x1_0000_0000;
    if m <= I32_MAX then m else m - 0x1_0000_0000
  }

  /** `usize::saturating_sub`: the difference, or 0 when it would be negative. */
  function SaturatingSub(a: nat, b: nat): (r: nat)
    ensures r + b >= a && r <= a
    ensures a >= b ==> r + b == a
  {
    if a >= b then a - b else 0
  }

  /** Integer division as Rust's `/` computes it: the quotient is rounded
      toward zero, so the remainder is zero or has the sign of the dividend
      (Dafny's own `/` is Euclidean). */
  function DivTrunc(a: int, b: int): (q: int)
    requires b != 0
    ensures Abs(a - q * b) < Abs(b)
    ensures a - q * b == 0 || (a - q * b < 0 <==> a < 0)
  {
    var q0 := Abs(a) / Abs(b);
    DivModFacts(Abs(a), Abs(b));
    if (a < 0) == (b < 0) then
      assert a - q0 * b == (if a < 0 then -(Abs(a) - q0 * Abs(b)) else Abs(a) - q0 * Abs(b));
      q0
    else
      assert a - (-q0) * b == (if a < 0 then -(Abs(a) - q0 * Abs(b)) else Abs(a) - q0 * Abs(b));
      -q0
  }

  lemma DivModFacts(a: nat, b: nat)
    requires b > 0
    ensures 0 <= a - (a / b) * b < b
  {
  }

  /** An exact multiple divides back exactly: `(k * b) / b == k`. */
  lemma DivTruncExact(k: int, b: int)
    requires b != 0
    ensures DivTrunc(k * b, b) == k
  {
    MulAbs(k, b);
    MulDivExact(Abs(k), Abs(b));
    if k > 0 {
      MulSign(k, b);
    } else if k < 0 {
      MulSign(-k, b);
      assert k * b == -((-k) * b);
    }
  }

  lemma MulAbs(x: int, y: int)
    ensures Abs(x * y) == Abs(x) * Abs(y)
  {
    if x < 0 && y >= 0 {
      assert x * y == -((-x) * y);
    } else if x >= 0 && y < 0 {
      assert x * y == -(x * (-y));
    } else if x < 0 && y < 0 {
      assert x * y == (-x) * (-y);
    }
  }

  /** A positive factor keeps the sign of the other. */
  lemma MulSign(x: int, y: int)
    requires x > 0
    ensures y > 0 ==> x * y > 0
    ensures y < 0 ==> x * y < 0
  {
    if y < 0 {
      assert x * y == -(x * (-y));
    }
  }

  lemma MulDivExact(x: nat, y: nat)
    requires y > 0
    ensures (x * y) / y == x
  {
    var q := (x * y) / y;
    DivModFacts(x * y, y);
    assert (x - q) * y == x * y - q * y;
    if q < x {
      MulNatAtLeast(x - q, y);
    }
  }

  lemma MulNatAtLeast(x: nat, y: nat)
    requires x >= 1
    ensures x * y >= y
  {
    var z: nat := x - 1;
    assert x * y == y + z * y;
  }

  /** A Unicode scalar value: a code point that is not a surrogate
      (Unicode Standard, definition D76). */
  predicate IsScalarValue(u: int)
  {
    0 <= u <= 0xD7FF || 0xE000 <= u <= 0x10_FFFF
  }

  /** `std::char::from_u32`: the character with that scalar value, if any. */
  function CharFromU32(u: u32): (r: Option<char>)
    ensures r.Some? <==> IsScalarValue(u)
    ensures r.Some? ==> r.value as int == u
  {
    if IsScalarValue(u) then Some(u as char) else None
  }

  /** Every character converts back from its own scalar value. */
  lemma CharFromU32OfChar(c: char)
    ensures IsScalarValue(c as int)
    ensures CharFromU32(c as int) == Some(c)
  {
  }
}
