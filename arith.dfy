/** Machine integers and facts about integer multiplication, division and
    remainder used by the scalar-field, root-of-unity, XOR and trailing-zero
    reasoning. */
module Arith {

  /** One more than the largest `u64`; `usize` is 64 bits wide on the target. */
  const U64_LIMIT: int := 0x1_0000_0000_0000_0000

  /** A `u64` or a `usize`. */
  type U64 = x: int | 0 <= x < U64_LIMIT

  function Pow2(n: nat): (p: nat)
    ensures p >= 1
  {
    if n == 0 then 1 else 2 * Pow2(n - 1)
  }

  lemma MulNonneg(a: int, b: int)
    requires a >= 0 && b >= 0
    ensures a * b >= 0
  {
  }

  lemma MulMonotone(a: int, b: int, c: int)
    requires 0 <= a <= b && c >= 0
    ensures a * c <= b * c
  {
    assert b * c == a * c + (b - a) * c;
    MulNonneg(b - a, c);
  }

  lemma MulBound(d: int, q: int)
    requires q > 0 && d != 0
    ensures d * q >= q || d * q <= -q
  {
    if d > 0 {
      assert d * q == (d - 1) * q + q;
      MulNonneg(d - 1, q);
    } else {
      assert d * q == -((-d - 1) * q) - q;
      MulNonneg(-d - 1, q);
    }
  }

  /** Quotient and remainder are determined by n == t·q + m with 0 <= m < q. */
  lemma ModUnique(n: int, q: int, t: int, m: int)
    requires q > 0 && 0 <= m < q && n == t * q + m
    ensures n % q == m && n / q == t
  {
    var t', m' := n / q, n % q;
    assert (t - t') * q == m' - m;
    if t != t' { MulBound(t - t', q); }
  }

  lemma ModShift(x: int, k: int, q: int)
    requires q > 0
    ensures (x + k * q) % q == x % q
  {
    var d := x / q;
    assert x + k * q == (d + k) * q + x % q;
    ModUnique(x + k * q, q, d + k, x % q);
  }

  lemma ModAddLeft(a: int, b: int, q: int)
    requires q > 0
    ensures (a % q + b) % q == (a + b) % q
  {
    var k := a / q;
    assert a + b == (a % q + b) + k * q;
    ModShift(a % q + b, k, q);
  }

  lemma ModAddRight(a: int, b: int, q: int)
    requires q > 0
    ensures (a + b % q) % q == (a + b) % q
  {
    ModAddLeft(b, a, q);
    assert a + b % q == b % q + a;
  }

  lemma Pow2Byte(n: nat)
    ensures Pow2(n + 8) == 256 * Pow2(n)
  {
    assert Pow2(n + 8) == 2 * Pow2(n + 7);
    assert Pow2(n + 7) == 2 * Pow2(n + 6);
    assert Pow2(n + 6) == 2 * Pow2(n + 5);
    assert Pow2(n + 5) == 2 * Pow2(n + 4);
    assert Pow2(n + 4) == 2 * Pow2(n + 3);
    assert Pow2(n + 3) == 2 * Pow2(n + 2);
    assert Pow2(n + 2) == 2 * Pow2(n + 1);
  }

  lemma Pow2Width()
    ensures Pow2(64) == U64_LIMIT
  {
    Pow2Byte(0);
    assert Pow2(8) == 0x100;
    Pow2Byte(8);
    assert Pow2(16) == 0x1_0000;
    Pow2Byte(16);
    assert Pow2(24) == 0x100_0000;
    Pow2Byte(24);
    assert Pow2(32) == 0x1_0000_0000;
    Pow2Byte(32);
    assert Pow2(40) == 0x100_0000_0000;
    Pow2Byte(40);
    assert Pow2(48) == 0x1_0000_0000_0000;
    Pow2Byte(48);
    assert Pow2(56) == 0x100_0000_0000_0000;
    Pow2Byte(56);
  }

  /** Binary digit i of n. */
  function Bit(n: nat, i: nat): nat
  {
    if i == 0 then n % 2 else Bit(n / 2, i - 1)
  }

  /** Exclusive or of naturals, built up from the lowest binary digit. */
  function Xor(a: nat, b: nat): nat
    decreases a + b
  {
    if a == 0 && b == 0 then 0 else 2 * Xor(a / 2, b / 2) + (if a % 2 == b % 2 then 0 else 1)
  }

  lemma XorDigits(a: nat, b: nat)
    ensures Xor(a, b) % 2 == (if a % 2 == b % 2 then 0 else 1)
    ensures Xor(a, b) / 2 == Xor(a / 2, b / 2)
  {
  }

  /** Every binary digit of Xor(a, b) is set exactly when the digits of a and b differ. */
  lemma {:induction false} XorIsBitwise(a: nat, b: nat, i: nat)
    ensures Bit(Xor(a, b), i) == if Bit(a, i) == Bit(b, i) then 0 else 1
    decreases i
  {
    XorDigits(a, b);
    if i > 0 {
      XorIsBitwise(a / 2, b / 2, i - 1);
    }
  }

  lemma {:induction false} XorBound(a: nat, b: nat, n: nat)
    requires a < Pow2(n) && b < Pow2(n)
    ensures Xor(a, b) < Pow2(n)
    decreases n
  {
    if n > 0 && !(a == 0 && b == 0) {
      XorBound(a / 2, b / 2, n - 1);
    }
  }

  /** `^` on `u64`. */
  function Xor64(a: U64, b: U64): (r: U64)
    ensures r == Xor(a, b)
  {
    Pow2Width();
    XorBound(a, b, 64);
    Xor(a, b)
  }

  lemma {:induction false} XorCommutes(a: nat, b: nat)
    ensures Xor(a, b) == Xor(b, a)
    decreases a + b
  {
    if a + b > 0 {
      XorCommutes(a / 2, b / 2);
    }
  }

  lemma {:induction false} XorZero(a: nat)
    ensures Xor(0, a) == a
    decreases a
  {
    if a > 0 {
      XorZero(a / 2);
    }
  }

  lemma {:induction false} XorSelf(a: nat)
    ensures Xor(a, a) == 0
    decreases a
  {
    if a > 0 {
      XorSelf(a / 2);
    }
  }

  lemma {:induction false} XorAssociates(a: nat, b: nat, c: nat)
    ensures Xor(Xor(a, b), c) == Xor(a, Xor(b, c))
    decreases a + b + c
  {
    if a + b + c > 0 {
      XorDigits(a, b);
      XorDigits(b, c);
      XorDigits(Xor(a, b), c);
      XorDigits(a, Xor(b, c));
      XorAssociates(a / 2, b / 2, c / 2);
    }
  }
}
