/** Unsigned C++ integer types and the two bit operators the colour
    constructor uses (`&` and `>>`), stated on non-negative integers. */
module Bits {

  type uint8 = x: int | 0 <= x < 0x100
  type uint16 = x: int | 0 <= x < 0x1_0000
  type uint32 = x: int | 0 <= x < 0x1_0000_0000
  /** C++ `int` on the platforms the client targets. */
  type int32 = x: int | -0x8000_0000 <= x < 0x8000_0000

  function Pow2(k: nat): (p: nat)
    ensures p >= 1
  {
    if k == 0 then 1 else 2 * Pow2(k - 1)
  }

  /** Bitwise AND of two non-negative integers, one bit at a time from the
      least significant end. */
  function And(x: nat, y: nat): (r: nat)
    ensures r <= x && r <= y
    decreases x
  {
    if x == 0 || y == 0 then 0
    else 2 * And(x / 2, y / 2) + (if x % 2 == 1 && y % 2 == 1 then 1 else 0)
  }

  /** Logical right shift of an unsigned value, one bit at a time; shifting
      right by k bits is dividing by 2^k. */
  function Shr(x: nat, k: nat): (r: nat)
    ensures r == x / Pow2(k)
  {
    if k == 0 then x
    else
      LowBitSplit(x, k - 1);
      Shr(x / 2, k - 1)
  }

  /** The implicit narrowing of an unsigned value to `uint8`: keep the low
      eight bits. */
  function ToUint8(x: nat): (b: uint8)
    ensures x < 0x100 ==> b == x
  {
    x % 0x100
  }

  lemma MulAtLeast(a: int, d: nat)
    requires a >= 1
    ensures a * d >= d
  {}

  lemma MulMonotone(v: int, c: int, a: nat)
    requires v <= c
    ensures v * a <= c * a
  {}

  lemma MulSubDistr(q: int, q': int, d: int)
    ensures (q - q') * d == q * d - q' * d
  {}

  lemma MulAddDistr(u: int, b: int, v: int, a: int)
    ensures (u * b + v) * a == u * (a * b) + v * a
  {}

  lemma MulTwice(a: int, b: int)
    ensures a * (2 * b) == 2 * (a * b)
  {}

  /** Division with remainder has exactly one answer. */
  lemma DivModUnique(x: nat, d: nat, q: nat, r: nat)
    requires d > 0 && r < d && x == q * d + r
    ensures x / d == q && x % d == r
  {
    var q', r' := x / d, x % d;
    assert x == q' * d + r';
    MulSubDistr(q, q', d);
    MulSubDistr(q', q, d);
    if q' < q {
      MulAtLeast(q - q', d);
    } else if q' > q {
      MulAtLeast(q' - q, d);
    }
  }

  /** A digit below b, scaled by a, plus a remainder below a stays below a*b. */
  lemma MulRange(v: nat, a: nat, lo: nat, b: nat)
    requires v < b && lo < a
    ensures v * a + lo < a * b
  {
    MulMonotone(v, b - 1, a);
    MulSubDistr(b, 1, a);
  }

  /** Taking x modulo a*b splits into the digit x / a mod b, scaled by a,
      and the remainder x mod a; dividing by a*b is dividing by a, then by b. */
  lemma DigitSplit(x: nat, a: nat, b: nat)
    requires a > 0 && b > 0
    ensures x % (a * b) == (x / a % b) * a + x % a
    ensures x / (a * b) == x / a / b
  {
    var t, lo := x / a, x % a;
    var u, v := t / b, t % b;
    var ab := a * b;
    assert x == u * ab + (v * a + lo) by {
      assert x == t * a + lo;
      assert t == u * b + v;
      MulAddDistr(u, b, v, a);
    }
    assert v * a + lo < ab by {
      MulRange(v, a, lo, b);
    }
    DivModUnique(x, ab, u, v * a + lo);
  }

  /** Splitting off the lowest bit: x mod 2^(w+1) is twice (x/2) mod 2^w
      plus the low bit, and x / 2^(w+1) is (x/2) / 2^w. */
  lemma LowBitSplit(x: nat, w: nat)
    ensures x % Pow2(w + 1) == 2 * ((x / 2) % Pow2(w)) + x % 2
    ensures x / Pow2(w + 1) == (x / 2) / Pow2(w)
  {
    var p := Pow2(w);
    assert Pow2(w + 1) == 2 * p;
    DigitSplit(x, 2, p);
  }

  /** A mask of w one-bits keeps exactly the low w bits. */
  lemma {:induction false} AndLowMask(x: nat, w: nat)
    ensures And(x, Pow2(w) - 1) == x % Pow2(w)
  {
    if w == 0 {
      assert Pow2(0) == 1;
    } else if x == 0 {
      DivModUnique(0, Pow2(w), 0, 0);
    } else {
      var half, p := Pow2(w - 1), Pow2(w);
      assert p == 2 * half;
      var y := p - 1;
      var low := And(x / 2, half - 1);
      assert low == (x / 2) % half by {
        AndLowMask(x / 2, w - 1);
      }
      assert And(x, y) == 2 * low + x % 2 by {
        assert y / 2 == half - 1 && y % 2 == 1;
      }
      assert x % p == 2 * ((x / 2) % half) + x % 2 by {
        LowBitSplit(x, w - 1);
      }
    }
  }

  /** A block of w one-bits starting at bit k keeps bits k .. k+w-1 of x
      in place and clears all the others. */
  lemma {:induction false} AndBlockMask(x: nat, k: nat, w: nat)
    ensures And(x, (Pow2(w) - 1) * Pow2(k)) == (x / Pow2(k) % Pow2(w)) * Pow2(k)
  {
    var ones := Pow2(w) - 1;
    if k == 0 {
      AndLowMask(x, w);
    } else if w == 0 {
      assert ones * Pow2(k) == 0;
    } else if x == 0 {
      DivModUnique(0, Pow2(k), 0, 0);
    } else {
      var half, p := Pow2(k - 1), Pow2(k);
      assert p == 2 * half;
      var lower := ones * half;
      var y := ones * p;
      assert y == 2 * lower by {
        MulTwice(ones, half);
      }
      assert lower > 0 by {
        MulAtLeast(ones, half);
      }
      var m := x / p % Pow2(w);
      assert And(x / 2, lower) == m * half by {
        AndBlockMask(x / 2, k - 1, w);
        LowBitSplit(x, k - 1);
      }
      assert And(x, y) == 2 * And(x / 2, lower) by {
        assert y / 2 == lower && y % 2 == 0;
      }
      assert 2 * (m * half) == m * p by {
        MulTwice(m, half);
      }
    }
  }

  /** Masking with a block of w one-bits at bit k and shifting right by k
      yields the w-bit field of x that starts at bit k. */
  lemma ShrAndBlock(x: nat, k: nat, w: nat)
    ensures Shr(And(x, (Pow2(w) - 1) * Pow2(k)), k) == x / Pow2(k) % Pow2(w)
  {
    var field := x / Pow2(k) % Pow2(w);
    AndBlockMask(x, k, w);
    DivModUnique(field * Pow2(k), Pow2(k), field, 0);
  }
}
