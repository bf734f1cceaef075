/** Unsigned integers as Rust's fixed-width types see them, and the bitwise
    operations the decoder performs on them (`|`, `&`, `<<`, `>>`), written on
    natural numbers so that the decoder's arithmetic can be followed bit by bit. */
module Bits {

  type Byte = b: int | 0 <= b < 0x100
  type U32 = x: int | 0 <= x < 0x1_0000_0000
  type I32 = x: int | -0x8000_0000 <= x < 0x8000_0000

  const U32_LIMIT: nat := 0x1_0000_0000

  function Pow2(n: nat): (r: nat)
    ensures r >= 1
  {
    if n == 0 then 1 else 2 * Pow2(n - 1)
  }

  /** Bit `i` (0 is the least significant) of `x`. */
  function Bit(x: nat, i: nat): (b: nat)
    ensures b < 2
  {
    if i == 0 then x % 2 else Bit(x / 2, i - 1)
  }

  /** `a | b` */
  function Or(a: nat, b: nat): nat
    decreases a + b
  {
    if a == 0 then b
    else if b == 0 then a
    else 2 * Or(a / 2, b / 2) + (if a % 2 == 1 || b % 2 == 1 then 1 else 0)
  }

  /** `a & b` */
  function And(a: nat, b: nat): nat
    decreases a + b
  {
    if a == 0 || b == 0 then 0
    else 2 * And(a / 2, b / 2) + (if a % 2 == 1 && b % 2 == 1 then 1 else 0)
  }

  /** `x >> s` */
  function Shr(x: nat, s: nat): nat
  {
    if s == 0 then x else Shr(x / 2, s - 1)
  }

  /** `x << s`, before any truncation to a width. */
  function Shl(x: nat, s: nat): nat
  {
    if s == 0 then x else 2 * Shl(x, s - 1)
  }

  /** The low `n` bits of `x`, `x % (1 << n)`. */
  function Low(x: nat, n: nat): nat
  {
    if n == 0 then 0 else 2 * Low(x / 2, n - 1) + x % 2
  }

  /** Truncation to a `u32`: what `<<` on a `u32` keeps. */
  function Wrap32(x: nat): U32
  {
    x % U32_LIMIT
  }

  /** The number of bits needed to write `x`: the least `n` with `x < 2^n`. */
  function BitLength(x: nat): nat
  {
    if x == 0 then 0 else 1 + BitLength(x / 2)
  }

  // ---------------------------------------------------------------------
  // Arithmetic facts

  lemma Pow2Add(a: nat, b: nat)
    ensures Pow2(a + b) == Pow2(a) * Pow2(b)
  {
    if a > 0 {
      Pow2Add(a - 1, b);
    }
  }

  /** A number below `2^m`, shifted up by `n`, is below `2^(m + n)`. */
  lemma ShiftedBound(v: nat, m: nat, n: nat)
    requires v < Pow2(m)
    ensures v * Pow2(n) < Pow2(m + n)
  {
    Pow2Add(m, n);
    MulMono(Pow2(n), v, Pow2(m) - 1);
    assert Pow2(n) * (Pow2(m) - 1) == Pow2(m) * Pow2(n) - Pow2(n);
  }

  /** Doubling `x * 2^(s-1)` gives `x * 2^s`. */
  lemma MulDouble(x: nat, s: nat)
    requires s > 0
    ensures 2 * (x * Pow2(s - 1)) == x * Pow2(s)
  {
  }

  lemma Pow2Mono(a: nat, b: nat)
    requires a <= b
    ensures Pow2(a) <= Pow2(b)
  {
    if a < b {
      Pow2Mono(a, b - 1);
    }
  }

  lemma DivModUnique(x: int, d: int, q: int, r: int)
    requires d > 0 && 0 <= r < d && x == d * q + r
    ensures x / d == q && x % d == r
  {
    var q', r' := x / d, x % d;
    assert x == d * q' + r';
    if q' > q {
      assert d * q' >= d * (q + 1) by { MulMono(d, q + 1, q'); }
      assert false;
    } else if q' < q {
      assert d * q >= d * (q' + 1) by { MulMono(d, q' + 1, q); }
      assert false;
    }
  }

  lemma MulMono(d: int, a: int, b: int)
    requires d >= 0 && a <= b
    ensures d * a <= d * b
  {
    assert d * b - d * a == d * (b - a);
  }

  lemma DivDiv(x: nat, a: nat, b: nat)
    requires a > 0 && b > 0
    ensures x / a / b == x / (a * b)
    ensures x % (a * b) == a * ((x / a) % b) + x % a
  {
    var q, r := x / a, x % a;
    var q2, r2 := q / b, q % b;
    assert x == a * q + r;
    assert q == b * q2 + r2;
    assert x == (a * b) * q2 + (a * r2 + r) by {
      assert a * q == a * (b * q2) + a * r2;
      assert a * (b * q2) == (a * b) * q2;
    }
    assert a * r2 + r < a * b by {
      MulMono(a, r2, b - 1);
      assert a * (b - 1) == a * b - a;
    }
    DivModUnique(x, a * b, q2, a * r2 + r);
  }

  lemma {:induction false} ShlMul(x: nat, s: nat)
    ensures Shl(x, s) == x * Pow2(s)
  {
    if s > 0 {
      ShlMul(x, s - 1);
      assert x * Pow2(s) == 2 * (x * Pow2(s - 1));
    }
  }

  lemma {:induction false} LowMod(x: nat, n: nat)
    ensures Low(x, n) == x % Pow2(n)
  {
    if n > 0 {
      LowMod(x / 2, n - 1);
      DivDiv(x, 2, Pow2(n - 1));
    }
  }

  lemma Pow2Values()
    ensures Pow2(8) == 0x100 && Pow2(16) == 0x1_0000 && Pow2(32) == U32_LIMIT
  {
    assert Pow2(2) == 4;
    assert Pow2(4) == 16 by { Pow2Add(2, 2); }
    assert Pow2(8) == 0x100 by { Pow2Add(4, 4); }
    assert Pow2(16) == 0x1_0000 by { Pow2Add(8, 8); }
    assert Pow2(32) == 0x1_0000_0000 by { Pow2Add(16, 16); }
  }

  lemma HalfOf(y: nat, c: nat)
    requires c < 2
    ensures (2 * y + c) / 2 == y && (2 * y + c) % 2 == c
  {
    DivModUnique(2 * y + c, 2, y, c);
  }

  // ---------------------------------------------------------------------
  // Bits of the operations

  lemma BitZero(i: nat)
    ensures Bit(0, i) == 0
  {
    if i > 0 {
      BitZero(i - 1);
    }
  }

  lemma BitDouble(y: nat, c: nat, i: nat)
    requires c < 2
    ensures Bit(2 * y + c, i) == if i == 0 then c else Bit(y, i - 1)
  {
    HalfOf(y, c);
  }

  lemma {:induction false} BitOr(a: nat, b: nat, i: nat)
    ensures Bit(Or(a, b), i) == if Bit(a, i) == 1 || Bit(b, i) == 1 then 1 else 0
    decreases a + b
  {
    if a == 0 {
      BitZero(i);
    } else if b == 0 {
      BitZero(i);
    } else {
      var c := if a % 2 == 1 || b % 2 == 1 then 1 else 0;
      BitDouble(Or(a / 2, b / 2), c, i);
      if i > 0 {
        BitOr(a / 2, b / 2, i - 1);
      }
    }
  }

  lemma {:induction false} BitAnd(a: nat, b: nat, i: nat)
    ensures Bit(And(a, b), i) == if Bit(a, i) == 1 && Bit(b, i) == 1 then 1 else 0
    decreases a + b
  {
    if a == 0 || b == 0 {
      BitZero(i);
    } else {
      var c := if a % 2 == 1 && b % 2 == 1 then 1 else 0;
      BitDouble(And(a / 2, b / 2), c, i);
      if i > 0 {
        BitAnd(a / 2, b / 2, i - 1);
      }
    }
  }

  lemma {:induction false} OrBound(a: nat, b: nat, n: nat)
    requires a < Pow2(n) && b < Pow2(n)
    ensures Or(a, b) < Pow2(n)
    decreases a + b
  {
    if a != 0 && b != 0 {
      assert n > 0;
      OrBound(a / 2, b / 2, n - 1);
    }
  }

  /** `a | b` keeps every bit of both, so it is at least each. */
  lemma {:induction false} OrAtLeast(a: nat, b: nat)
    ensures a <= Or(a, b) && b <= Or(a, b)
    decreases a + b
  {
    if a != 0 && b != 0 {
      OrAtLeast(a / 2, b / 2);
    }
  }

  lemma {:induction false} OrComm(a: nat, b: nat)
    ensures Or(a, b) == Or(b, a)
    decreases a + b
  {
    if a != 0 && b != 0 {
      OrComm(a / 2, b / 2);
    }
  }

  lemma {:induction false} AndBound(a: nat, b: nat)
    ensures And(a, b) <= b
    decreases a + b
  {
    if a != 0 && b != 0 {
      AndBound(a / 2, b / 2);
    }
  }

  lemma {:induction false} BitShr(x: nat, s: nat, i: nat)
    ensures Bit(Shr(x, s), i) == Bit(x, i + s)
  {
    if s > 0 {
      BitShr(x / 2, s - 1, i);
    }
  }

  lemma {:induction false} BitMul(x: nat, s: nat, i: nat)
    ensures Bit(x * Pow2(s), i) == if i < s then 0 else Bit(x, i - s)
  {
    if s > 0 {
      assert x * Pow2(s) == 2 * (x * Pow2(s - 1)) + 0;
      BitDouble(x * Pow2(s - 1), 0, i);
      if i > 0 {
        BitMul(x, s - 1, i - 1);
      }
    }
  }

  lemma {:induction false} BitMod(x: nat, m: nat, i: nat)
    ensures Bit(x % Pow2(m), i) == if i < m then Bit(x, i) else 0
  {
    if m == 0 {
      BitZero(i);
    } else {
      DivDiv(x, 2, Pow2(m - 1));
      BitDouble((x / 2) % Pow2(m - 1), x % 2, i);
      if i > 0 {
        BitMod(x / 2, m - 1, i - 1);
      }
    }
  }

  lemma {:induction false} BitBelow(x: nat, n: nat, i: nat)
    requires x < Pow2(n) && n <= i
    ensures Bit(x, i) == 0
  {
    if i == 0 {
    } else if n == 0 {
      BitZero(i);
    } else {
      BitBelow(x / 2, n - 1, i - 1);
    }
  }

  /** Two numbers below `2^n` that agree on their low `n` bits are equal. */
  lemma {:induction false} BitsEqual(x: nat, y: nat, n: nat)
    requires x < Pow2(n) && y < Pow2(n)
    requires forall i :: 0 <= i < n ==> Bit(x, i) == Bit(y, i)
    ensures x == y
  {
    if n > 0 {
      assert Bit(x, 0) == Bit(y, 0);
      forall i | 0 <= i < n - 1
        ensures Bit(x / 2, i) == Bit(y / 2, i)
      {
        assert Bit(x, i + 1) == Bit(y, i + 1);
      }
      BitsEqual(x / 2, y / 2, n - 1);
    }
  }

  lemma {:induction false} BitOnes(n: nat, i: nat)
    ensures Bit(Pow2(n) - 1, i) == if i < n then 1 else 0
  {
    if n == 0 {
      BitZero(i);
    } else {
      assert Pow2(n) - 1 == 2 * (Pow2(n - 1) - 1) + 1;
      BitDouble(Pow2(n - 1) - 1, 1, i);
      if i > 0 {
        BitOnes(n - 1, i - 1);
      }
    }
  }

  /** `x & ((1 << n) - 1)` keeps the low `n` bits of `x`. */
  lemma AndMask(x: nat, n: nat)
    ensures And(x, Pow2(n) - 1) == x % Pow2(n)
  {
    forall i | 0 <= i < n
      ensures Bit(And(x, Pow2(n) - 1), i) == Bit(x % Pow2(n), i)
    {
      BitAnd(x, Pow2(n) - 1, i);
      BitOnes(n, i);
      BitMod(x, n, i);
    }
    AndBound(x, Pow2(n) - 1);
    BitsEqual(And(x, Pow2(n) - 1), x % Pow2(n), n);
  }

  /** An `|` of two numbers with no bit in common is their sum. */
  lemma {:induction false} OrDisjoint(a: nat, b: nat, s: nat)
    requires b < Pow2(s)
    ensures Or(a * Pow2(s), b) == a * Pow2(s) + b
    decreases s
  {
    if s > 0 && a != 0 && b != 0 {
      var y := a * Pow2(s);
      assert y == 2 * (a * Pow2(s - 1));
      HalfOf(a * Pow2(s - 1), 0);
      HalfOf(b / 2, b % 2);
      OrDisjoint(a, b / 2, s - 1);
    } else if s == 0 {
      assert b == 0;
    }
  }

  /** `BitLength(x)` is the least `n` with `x < 2^n`. */
  lemma {:induction false} BitLengthLeast(x: nat, n: nat)
    ensures x < Pow2(n) <==> BitLength(x) <= n
  {
    if x > 0 && n > 0 {
      BitLengthLeast(x / 2, n - 1);
    }
  }

  lemma BitLengthBounds(x: nat)
    ensures x < Pow2(BitLength(x))
    ensures x > 0 ==> Pow2(BitLength(x) - 1) <= x
  {
    BitLengthLeast(x, BitLength(x));
    if x > 0 {
      BitLengthLeast(x, BitLength(x) - 1);
    }
  }
}
