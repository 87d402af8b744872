/** Fixed-width words as natural numbers: powers of two, single bits, and the C operators
    `&`, `|`, `^`, `~`, unary `-`, `<<`, `>>` and `ilog2` written out on `nat`.
    A word of width `w` is a number below `Pow2(w)`; every wrap-around is an explicit `%`. */
module Bits {

  const TWO31: nat := 0x8000_0000
  const TWO32: nat := 0x1_0000_0000
  const TWO63: nat := 0x8000_0000_0000_0000
  const TWO64: nat := 0x1_0000_0000_0000_0000

  function Pow2(k: nat): (p: nat)
    ensures p >= 1
  {
    if k == 0 then 1 else 2 * Pow2(k - 1)
  }

  function Bit(x: nat, i: nat): bool {
    if i == 0 then x % 2 == 1 else Bit(x / 2, i - 1)
  }

  function And(x: nat, y: nat): nat {
    if x == 0 || y == 0 then 0 else 2 * And(x / 2, y / 2) + (if x % 2 == 1 && y % 2 == 1 then 1 else 0)
  }

  function Or(x: nat, y: nat): nat {
    if x == 0 then y
    else if y == 0 then x
    else 2 * Or(x / 2, y / 2) + (if x % 2 == 1 || y % 2 == 1 then 1 else 0)
  }

  function Xor(x: nat, y: nat): nat {
    if x == 0 then y
    else if y == 0 then x
    else 2 * Xor(x / 2, y / 2) + (x % 2 + y % 2) % 2
  }

  /** `~x` on a word of width `w`. */
  function Not(w: nat, x: nat): nat
    requires x < Pow2(w)
  {
    Pow2(w) - 1 - x
  }

  /** `-x` on a word of width `w`. */
  function Neg(w: nat, x: nat): nat
    requires x < Pow2(w)
  {
    (Pow2(w) - x) % Pow2(w)
  }

  /** `x << k` on a word of width `w`. */
  function Shl(w: nat, x: nat, k: nat): nat {
    x * Pow2(k) % Pow2(w)
  }

  /** `x >> k`, logical. */
  function Shr(x: nat, k: nat): nat {
    Quotient(x, Pow2(k))
  }

  /** `ilog2`: the position of the highest set bit. */
  function Log2(x: nat): (k: nat)
    requires x > 0
    ensures Pow2(k) <= x < 2 * Pow2(k)
  {
    if x == 1 then 0 else 1 + Log2(x / 2)
  }

  /** The largest power of two that divides `x`. */
  function LowBit(x: nat): (l: nat)
    requires x > 0
    ensures 1 <= l <= x
  {
    if x % 2 == 1 then 1 else 2 * LowBit(x / 2)
  }

  predicate IsPow2(x: nat) {
    x > 0 && Pow2(Log2(x)) == x
  }

  /** `x / d` on unsigned words. */
  function Quotient(x: nat, d: nat): nat
    requires d > 0
  {
    x / d
  }

  // ---------- powers of two ----------

  lemma Pow2Values()
    ensures Pow2(7) == 128 && Pow2(8) == 256 && Pow2(9) == 512 && Pow2(31) == TWO31
    ensures Pow2(32) == TWO32 && Pow2(63) == TWO63 && Pow2(64) == TWO64
  {
    Pow2Small();
    Pow2Add(16, 16);
    Pow2Double(31);
    Pow2Add(32, 32);
    Pow2Double(63);
  }

  lemma Pow2Double(k: nat)
    ensures Pow2(k + 1) == 2 * Pow2(k)
  {
  }

  lemma Pow2Small()
    ensures Pow2(7) == 128 && Pow2(8) == 256 && Pow2(9) == 512 && Pow2(16) == 0x1_0000
  {
    assert Pow2(7) == 128;
    assert Pow2(8) == 2 * Pow2(7);
    assert Pow2(9) == 2 * Pow2(8);
    Pow2Add(8, 8);
  }

  lemma {:induction false} Pow2Add(a: nat, b: nat)
    ensures Pow2(a + b) == Pow2(a) * Pow2(b)
  {
    if a > 0 {
      Pow2Add(a - 1, b);
      assert Pow2(a + b) == 2 * Pow2(a - 1 + b);
    }
  }

  lemma {:induction false} Pow2Monotone(a: nat, b: nat)
    requires a <= b
    ensures Pow2(a) <= Pow2(b)
    ensures a < b ==> 2 * Pow2(a) <= Pow2(b)
  {
    if a < b { Pow2Monotone(a, b - 1); }
  }

  lemma Log2Unique(x: nat, k: nat)
    requires x > 0 && Pow2(k) <= x < 2 * Pow2(k)
    ensures Log2(x) == k
  {
    var j := Log2(x);
    if j < k { Pow2Monotone(j, k); }
    if k < j { Pow2Monotone(k, j); }
  }

  lemma Log2Pow2(k: nat)
    ensures Log2(Pow2(k)) == k
    ensures IsPow2(Pow2(k))
  {
    Log2Unique(Pow2(k), k);
  }

  // ---------- division on naturals ----------

  /** `q` and `r` are the quotient and the remainder when they look like it. */
  lemma MulDivMod(q: nat, d: nat, r: nat)
    requires r < d
    ensures (q * d + r) / d == q
    ensures (q * d + r) % d == r
  {
    DivUnique(q * d + r, d, q, r);
  }

  lemma DivMod(x: nat, d: nat) returns (q: nat, r: nat)
    requires d > 0
    ensures q == x / d && r == x % d
    ensures x == q * d + r && r < d
  {
    q, r := x / d, x % d;
  }

  lemma DivUnique(x: nat, d: nat, q: nat, r: nat)
    requires d > 0 && r < d && x == q * d + r
    ensures x / d == q && x % d == r
  {
    var q', r' := x / d, x % d;
    assert x == q' * d + r';
    assert (q - q') * d == r' - r;
    if q > q' { MulGe(q - q', d); }
    if q < q' { MulGe(q' - q, d); }
  }

  lemma MulGe(a: int, d: int)
    requires a >= 1 && d >= 0
    ensures a * d >= d
  {
    assert a * d == (a - 1) * d + d;
    assert (a - 1) * d >= 0;
  }

  /** Dividing twice is dividing by the product. */
  lemma DivDiv(x: nat, a: nat, b: nat)
    requires a > 0 && b > 0
    ensures a * b > 0
    ensures x / a / b == x / (a * b)
  {
    var q := x / a;
    TwoDigits(x, a, b, q, x % a, q / b, q % b);
    DivUnique(x, a * b, q / b, q % b * a + x % a);
  }

  lemma TwoDigits(x: nat, a: nat, b: nat, q: nat, r: nat, q2: nat, r2: nat)
    requires x == q * a + r && q == q2 * b + r2 && r < a && r2 < b
    ensures x == q2 * (a * b) + (r2 * a + r)
    ensures r2 * a + r < a * b
  {
    Expand(q2, b, r2, a);
    MulGe(b - r2, a);
    assert (b - r2) * a == a * b - r2 * a;
  }

  lemma Expand(q: nat, b: nat, r: nat, a: nat)
    ensures (q * b + r) * a == q * (a * b) + r * a
  {
    assert (q * b + r) * a == (q * b) * a + r * a;
    assert (q * b) * a == q * (b * a);
  }

  /** A common factor of dividend and divisor cancels. */
  lemma DivCancel(x: nat, d: nat, c: nat)
    requires d > 0 && c > 0
    ensures c * d > 0
    ensures (c * x) / (c * d) == x / d
  {
    DivDiv(c * x, c, d);
    MulDivMod(x, c, 0);
    assert x * c + 0 == c * x;
  }

  // ---------- single bits ----------

  lemma {:induction false} BitZero(i: nat)
    ensures !Bit(0, i)
  {
    if i > 0 { BitZero(i - 1); }
  }

  lemma {:induction false} BitHigh(x: nat, i: nat)
    requires x < Pow2(i)
    ensures !Bit(x, i)
  {
    if i > 0 { BitHigh(x / 2, i - 1); }
  }

  lemma {:induction false} BitShr(x: nat, k: nat, i: nat)
    ensures Bit(Shr(x, k), i) == Bit(x, i + k)
  {
    if k > 0 {
      DivDiv(x, 2, Pow2(k - 1));
      BitShr(x / 2, k - 1, i);
    }
  }

  lemma {:induction false} BitMod(x: nat, w: nat, i: nat)
    ensures Bit(x % Pow2(w), i) == (i < w && Bit(x, i))
  {
    if w == 0 {
      BitZero(i);
    } else {
      HalfMod(x, w);
      if i > 0 { BitMod(x / 2, w - 1, i - 1); }
    }
  }

  lemma HalfMod(x: nat, w: nat)
    requires w > 0
    ensures x % Pow2(w) / 2 == x / 2 % Pow2(w - 1)
    ensures x % Pow2(w) % 2 == x % 2
  {
    var p := Pow2(w - 1);
    var q, r := x / 2 / p, x / 2 % p;
    assert x / 2 == q * p + r;
    assert x == q * Pow2(w) + (2 * r + x % 2) by {
      assert 2 * (q * p) == q * (2 * p);
    }
    DivUnique(x, Pow2(w), q, 2 * r + x % 2);
  }

  lemma {:induction false} BitMulPow2(x: nat, k: nat, i: nat)
    ensures Bit(x * Pow2(k), i) == (i >= k && Bit(x, i - k))
  {
    if k > 0 {
      assert x * Pow2(k) == 2 * (x * Pow2(k - 1));
      if i > 0 { BitMulPow2(x, k - 1, i - 1); }
    }
  }

  lemma BitShl(w: nat, x: nat, k: nat, i: nat)
    ensures Bit(Shl(w, x, k), i) == (k <= i < w && Bit(x, i - k))
  {
    BitMod(x * Pow2(k), w, i);
    BitMulPow2(x, k, i);
  }

  lemma {:induction false} BitAnd(x: nat, y: nat, i: nat)
    ensures Bit(And(x, y), i) == (Bit(x, i) && Bit(y, i))
  {
    BitZero(i);
    if x != 0 && y != 0 && i > 0 { BitAnd(x / 2, y / 2, i - 1); }
  }

  lemma {:induction false} BitOr(x: nat, y: nat, i: nat)
    ensures Bit(Or(x, y), i) == (Bit(x, i) || Bit(y, i))
  {
    BitZero(i);
    if x != 0 && y != 0 && i > 0 { BitOr(x / 2, y / 2, i - 1); }
  }

  lemma {:induction false} BitXor(x: nat, y: nat, i: nat)
    ensures Bit(Xor(x, y), i) == (Bit(x, i) != Bit(y, i))
    decreases i
  {
    XorHalves(x, y);
    if i > 0 { BitXor(x / 2, y / 2, i - 1); }
  }

  lemma XorHalves(x: nat, y: nat)
    ensures Xor(x, y) / 2 == Xor(x / 2, y / 2) && Xor(x, y) % 2 == (x % 2 + y % 2) % 2
  {
  }

  lemma {:induction false} BitNot(w: nat, x: nat, i: nat)
    requires x < Pow2(w) && i < w
    ensures Bit(Not(w, x), i) == !Bit(x, i)
  {
    NotHalves(w, x);
    if i > 0 { BitNot(w - 1, x / 2, i - 1); }
  }

  lemma NotHalves(w: nat, x: nat)
    requires x < Pow2(w) && w > 0
    ensures x / 2 < Pow2(w - 1) && Not(w, x) / 2 == Not(w - 1, x / 2) && Not(w, x) % 2 == 1 - x % 2
  {
    assert Pow2(w) == 2 * Pow2(w - 1);
  }

  /** Two words with the same bits are the same number. */
  lemma {:induction false} BitsEqual(x: nat, y: nat)
    requires forall i: nat :: Bit(x, i) == Bit(y, i)
    ensures x == y
  {
    assert Bit(x, 0) == Bit(y, 0);
    if x > 0 || y > 0 {
      forall i: nat ensures Bit(x / 2, i) == Bit(y / 2, i) {
        assert Bit(x, i + 1) == Bit(y, i + 1);
      }
      BitsEqual(x / 2, y / 2);
    }
  }

  /** A number whose bits all lie below position `w` is a word of width `w`. */
  lemma {:induction false} BitsBelow(x: nat, w: nat)
    requires forall i: nat :: i >= w ==> !Bit(x, i)
    ensures x < Pow2(w)
  {
    if w == 0 {
      forall i: nat ensures Bit(x, i) == Bit(0, i) { BitZero(i); }
      BitsEqual(x, 0);
    } else {
      forall i: nat | i >= w - 1 ensures !Bit(x / 2, i) {
        assert !Bit(x, i + 1);
      }
      BitsBelow(x / 2, w - 1);
    }
  }

  lemma {:induction false} BitLog2(x: nat)
    requires x > 0
    ensures Bit(x, Log2(x))
  {
    if x > 1 { BitLog2(x / 2); }
  }

  // ---------- masks and the lowest set bit ----------

  /** `x & (2^k - 1)` is the remainder modulo `2^k`. */
  lemma AndLowMask(x: nat, k: nat)
    ensures And(x, Pow2(k) - 1) == x % Pow2(k)
  {
    forall i: nat ensures Bit(And(x, Pow2(k) - 1), i) == Bit(x % Pow2(k), i) {
      BitAnd(x, Pow2(k) - 1, i);
      BitMod(x, k, i);
      BitLowMask(k, i);
    }
    BitsEqual(And(x, Pow2(k) - 1), x % Pow2(k));
  }

  lemma BitLowMask(k: nat, i: nat)
    ensures Bit(Pow2(k) - 1, i) == (i < k)
  {
    BitZero(i);
    if i < k {
      BitNot(k, 0, i);
    } else {
      Pow2Monotone(k, i);
      BitHigh(Pow2(k) - 1, i);
    }
  }

  /** `x & ~(2^k - 1)` rounds down to a multiple of `2^k`. */
  lemma AndHighMask(w: nat, x: nat, k: nat)
    requires k <= w && x < Pow2(w)
    ensures Pow2(k) - 1 < Pow2(w)
    ensures And(x, Not(w, Pow2(k) - 1)) == x - x % Pow2(k)
  {
    Pow2Monotone(k, w);
    var m := Not(w, Pow2(k) - 1);
    var y := Shr(x, k) * Pow2(k);
    forall i: nat ensures Bit(And(x, m), i) == Bit(y, i) {
      BitAnd(x, m, i);
      BitMulPow2(Shr(x, k), k, i);
      if i >= k { BitShr(x, k, i - k); }
      BitHighMask(w, x, k, i);
    }
    BitsEqual(And(x, m), y);
    var q, r := DivMod(x, Pow2(k));
  }

  lemma BitHighMask(w: nat, x: nat, k: nat, i: nat)
    requires k <= w && x < Pow2(w) && Pow2(k) - 1 < Pow2(w)
    ensures (Bit(x, i) && Bit(Not(w, Pow2(k) - 1), i)) == (i >= k && Bit(x, i))
  {
    if i < w {
      BitNot(w, Pow2(k) - 1, i);
      BitLowMask(k, i);
    } else {
      Pow2Monotone(w, i);
      BitHigh(x, i);
    }
  }

  /** `x & -x` isolates the largest power of two dividing `x`. */
  lemma {:induction false} AndNeg(w: nat, x: nat)
    requires 0 < x < Pow2(w)
    ensures And(x, Neg(w, x)) == LowBit(x)
  {
    NegHalves(w, x);
    if x % 2 == 1 {
      AndComplement(w - 1, x / 2);
    } else {
      AndNeg(w - 1, x / 2);
    }
  }

  lemma NegValue(w: nat, x: nat)
    requires 0 < x < Pow2(w)
    ensures Neg(w, x) == Pow2(w) - x
  {
    DivUnique(Pow2(w) - x, Pow2(w), 0, Pow2(w) - x);
  }

  lemma NegHalves(w: nat, x: nat)
    requires 0 < x < Pow2(w)
    ensures w > 0 && x / 2 < Pow2(w - 1) && Neg(w, x) > 0 && Neg(w, x) % 2 == x % 2
    ensures Neg(w, x) / 2 == if x % 2 == 1 then Not(w - 1, x / 2) else Neg(w - 1, x / 2)
  {
    NegValue(w, x);
    assert Pow2(w) == 2 * Pow2(w - 1);
    if x % 2 == 0 { NegValue(w - 1, x / 2); }
  }

  lemma AndComplement(w: nat, x: nat)
    requires x < Pow2(w)
    ensures And(x, Not(w, x)) == 0
  {
    forall i: nat ensures Bit(And(x, Not(w, x)), i) == Bit(0, i) {
      BitAnd(x, Not(w, x), i);
      BitZero(i);
      if i < w {
        BitNot(w, x, i);
      } else {
        Pow2Monotone(w, i);
        BitHigh(x, i);
      }
    }
    BitsEqual(And(x, Not(w, x)), 0);
  }

  /** Every positive number is an odd number times its lowest set bit. */
  lemma {:induction false} LowBitForm(x: nat) returns (odd: nat, k: nat)
    requires x > 0
    ensures LowBit(x) == Pow2(k)
    ensures odd % 2 == 1 && x == odd * Pow2(k)
  {
    if x % 2 == 1 {
      odd, k := x, 0;
    } else {
      odd, k := LowBitForm(x / 2);
      assert 2 * (odd * Pow2(k)) == odd * (2 * Pow2(k));
      k := k + 1;
    }
  }

  // ---------- words stay words ----------

  lemma XorBelow(x: nat, y: nat, w: nat)
    requires x < Pow2(w) && y < Pow2(w)
    ensures Xor(x, y) < Pow2(w)
  {
    forall i: nat | i >= w ensures !Bit(Xor(x, y), i) {
      Pow2Monotone(w, i);
      BitXor(x, y, i);
      BitHigh(x, i);
      BitHigh(y, i);
    }
    BitsBelow(Xor(x, y), w);
  }

  lemma OrBelow(x: nat, y: nat, w: nat)
    requires x < Pow2(w) && y < Pow2(w)
    ensures Or(x, y) < Pow2(w)
  {
    forall i: nat | i >= w ensures !Bit(Or(x, y), i) {
      Pow2Monotone(w, i);
      BitOr(x, y, i);
      BitHigh(x, i);
      BitHigh(y, i);
    }
    BitsBelow(Or(x, y), w);
  }

  lemma AndBelow(x: nat, y: nat, w: nat)
    requires y < Pow2(w)
    ensures And(x, y) < Pow2(w)
  {
    forall i: nat | i >= w ensures !Bit(And(x, y), i) {
      Pow2Monotone(w, i);
      BitAnd(x, y, i);
      BitHigh(y, i);
    }
    BitsBelow(And(x, y), w);
  }

  lemma ShrBelow(x: nat, k: nat, w: nat)
    requires x < Pow2(w)
    ensures Shr(x, k) < Pow2(w)
  {
    forall i: nat | i >= w ensures !Bit(Shr(x, k), i) {
      Pow2Monotone(w, i + k);
      BitShr(x, k, i);
      BitHigh(x, i + k);
    }
    BitsBelow(Shr(x, k), w);
  }
}
