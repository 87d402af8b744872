/** Division of a 64-bit number by a constant 32-bit divisor through one reciprocal
    multiplication, and the 64x64 cross product it is built on. Words are naturals; each
    C assignment that can wrap is reduced with `Wrap64` or `Wrap32`. */
module Div64 {
  import opened Bits

  function Wrap32(x: nat): nat { x % TWO32 }

  function Wrap64(x: nat): nat { x % TWO64 }

  lemma WrapSmall(x: nat)
    requires x < TWO64
    ensures Wrap64(x) == x
  {
  }

  predicate Word64(x: nat) { x < TWO64 }

  predicate Word32(x: nat) { x < TWO32 }

  // ---------- the 64x64 cross product ----------

  /** The bits whose absence rules out an overflow of the cross product. */
  predicate MayOverflow(m: nat) {
    And(m, Or(Pow2(63), Pow2(31))) != 0
  }

  lemma MayOverflowBits(m: nat)
    requires Word64(m)
    ensures MayOverflow(m) <==> m >= TWO63 || m % TWO32 >= TWO31
  {
    Pow2Values();
    var mask := Or(Pow2(63), Pow2(31));
    forall i: nat ensures Bit(mask, i) == (i == 63 || i == 31) {
      BitOr(Pow2(63), Pow2(31), i);
      BitPow2(63, i);
      BitPow2(31, i);
    }
    TopBit(m, 63);
    TopBit(m % TWO32, 31);
    BitMod(m, 32, 31);
    if And(m, mask) == 0 {
      BitAnd(m, mask, 63);
      BitAnd(m, mask, 31);
      BitZero(63);
      BitZero(31);
    } else {
      var i := Log2(And(m, mask));
      BitLog2(And(m, mask));
      BitAnd(m, mask, i);
    }
  }

  lemma BitPow2(k: nat, i: nat)
    ensures Bit(Pow2(k), i) == (i == k)
  {
    BitMulPow2(1, k, i);
    if i > k { Pow2Monotone(0, i - k); BitHigh(1, i - k); }
  }

  lemma TopBit(x: nat, w: nat)
    requires x < 2 * Pow2(w)
    ensures Bit(x, w) == (x >= Pow2(w))
  {
    if x < Pow2(w) {
      BitHigh(x, w);
    } else {
      Log2Unique(x, w);
      BitLog2(x);
    }
  }

  lemma MulBound(a: nat, b: nat, p: nat, q: nat)
    requires a <= p && b <= q
    ensures a * b <= p * q
  {
    assert p * q - a * b == p * (q - b) + (p - a) * b;
    assert p * (q - b) >= 0 && (p - a) * b >= 0;
  }

  const PRODUCT_MAX: nat := (TWO32 - 1) * (TWO32 - 1)
  const SHORT_PRODUCT_MAX: nat := (TWO31 - 1) * (TWO32 - 1)

  /** How large a 32-bit partial product gets when its left factor has `overflow` headroom. */
  function ProductBound(overflow: bool): nat {
    if overflow then PRODUCT_MAX else SHORT_PRODUCT_MAX
  }

  /** A 32x32 product, `(uint64_t)a * b`. */
  function Mul32(a: nat, b: nat): nat { a * b }

  function ColumnSum(m: nat, n: nat, bias: nat): nat {
    var mLo, mHi, nLo, nHi := m % TWO32, m / TWO32, n % TWO32, n / TWO32;
    Mul32(mHi, nHi) + ((bias + Mul32(mLo, nLo)) / TWO32 + Mul32(mLo, nHi) + Mul32(mHi, nLo)) / TWO32
  }

  /** The high word of the product, digit by digit in base 2^32. */
  lemma Schoolbook(m: nat, n: nat, bias: nat)
    ensures (bias + m * n) / TWO64 == ColumnSum(m, n, bias)
  {
    var mLo, mHi, nLo, nHi := m % TWO32, m / TWO32, n % TWO32, n / TWO32;
    var ll, lh, hl, hh := mLo * nLo, mLo * nHi, mHi * nLo, mHi * nHi;
    assert m * n == hh * TWO64 + (lh + hl) * TWO32 + ll by {
      assert m * n == (mHi * TWO32 + mLo) * (nHi * TWO32 + nLo);
    }
  }

  /** The carry out of a 64-bit addition is visible as a wrapped sum below an addend. */
  lemma Carry(a: nat, b: nat)
    requires Word64(a) && Word64(b)
    ensures Wrap64(a + b) / TWO32 + (if Wrap64(a + b) < a then TWO32 else 0) == (a + b) / TWO32
  {
  }

  function BiasOf(m: nat, bias: bool): nat { if bias then m else 0 }

  /** First half of `__arch_xprod_64`: the carry out of the lowest column. */
  method LowColumn(m: nat, ll: nat, bias: bool, overflow: bool) returns (res: nat)
    requires Word64(m) && (!overflow ==> m < TWO63) && ll <= ProductBound(overflow)
    ensures res == (BiasOf(m, bias) + ll) / TWO32
  {
    if !bias {
      res := ll / TWO32;
    } else if !overflow {
      res := Wrap64(m + ll) / TWO32;
    } else {
      res := Wrap64(m + ll);
      var tmp := if res < m then TWO32 else 0;
      Carry(m, ll);
      res := res / TWO32 + tmp;
    }
  }

  /** Second half: both middle products join the carry `low`; only the last sum may wrap. */
  method MiddleColumn(low: nat, lh: nat, hl: nat, overflow: bool) returns (res: nat)
    requires low <= 2 * TWO32 - 2 && (!overflow ==> Word32(low))
    requires lh <= ProductBound(overflow) && hl <= ProductBound(overflow)
    ensures res == (low + lh + hl) / TWO32
  {
    WrapSmall(low + lh);
    if !overflow {
      res := Wrap64(low + lh);
      WrapSmall(res + hl);
      res := Wrap64(res + hl);
      res := res / TWO32;
    } else {
      res := Wrap64(low + lh);
      var tmp := res;
      res := Wrap64(res + hl);
      Carry(tmp, hl);
      tmp := if res < tmp then TWO32 else 0;
      res := res / TWO32 + tmp;
    }
  }

  /** All three columns over the four partial products. */
  method AddColumns(m: nat, ll: nat, lh: nat, hl: nat, hh: nat, bias: bool, overflow: bool) returns (res: nat)
    requires Word64(m) && (!overflow ==> m < TWO63)
    requires ll <= ProductBound(overflow) && lh <= ProductBound(overflow) && hl <= ProductBound(overflow)
    requires hh + ((BiasOf(m, bias) + ll) / TWO32 + lh + hl) / TWO32 < TWO64
    ensures res == hh + ((BiasOf(m, bias) + ll) / TWO32 + lh + hl) / TWO32
  {
    res := LowColumn(m, ll, bias, overflow);
    res := MiddleColumn(res, lh, hl, overflow);
    res := Wrap64(res + hh);
  }

  /** `__arch_xprod_64`: the high word of `m * n`, plus `m` when biased, from four 32-bit products. */
  method XProd64(m: nat, n: nat, bias: bool) returns (res: nat)
    requires Word64(m) && Word64(n)
    ensures res == (BiasOf(m, bias) + m * n) / TWO64
    ensures Word64(res)
  {
    var mLo, mHi, nLo, nHi := Wrap32(m), m / TWO32, Wrap32(n), n / TWO32;
    ghost var high := (BiasOf(m, bias) + m * n) / TWO64;
    assert high == ColumnSum(m, n, BiasOf(m, bias)) by { Schoolbook(m, n, BiasOf(m, bias)); }
    assert high < TWO64 by { HighWordFits(m, n, BiasOf(m, bias)); }
    Headroom(m, n);
    res := AddColumns(m, Mul32(mLo, nLo), Mul32(mLo, nHi), Mul32(mHi, nLo), Mul32(mHi, nHi), bias, MayOverflow(m));
  }

  /** What the missing top bits buy: every partial product leaves room for the sums it enters. */
  lemma Headroom(m: nat, n: nat)
    requires Word64(m) && Word64(n)
    ensures !MayOverflow(m) ==> m < TWO63
    ensures var bound := ProductBound(MayOverflow(m));
            && Mul32(m % TWO32, n % TWO32) <= bound
            && Mul32(m % TWO32, n / TWO32) <= bound
            && Mul32(m / TWO32, n % TWO32) <= bound
  {
    MayOverflowBits(m);
    CrossBounds(m % TWO32, m / TWO32, n % TWO32, n / TWO32, if MayOverflow(m) then TWO32 - 1 else TWO31 - 1);
  }

  lemma CrossBounds(mLo: nat, mHi: nat, nLo: nat, nHi: nat, top: nat)
    requires mLo <= top && mHi <= top && Word32(nLo) && Word32(nHi)
    ensures mLo * nLo <= top * (TWO32 - 1)
    ensures mLo * nHi <= top * (TWO32 - 1)
    ensures mHi * nLo <= top * (TWO32 - 1)
  {
    MulBound(mLo, nLo, top, TWO32 - 1);
    MulBound(mLo, nHi, top, TWO32 - 1);
    MulBound(mHi, nLo, top, TWO32 - 1);
  }

  lemma HighWordFits(m: nat, n: nat, bias: nat)
    requires Word64(m) && Word64(n) && bias <= m
    ensures (bias + m * n) / TWO64 < TWO64
  {
    MulBound(m, n, TWO64 - 1, TWO64 - 1);
  }

  // ---------- reciprocals ----------

  const ALL_ONES: nat := TWO64 - 1

  /** A divisor that is not a power of two and sits strictly between `p` and `2 * p`. */
  ghost predicate Divisor(b: nat, p: nat) {
    0 < p < b < 2 * p && Word32(b) && IsPow2(p)
  }

  /** `m` overshoots `p * 2^64 / b` by `e / b`. */
  ghost predicate RoundsUp(m: nat, b: nat, p: nat, e: nat) {
    m * b == p * TWO64 + e && 0 < e < b
  }

  /** `m` falls short of `p * 2^64 / b` by `f / b`. */
  ghost predicate RoundsDown(m: nat, b: nat, p: nat, f: nat) {
    m * b + f == p * TWO64 && 0 < f < b
  }

  lemma DivisorOf(b: nat)
    requires 0 < b && Word32(b) && !IsPow2(b)
    ensures Divisor(b, Pow2(Log2(b)))
    ensures Shl(32, 1, Log2(b)) == Pow2(Log2(b))
  {
    Pow2Values();
    Log2Pow2(Log2(b));
    DivUnique(Pow2(Log2(b)), TWO32, 0, Pow2(Log2(b)));
  }

  /** Only powers of two divide a power of two. */
  lemma {:induction false} DividesPow2(b: nat, q: nat, k: nat)
    requires b * q == Pow2(k)
    ensures IsPow2(b)
  {
    if k == 0 {
      assert b == 1 by { if b > 1 && q > 0 { MulGe(q, b); } }
      Log2Pow2(0);
    } else if b % 2 == 0 {
      HalfTimes(b / 2, q, Pow2(k - 1));
      DividesPow2(b / 2, q, k - 1);
      Log2Pow2(Log2(b / 2) + 1);
    } else {
      OddTimes(b, q);
      HalfTimes(q / 2, b, Pow2(k - 1));
      DividesPow2(b, q / 2, k - 1);
    }
  }

  lemma HalfTimes(h: nat, q: nat, p: nat)
    requires (2 * h) * q == 2 * p || q * (2 * h) == 2 * p
    ensures h * q == p && q * h == p
  {
    assert (2 * h) * q == 2 * (h * q);
  }

  lemma OddTimes(b: nat, q: nat)
    requires b % 2 == 1 && b * q % 2 == 0
    ensures q % 2 == 0
  {
    var h := b / 2;
    assert b * q == 2 * (h * q) + q;
  }

  /** `b` never divides `p * 2^64`. */
  lemma NotExact(b: nat, p: nat, q: nat)
    requires Divisor(b, p)
    ensures q * b != p * TWO64
  {
    if q * b == p * TWO64 {
      Pow2Values();
      Pow2Add(Log2(p), 64);
      DividesPow2(b, q, Log2(p) + 64);
      var j := Log2(b);
      Pow2Monotone(if j <= Log2(p) then j else Log2(p), if j <= Log2(p) then Log2(p) else j);
      assert false;
    }
  }

  /** `u + t / b` in 64 bits. */
  function Combined(b: nat, u: nat, t: nat): nat
    requires b > 0
  {
    Wrap64(Wrap64(u) + Quotient(Wrap64(t), b))
  }

  /** The multiplier of the first attempt, `((p << 64) + b - 1) / b`, as computed in 64 bits. */
  function MultiplierUp(b: nat, p: nat): nat
    requires b > 0
  {
    Combined(b, Quotient(ALL_ONES, b) * p, (ALL_ONES % b + 1) * p + b - 1)
  }

  /** The multiplier of the biased scheme, `(p << 64) / b`, as computed in 64 bits. */
  function MultiplierDown(b: nat, p: nat): nat
    requires b > 0
  {
    Combined(b, Quotient(ALL_ONES, b) * p, (ALL_ONES % b + 1) * p)
  }

  /** Nothing wraps, the two multipliers are neighbours, and their errors add up to `b`. */
  lemma Multipliers(b: nat, p: nat) returns (e: nat, f: nat)
    requires Divisor(b, p)
    ensures RoundsUp(MultiplierUp(b, p), b, p, e)
    ensures RoundsDown(MultiplierDown(b, p), b, p, f)
    ensures e + f == b
    ensures Word64(MultiplierUp(b, p)) && Word64(MultiplierDown(b, p))
  {
    var m;
    m, f := Neighbours(b, p);
    e := b - f;
  }

  lemma Neighbours(b: nat, p: nat) returns (m: nat, f: nat)
    requires Divisor(b, p)
    ensures MultiplierDown(b, p) == m && MultiplierUp(b, p) == m + 1 && m + 1 < TWO64
    ensures 0 < f < b && m * b + f == p * TWO64 && (m + 1) * b == p * TWO64 + (b - f)
  {
    var q, rest := DivMod(ALL_ONES, b);
    var c;
    c, f := DivMod((rest + 1) * p, b);
    MultiplierAlgebra(q, rest + 1, p, b, c, f);
    var u, t := q * p, (rest + 1) * p;
    m := u + c;
    NotExact(b, p, m);
    MultiplierFits(b, p, m, f);
    SmallTerm(b, p, rest + 1);
    MultiplierValues(b, u, t, c, f);
  }

  /** None of the 64-bit operations behind the two multipliers wraps. */
  lemma MultiplierValues(b: nat, u: nat, t: nat, c: nat, f: nat)
    requires 0 < f < b && t == c * b + f && t + b < TWO64 && u + c + 1 < TWO64
    ensures Combined(b, u, t) == u + c && Combined(b, u, t + b - 1) == u + c + 1
  {
    DivUnique(t, b, c, f);
    DivUnique(t + b - 1, b, c + 1, f - 1);
    WrapSmall(u);
    WrapSmall(t);
    WrapSmall(t + b - 1);
    WrapSmall(u + c);
    WrapSmall(u + c + 1);
  }

  lemma MultiplierAlgebra(q: nat, s: nat, p: nat, b: nat, c: nat, f: nat)
    requires q * b + s == TWO64 && s * p == c * b + f && f < b
    ensures (q * p + c) * b + f == p * TWO64
    ensures (q * p + c + 1) * b == p * TWO64 + (b - f)
  {
    assert (q * p + c) * b == p * (q * b) + c * b;
    assert p * (q * b) + p * s == p * (q * b + s);
  }

  lemma SmallTerm(b: nat, p: nat, s: nat)
    requires Divisor(b, p) && s <= b
    ensures s * p + b < TWO64
  {
    MulBound(s, p, TWO32 - 1, TWO31 - 1 + TWO31);
  }

  lemma MultiplierFits(b: nat, p: nat, m: nat, f: nat)
    requires Divisor(b, p) && RoundsDown(m, b, p, f)
    ensures m + 1 < TWO64
  {
    MulBound(p, TWO64, b - 1, TWO64);
    if m >= TWO64 - 1 { MulBound(TWO64 - 1, b, m, b); }
  }

  // ---------- when a multiplier is exact ----------

  /** The quotient the multiplication produces before any reduction. */
  function Scaled(m: nat, n: nat, p: nat): nat
    requires p > 0
  {
    m * n / (p * TWO64)
  }

  /** The round-up multiplier is exact at `n` exactly when its error stays below the gap to the next multiple. */
  lemma RoundUpAt(m: nat, b: nat, p: nat, e: nat, n: nat)
    requires Divisor(b, p) && RoundsUp(m, b, p, e)
    ensures Scaled(m, n, p) == n / b <==> e * n < (b - n % b) * (p * TWO64)
  {
    var q, r := DivMod(n, b);
    RoundUpBracket(m, n, b, p * TWO64, e, q, r);
  }

  lemma RoundUpBracket(m: nat, n: nat, b: nat, d: nat, e: nat, q: nat, r: nat)
    requires m * b == d + e && n == q * b + r && r < b && d > 0
    ensures m * n / d == q <==> e * n < (b - r) * d
  {
    ErrorAlgebra(m, n, b, d, e, q, r);
    QuotientBracket(m * n, b, d, q, r * d + e * n);
    assert (b - r) * d == b * d - r * d;
  }

  lemma ErrorAlgebra(m: nat, n: nat, b: nat, d: nat, e: nat, q: nat, r: nat)
    requires m * b == d + e && n == q * b + r
    ensures (m * n) * b == (q * d) * b + (r * d + e * n)
  {
    assert (m * n) * b == (m * b) * n == d * n + e * n;
    assert d * n == (q * d) * b + r * d;
  }

  /** `y` divided by `d` is `q` exactly when what is left over is below `d`, all scaled by `b`. */
  lemma QuotientBracket(y: nat, b: nat, d: nat, q: nat, rest: nat)
    requires b > 0 && d > 0
    requires y * b == (q * d) * b + rest
    ensures y / d == q <==> rest < b * d
  {
    var z := y - q * d;
    assert z * b == rest;
    if z < 0 { MulGe(-z, b); }
    if z < d {
      MulGe(d - z, b);
      DivUnique(y, d, q, z);
    } else {
      MulGe(z - d + 1, b);
      QuotientAbove(y, d, q);
    }
  }

  lemma QuotientAbove(y: nat, d: nat, q: nat)
    requires d > 0 && y >= q * d + d
    ensures y / d > q
  {
    var q', r := y / d, y % d;
    assert y == q' * d + r;
    if q' <= q { MulBound(q', d, q, d); }
  }

  /** One less than the largest multiple of `b` in a word: the dividend the code tries its multiplier on. */
  function Worst(b: nat): nat
    requires 0 < b < TWO32
  {
    ALL_ONES / b * b - 1
  }

  lemma WorstForm(b: nat) returns (q: nat)
    requires 1 < b < TWO32
    ensures q == ALL_ONES / b && q >= 1
    ensures Worst(b) == (q - 1) * b + (b - 1)
    ensures Worst(b) / b == q - 1 && Worst(b) % b == b - 1
    ensures Word64(Worst(b))
  {
    var r;
    q, r := DivMod(ALL_ONES, b);
    assert (q - 1) * b == q * b - b;
    DivUnique(Worst(b), b, q - 1, b - 1);
  }

  /** Any dividend congruent to -1 is at most `Worst(b)`, because `b` does not divide 2^64. */
  lemma WorstIsLargest(b: nat, p: nat, n: nat)
    requires Divisor(b, p) && Word64(n) && n % b == b - 1
    ensures n <= Worst(b)
  {
    var q, r := DivMod(n, b);
    var top := WorstForm(b);
    assert (q + 1) * b == n + 1;
    if n + 1 == TWO64 { NotWhole(b, p, q + 1); }
    if q + 1 > top { QuotientBelow(ALL_ONES, b, q + 1); }
    MulBound(q, b, top - 1, b);
  }

  lemma NotWhole(b: nat, p: nat, q: nat)
    requires Divisor(b, p)
    ensures q * b != TWO64
  {
    assert (q * p) * b == p * (q * b);
    NotExact(b, p, q * p);
  }

  lemma QuotientBelow(y: nat, d: nat, q: nat)
    requires d > 0 && q * d <= y
    ensures q <= y / d
  {
    var q', r := DivMod(y, d);
    if q > q' { MulBound(q' + 1, d, q, d); }
  }

  /** If the test dividend comes out right, every dividend does. */
  lemma TestSuffices(b: nat, p: nat, m: nat, e: nat, n: nat)
    requires Divisor(b, p) && RoundsUp(m, b, p, e) && Word64(n)
    requires Scaled(m, Worst(b), p) == Worst(b) / b
    ensures Scaled(m, n, p) == n / b
  {
    var d := p * TWO64;
    var q := WorstForm(b);
    RoundUpAt(m, b, p, e, Worst(b));
    RoundUpAt(m, b, p, e, n);
    var q', r := DivMod(n, b);
    if r == b - 1 {
      WorstIsLargest(b, p, n);
      MulBound(e, n, e, Worst(b));
    } else {
      MulBound(e, n, 2 * p - 1, TWO64 - 1);
      assert (2 * p - 1) * (TWO64 - 1) < 2 * d;
      MulBound(2, d, b - r, d);
    }
  }

  /** The single test decides whether the round-up multiplier is exact on all 64-bit dividends. */
  lemma TestDecides(b: nat)
    requires 0 < b && Word32(b) && !IsPow2(b)
    ensures var p := Pow2(Log2(b)); var m := MultiplierUp(b, p);
            Scaled(m, Worst(b), p) == Worst(b) / b
            <==> (forall n: nat :: Word64(n) ==> Scaled(m, n, p) == n / b)
  {
    DivisorOf(b);
    var p := Pow2(Log2(b));
    var e, f := Multipliers(b, p);
    var q := WorstForm(b);
    if Scaled(MultiplierUp(b, p), Worst(b), p) == Worst(b) / b {
      forall n: nat | Word64(n) ensures Scaled(MultiplierUp(b, p), n, p) == n / b {
        TestSuffices(b, p, MultiplierUp(b, p), e, n);
      }
    }
  }

  /** When the test fails the round-down error is at most `p`. */
  lemma FailureBoundsError(b: nat, p: nat, m: nat, e: nat)
    requires Divisor(b, p) && RoundsUp(m, b, p, e)
    requires Scaled(m, Worst(b), p) != Worst(b) / b
    ensures b - e <= p
  {
    var q := WorstForm(b);
    RoundUpAt(m, b, p, e, Worst(b));
    if e <= p { MulBound(e, Worst(b), p, TWO64 - 1); }
  }

  /** A round-down error of at most `p` is repaired by adding the multiplier once more. */
  lemma BiasedExact(b: nat, p: nat, m: nat, f: nat, n: nat)
    requires Divisor(b, p) && RoundsDown(m, b, p, f) && f <= p && Word64(n)
    ensures (m + m * n) / (p * TWO64) == n / b
  {
    var q, r := DivMod(n, b);
    MulBound(f, n + 1, p, TWO64);
    BiasedBracket(m, n, b, p * TWO64, f, q, r);
  }

  lemma BiasedBracket(m: nat, n: nat, b: nat, d: nat, f: nat, q: nat, r: nat)
    requires m * b + f == d && n == q * b + r && r < b && d > 0 && f > 0
    requires f * (n + 1) <= d
    ensures (m + m * n) / d == q
  {
    BiasedAlgebra(m, n + 1, b, d, f, q, r + 1);
    MulGe(r + 1, d);
    MulBound(r + 1, d, b, d);
    MulGe(n + 1, f);
    QuotientBracket(m * (n + 1), b, d, q, (r + 1) * d - f * (n + 1));
    assert m * (n + 1) == m + m * n;
  }

  lemma BiasedAlgebra(m: nat, n: nat, b: nat, d: nat, f: nat, q: nat, r: nat)
    requires m * b + f == d && n == q * b + r
    ensures (m * n) * b + f * n == (q * d) * b + r * d
  {
    assert (m * n) * b + f * n == (m * b + f) * n;
    assert d * n == (q * d) * b + r * d;
  }

  /** An odd divisor of `2^64 - 1` needs no power of two at all. */
  lemma MersenneExact(c: nat, m: nat, n: nat)
    requires c > 0 && m * c == ALL_ONES && Word64(n)
    ensures (m + m * n) / TWO64 == n / c
  {
    var q, r := DivMod(n, c);
    assert m + m * n == q * TWO64 + (m * (r + 1) - q) by {
      assert m * n == q * (m * c) + m * r;
    }
    MulBound(m, r + 1, m, c);
    assert q <= m by { if q > m { MulBound(m + 1, c, q, c); } }
    MulGe(r + 1, m);
    DivUnique(m + m * n, TWO64, q, m * (r + 1) - q);
  }

  // ---------- reducing m / p ----------

  /** The word `___bits`: its set bits are the admissible shifts. */
  function ReductionBits(m: nat): nat
    requires 0 < m < TWO64
  {
    Pow2Values();
    AndNeg(64, m);
    var low := Wrap32(Neg(64, And(m, Neg(64, m))));
    OrBelow(low, m / TWO32, 32);
    Shl(32, Not(32, Or(low, m / TWO32)), 1)
  }

  /** Bit `k` of `___bits` is set exactly when shifting by `k` is exact and clears bit 31 of `m`. */
  lemma ReductionBit(m: nat, t: nat, k: nat)
    requires 0 < m < TWO64 && LowBit(m) == Pow2(t) && t <= 31
    ensures Bit(ReductionBits(m), k) <==> 1 <= k <= t && !Bit(m, 31 + k)
  {
    Pow2Values();
    AndNeg(64, m);
    var low := LowWordOfNeg(t);
    AdmissibleBit(m, low, t, k);
  }

  lemma AdmissibleBit(m: nat, low: nat, t: nat, k: nat)
    requires Word64(m) && t <= 31 && low < Pow2(32)
    requires forall i: nat :: i < 32 ==> Bit(low, i) == (i >= t)
    ensures m / TWO32 < Pow2(32) && Or(low, m / TWO32) < Pow2(32)
    ensures Bit(Shl(32, Not(32, Or(low, m / TWO32)), 1), k) <==> 1 <= k <= t && !Bit(m, 31 + k)
  {
    Pow2Values();
    var high := Shr(m, 32);
    OrBelow(low, high, 32);
    BitShl(32, Not(32, Or(low, high)), 1, k);
    if 1 <= k < 32 {
      BitNot(32, Or(low, high), k - 1);
      BitOr(low, high, k - 1);
      BitShr(m, 32, k - 1);
    }
  }

  /** `-(2^t)` truncated to 32 bits has exactly the bits from `t` up. */
  lemma LowWordOfNeg(t: nat) returns (low: nat)
    requires t <= 31
    ensures Pow2(t) < Pow2(64) && low == Wrap32(Neg(64, Pow2(t))) && low < Pow2(32)
    ensures forall i: nat :: i < 32 ==> Bit(low, i) == (i >= t)
  {
    var p := Pow2(t);
    Pow2Values();
    Pow2Monotone(t, 31);
    NegLow(p);
    low := TWO32 - p;
    forall i: nat | i < 32 ensures Bit(low, i) == (i >= t) { BitFrom(t, low, i); }
  }

  lemma NegLow(p: nat)
    requires 0 < p < TWO32
    ensures p < Pow2(64) && Wrap32(Neg(64, p)) == TWO32 - p
  {
    Pow2Values();
    NegValue(64, p);
    DivUnique(TWO64 - p, TWO32, TWO32 - 1, TWO32 - p);
  }

  lemma BitFrom(t: nat, low: nat, i: nat)
    requires t <= 31 && low == TWO32 - Pow2(t) && i < 32
    ensures Bit(low, i) == (i >= t)
  {
    assert Pow2(t) < Pow2(32) && low == Not(32, Pow2(t) - 1) by {
      Pow2Values();
      Pow2Monotone(t, 31);
    }
    BitNot(32, Pow2(t) - 1, i);
    BitLowMask(t, i);
  }

  /** The lowest set bit of a round-up multiplier never exceeds `p`. */
  lemma LowBitBelowP(b: nat, p: nat, m: nat, e: nat) returns (t: nat)
    requires Divisor(b, p) && RoundsUp(m, b, p, e)
    ensures m > 0 && LowBit(m) == Pow2(t) && t <= Log2(p)
  {
    assert m > 0;
    var odd;
    odd, t := LowBitForm(m);
    if t > Log2(p) {
      Pow2Add(t - Log2(p) - 1, Log2(p) + 1);
      HighMultiple(odd, Pow2(t - Log2(p) - 1), p, b, e);
    }
  }

  lemma HighMultiple(odd: nat, c: nat, p: nat, b: nat, e: nat)
    requires p > 0 && 0 < e < 2 * p
    ensures (odd * (c * (2 * p))) * b != p * TWO64 + e
  {
    var g := odd * c * b - TWO63;
    assert (odd * (c * (2 * p))) * b - p * TWO64 == g * (2 * p);
    if g >= 1 {
      MulGe(g, 2 * p);
    } else {
      assert (-g) * (2 * p) >= 0;
    }
  }

  /** The reduction of `m / p`: both shrink by the same power of two, exactly, and `p` stays positive.
      Whenever some shift can clear bits 31 and 63, the result has them clear. */
  method Reduce(m: nat, p: nat, ghost t: nat) returns (m': nat, p': nat, ghost k: nat)
    requires 0 < m < TWO64 && IsPow2(p) && Word32(p)
    requires LowBit(m) == Pow2(t) && t <= Log2(p)
    ensures m == m' * Pow2(k) && p == p' * Pow2(k) && p' > 0 && Word64(m')
    ensures MayOverflow(m') ==> forall i: nat :: 32 <= i <= 31 + t ==> Bit(m, i)
  {
    Pow2Values();
    ghost var small := ShortShift(p);
    var bits := ReductionBits(m);
    BitsMark(m, t);
    if bits == 0 {
      AndNeg(64, m);
      k := t;
      var low := And(m, Neg(64, m));
      m', p' := Quotient(m, low), Quotient(p, low);
      NoShift(m, t, bits);
    } else {
      k := Log2(bits);
      m', p' := Shr(m, Log2(bits)), Shr(p, Log2(bits));
      BestShift(m, t, bits);
    }
    ExactShift(m, t, k);
    ExactShiftP(p, k);
  }

  lemma ShortShift(p: nat) returns (j: nat)
    requires IsPow2(p) && Word32(p)
    ensures j == Log2(p) && j <= 31
  {
    Pow2Values();
    j := Log2(p);
    if j >= 32 { Pow2Monotone(32, j); }
  }

  /** What the bits of `___bits` say. */
  ghost predicate Marks(bits: nat, m: nat, t: nat) {
    forall k: nat :: Bit(bits, k) <==> 1 <= k <= t && !Bit(m, 31 + k)
  }

  lemma BitsMark(m: nat, t: nat)
    requires 0 < m < TWO64 && LowBit(m) == Pow2(t) && t <= 31
    ensures Marks(ReductionBits(m), m, t)
  {
    forall k: nat ensures Bit(ReductionBits(m), k) <==> 1 <= k <= t && !Bit(m, 31 + k) { ReductionBit(m, t, k); }
  }

  lemma NoShift(m: nat, t: nat, bits: nat)
    requires Marks(bits, m, t) && bits == 0
    ensures forall i: nat :: 32 <= i <= 31 + t ==> Bit(m, i)
  {
    forall i: nat | 32 <= i <= 31 + t ensures Bit(m, i) {
      assert Bit(bits, i - 31) <==> !Bit(m, 31 + (i - 31));
      BitZero(i - 31);
    }
  }

  lemma BestShift(m: nat, t: nat, bits: nat)
    requires 0 < m < TWO64 && LowBit(m) == Pow2(t) && t <= 31
    requires Marks(bits, m, t) && bits != 0
    ensures var k := Log2(bits); 1 <= k <= t && !MayOverflow(Shr(m, k))
  {
    BitLog2(bits);
    ShiftClears(m, Log2(bits));
  }

  lemma ExactShift(m: nat, t: nat, k: nat)
    requires m > 0 && LowBit(m) == Pow2(t) && k <= t
    ensures m == Shr(m, k) * Pow2(k) && Shr(m, k) <= m
  {
    var odd, t' := LowBitForm(m);
    Pow2Add(t - k, k);
    Exactly(m, odd, Pow2(t - k), Pow2(k));
  }

  lemma ExactShiftP(p: nat, k: nat)
    requires IsPow2(p) && k <= Log2(p)
    ensures p == Shr(p, k) * Pow2(k) && Shr(p, k) > 0
  {
    Pow2Add(Log2(p) - k, k);
    Exactly(p, 1, Pow2(Log2(p) - k), Pow2(k));
  }

  lemma Exactly(m: nat, odd: nat, c: nat, d: nat)
    requires d > 0 && m == odd * (c * d)
    ensures m / d == odd * c && m == m / d * d && m / d <= m
  {
    assert m == (odd * c) * d + 0;
    DivUnique(m, d, odd * c, 0);
    if odd * c > 0 { MulGe(d, odd * c); }
  }

  lemma ShiftClears(m: nat, k: nat)
    requires Word64(m) && k >= 1 && !Bit(m, 31 + k)
    ensures Word64(Shr(m, k)) && !MayOverflow(Shr(m, k))
  {
    Pow2Values();
    var m', r := DivMod(m, Pow2(k));
    MersenneBounds(m', Pow2(k), 0, 1);
    BitShr(m, k, 31);
    BitShr(m, k, 63);
    Pow2Monotone(64, 63 + k);
    BitHigh(m, 63 + k);
    ClearBits(m');
  }

  lemma ClearBits(m: nat)
    requires Word64(m) && !Bit(m, 31) && !Bit(m, 63)
    ensures !MayOverflow(m)
  {
    Pow2Values();
    TopBit(m, 63);
    TopBit(m % TWO32, 31);
    BitMod(m, 32, 31);
    MayOverflowBits(m);
  }

  /** Reducing by a common power of two does not change the quotient. */
  lemma ReductionPreserves(m: nat, p: nat, m': nat, p': nat, c: nat, n: nat)
    requires c > 0 && p' > 0 && m == m' * c && p == p' * c
    ensures p > 0 && m' * n / TWO64 / p' == Scaled(m, n, p)
  {
    MulGe(p', c);
    DivDiv(m' * n, TWO64, p');
    DivCancel(m' * n, p' * TWO64, c);
    assert c * (m' * n) == m * n;
    assert c * (p' * TWO64) == p * TWO64;
  }

  // ---------- the division itself ----------

  /** Lines 79-84: the high word of `m * x`, written with the overflow-safe carry. */
  method TestProduct(m: nat, x: nat) returns (res: nat)
    requires Word64(m) && Word64(x)
    ensures res == m * x / TWO64
  {
    var mLo, mHi, xLo, xHi := Wrap32(m), m / TWO32, Wrap32(x), x / TWO32;
    ghost var high := (0 + m * x) / TWO64;
    assert high == ColumnSum(m, x, 0) by { Schoolbook(m, x, 0); }
    assert high < TWO64 by { HighWordFits(m, x, 0); }
    CrossBounds(mLo, mHi, xLo, xHi, TWO32 - 1);
    res := AddColumns(m, Mul32(mLo, xLo), Mul32(mLo, xHi), Mul32(mHi, xLo), Mul32(mHi, xHi), false, true);
  }

  /** What the final multiplication yields: `((bias ? m : 0) + m * n) >> 64`, divided by `p`. */
  function Outcome(m: nat, n: nat, p: nat, bias: bool): nat
    requires p > 0
  {
    (BiasOf(m, bias) + m * n) / TWO64 / p
  }

  /** `__div64_const32` up to line 131: the choice among the three schemes. Each is exact. */
  method ChooseScheme(n: nat, b: nat) returns (m: nat, p: nat, bias: bool, n': nat)
    requires Word64(n) && 0 < b && Word32(b) && !IsPow2(b)
    ensures Word64(m) && Word64(n') && p > 0
    ensures Outcome(m, n', p, bias) == n / b
  {
    n', p := n, Shl(32, 1, Log2(b));
    DivisorOf(b);
    m := MultiplierUp(b, p);
    ghost var e, f := Multipliers(b, p);
    var passed := TestScheme(m, b, p);
    var low := LowestBit(b);
    if ALL_ONES % Quotient(b, low) == 0 {
      n' := Quotient(n, low);
      m := Quotient(ALL_ONES, Quotient(b, low));
      p := 1;
      bias := true;
      MersenneOutcome(n, b, low);
    } else if !passed {
      bias := true;
      BiasedOutcome(n, b, p, e, f);
      m := MultiplierDown(b, p);
    } else {
      ghost var t := LowBitBelowP(b, p, m, e);
      ghost var m0, p0 := m, p;
      ghost var k;
      m, p, k := Reduce(m, p, t);
      UnbiasedOutcome(n, b, m0, p0, e, m, p, Pow2(k));
      bias := false;
    }
  }

  /** Lines 75-94: does the round-up multiplier survive the worst dividend? */
  method TestScheme(m: nat, b: nat, p: nat) returns (passed: bool)
    requires Word64(m) && 1 < b < TWO32 && p > 0
    ensures passed == (Scaled(m, Worst(b), p) == Worst(b) / b)
  {
    var x := Worst(b);
    ghost var q := WorstForm(b);
    var res := TestProduct(m, x);
    DivDiv(m * x, TWO64, p);
    passed := Quotient(res, p) == Quotient(x, b);
  }

  /** `b & -b`. */
  method LowestBit(b: nat) returns (low: nat)
    requires 0 < b && Word32(b)
    ensures low > 0 && Quotient(b, low) > 0 && b == Quotient(b, low) * low
  {
    Pow2Values();
    AndNeg(32, b);
    low := And(b, Neg(32, b));
    ghost var odd, k := LowBitForm(b);
    DivUnique(b, Pow2(k), odd, 0);
  }

  lemma BiasedOutcome(n: nat, b: nat, p: nat, e: nat, f: nat)
    requires Word64(n) && Divisor(b, p) && e + f == b
    requires RoundsUp(MultiplierUp(b, p), b, p, e) && RoundsDown(MultiplierDown(b, p), b, p, f)
    requires Scaled(MultiplierUp(b, p), Worst(b), p) != Worst(b) / b
    ensures Outcome(MultiplierDown(b, p), n, p, true) == n / b
  {
    FailureBoundsError(b, p, MultiplierUp(b, p), e);
    BiasedQuotient(n, b, p, f, MultiplierDown(b, p));
  }

  lemma BiasedQuotient(n: nat, b: nat, p: nat, f: nat, m: nat)
    requires Divisor(b, p) && RoundsDown(m, b, p, f) && f <= p && Word64(n)
    ensures Outcome(m, n, p, true) == n / b
  {
    BiasedExact(b, p, m, f, n);
    ShiftTwice(m + m * n, p);
  }

  lemma ShiftTwice(x: nat, p: nat)
    requires p > 0
    ensures x / TWO64 / p == x / (p * TWO64)
  {
    DivDiv(x, TWO64, p);
    assert TWO64 * p == p * TWO64;
  }

  lemma UnbiasedOutcome(n: nat, b: nat, m: nat, p: nat, e: nat, m': nat, p': nat, c: nat)
    requires Word64(n) && Divisor(b, p) && RoundsUp(m, b, p, e)
    requires Scaled(m, Worst(b), p) == Worst(b) / b
    requires c > 0 && p' > 0 && m == m' * c && p == p' * c
    ensures Outcome(m', n, p', false) == n / b
  {
    TestSuffices(b, p, m, e, n);
    ReductionPreserves(m, p, m', p', c, n);
  }

  /** The special scheme divides by the power of two first. */
  lemma MersenneOutcome(n: nat, b: nat, low: nat)
    requires Word64(n) && low > 0 && Quotient(b, low) > 0 && b == Quotient(b, low) * low
    requires ALL_ONES % Quotient(b, low) == 0
    ensures var m := Quotient(ALL_ONES, Quotient(b, low));
            Word64(m) && Word64(Quotient(n, low)) && b > 0 && Outcome(m, Quotient(n, low), 1, true) == n / b
  {
    var c := Quotient(b, low);
    var m, r := DivMod(ALL_ONES, c);
    var h, r' := DivMod(n, low);
    MersenneBounds(m, c, h, low);
    MersenneExact(c, m, h);
    DivDiv(n, low, c);
  }

  lemma MersenneBounds(m: nat, c: nat, h: nat, low: nat)
    requires c > 0 && low > 0
    ensures m <= m * c && h <= h * low && c * low > 0
  {
    assert m * c == m + m * (c - 1) && h * low == h + h * (low - 1);
  }

  /** `__div64_const32`: exact division by any 32-bit constant that is not a power of two. */
  method DivConst32(n: nat, b: nat) returns (res: nat)
    requires Word64(n) && 0 < b && Word32(b) && !IsPow2(b)
    ensures res == n / b
  {
    var m, p, bias, n' := ChooseScheme(n, b);
    res := XProd64(m, n', bias);
    res := Quotient(res, p);
  }

  /** `do_div` on a 32-bit machine: replaces `n` by the quotient and returns the remainder.
      `constant` is what `__builtin_constant_p` answers; `slow` stands for the extern `__div64_32`. */
  method DoDiv(n: nat, base: nat, constant: bool, slow: (nat, nat) -> (nat, nat)) returns (n': nat, rem: nat)
    requires Word64(n) && 0 < base && Word32(base)
    ensures constant || Word32(n) ==> n' == n / base && rem == n % base
    ensures !constant && !Word32(n) ==> (n', rem) == slow(n, base)
  {
    if constant && And(base, base - 1) == 0 {
      PowerOfTwoTest(base);
      AndLowMask(n, Log2(base));
      rem := And(n, base - 1);
      n' := Shr(n, Log2(base));
    } else if constant {
      PowerOfTwoTest(base);
      n' := DivConst32(n, base);
      rem := Remainder32(Wrap32(n), Wrap32(n'), base);
      LowWordRemainder(n, n', base);
    } else if n / TWO32 == 0 {
      rem := Wrap32(n) % base;
      n' := Quotient(Wrap32(n), base);
    } else {
      var r := slow(n, base);
      n', rem := r.0, r.1;
    }
  }

  /** `__n_lo - __res_lo * __base` in 32-bit registers. */
  function Remainder32(nLo: nat, resLo: nat, base: nat): nat {
    (nLo - resLo * base) % TWO32
  }

  /** `is_power_of_2`: `x & (x - 1)` is zero. */
  lemma {:induction false} PowerOfTwoTest(x: nat)
    requires x > 0
    ensures And(x, x - 1) == 0 <==> IsPow2(x)
  {
    if x == 1 {
      Log2Pow2(0);
    } else if x % 2 == 1 {
      OddNotPower(x);
    } else {
      PowerOfTwoTest(x / 2);
      EvenTest(x / 2);
    }
  }

  lemma OddNotPower(x: nat)
    requires x > 1 && x % 2 == 1
    ensures And(x, x - 1) != 0 && !IsPow2(x)
  {
    assert And(x, x - 1) == 2 * And(x / 2, x / 2);
    var k := Log2(x / 2);
    BitLog2(x / 2);
    BitAnd(x / 2, x / 2, k);
    BitZero(k);
    assert Pow2(Log2(x)) == 2 * Pow2(k);
  }

  lemma EvenTest(h: nat)
    requires h > 0
    ensures And(2 * h, 2 * h - 1) == 2 * And(h, h - 1)
    ensures IsPow2(2 * h) <==> IsPow2(h)
  {
    assert (2 * h - 1) / 2 == h - 1;
    assert Pow2(Log2(2 * h)) == 2 * Pow2(Log2(h));
  }

  lemma LowWordRemainder(n: nat, q: nat, base: nat)
    requires 0 < base && Word32(base) && q == n / base
    ensures Remainder32(Wrap32(n), Wrap32(q), base) == n % base
  {
    var q', r := DivMod(n, base);
    var nHi, qHi := n / TWO32, q / TWO32;
    assert Wrap32(n) - Wrap32(q) * base == r + (qHi * base - nHi) * TWO32 by {
      assert q * base == (qHi * TWO32 + Wrap32(q)) * base;
      assert n == nHi * TWO32 + Wrap32(n);
    }
    ModShift(r, qHi * base - nHi);
  }

  lemma ModShift(r: nat, k: int)
    requires r < TWO32
    ensures (r + k * TWO32) % TWO32 == r
  {
  }
}
