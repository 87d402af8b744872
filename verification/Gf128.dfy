/** Multiplication by X in GF(2^128), the polynomials over GF(2) modulo X^128 + X^7 + X^2 + X + 1, on two
    64-bit words in host byte order. */
module Gf128 {
  import opened Bits

  datatype Element = Element(a: nat, b: nat) {
    predicate Valid() { a < Pow2(64) && b < Pow2(64) }
  }

  // ---------- the code ----------

  /** `(s64)x >> 63`. */
  function SignMask(x: nat): nat { if Bit(x, 63) then Pow2(64) - 1 else 0 }

  /** `gf128mul_mask_from_bit`. */
  function MaskFromBit(x: nat, which: nat): nat
    requires which < 64
  {
    SignMask(Shl(64, x, 63 - which))
  }

  /** `gf128mul_x_lle`. */
  function XLle(x: Element): Element {
    var tt := And(MaskFromBit(x.b, 0), Shl(64, 0xe1, 56));
    Element(Xor(Shr(x.a, 1), tt), Or(Shr(x.b, 1), Shl(64, x.a, 63)))
  }

  /** `gf128mul_x_bbe`, and `gf128mul_x_ble`, which differs from it in the byte order of memory only. */
  function XBbe(x: Element): Element {
    var tt := And(MaskFromBit(x.a, 63), 0x87);
    Element(Or(Shl(64, x.a, 1), Shr(x.b, 63)), Xor(Shl(64, x.b, 1), tt))
  }

  /** The bit orders: in `Lle` the most significant bit of `a` is the coefficient of X^0, in `Bbe` the
      least significant bit of `b` is. */
  datatype Order = Lle | Bbe

  function MulX(o: Order, x: Element): Element { if o == Lle then XLle(x) else XBbe(x) }

  function Coef(o: Order, x: Element, i: nat): bool
    requires i < 128
  {
    if o == Lle then (if i < 64 then Bit(x.a, 63 - i) else Bit(x.b, 127 - i))
    else (if i < 64 then Bit(x.b, i) else Bit(x.a, i - 64))
  }

  // ---------- polynomials as sets of exponents ----------

  type Poly = set<nat>

  function PolyOf(o: Order, x: Element): Poly { set i | 0 <= i < 128 && Coef(o, x, i) }

  function TimesX(p: Poly): Poly { set i | i in p :: i + 1 }

  function At(p: Poly, i: int): bool { i >= 0 && i in p }

  function Plus(a: bool, b: bool): bool { a != b }

  /** The coefficient of X^i in `m` times X^128 + X^7 + X^2 + X + 1. */
  function TimesField(m: Poly, i: nat): bool {
    Plus(At(m, i - 128), Plus(At(m, i - 7), Plus(At(m, i - 2), Plus(At(m, i - 1), At(m, i)))))
  }

  /** `p` and `q` differ by `m` times the field polynomial. */
  ghost predicate DifferBy(p: Poly, q: Poly, m: Poly) {
    forall i: nat :: Plus(i in p, i in q) == TimesField(m, i)
  }

  ghost predicate Congruent(p: Poly, q: Poly) { exists m :: DifferBy(p, q, m) }

  predicate Reduced(p: Poly) { forall i :: i in p ==> i < 128 }

  lemma {:induction false} Largest(m: Poly) returns (d: nat)
    requires m != {}
    ensures d in m && forall i :: i in m ==> i <= d
  {
    var x :| x in m;
    if m == {x} {
      d := x;
    } else {
      var e := Largest(m - {x});
      d := if x > e then x else e;
      forall i | i in m ensures i <= d { assert i == x || i in m - {x}; }
    }
  }

  /** A residue class has one polynomial of degree below 128. */
  lemma RemainderUnique(p: Poly, q: Poly)
    requires Congruent(p, q) && Reduced(p) && Reduced(q)
    ensures p == q
  {
    var m :| DifferBy(p, q, m);
    if m != {} {
      var d := Largest(m);
      assert TimesField(m, d + 128);
    } else {
      forall i: nat ensures i in p <==> i in q {
        assert Plus(i in p, i in q) == TimesField(m, i);
      }
    }
  }

  function Sum(p: Poly, q: Poly): Poly { (p - q) + (q - p) }

  lemma SumTimesField(m: Poly, n: Poly, i: nat)
    ensures TimesField(Sum(m, n), i) == Plus(TimesField(m, i), TimesField(n, i))
  {
  }

  lemma CongruentTransitive(p: Poly, q: Poly, r: Poly)
    requires Congruent(p, q) && Congruent(q, r)
    ensures Congruent(p, r)
  {
    var m :| DifferBy(p, q, m);
    var n :| DifferBy(q, r, n);
    forall i: nat ensures Plus(i in p, i in r) == TimesField(Sum(m, n), i) {
      assert Plus(i in p, i in q) == TimesField(m, i) && Plus(i in q, i in r) == TimesField(n, i);
      SumTimesField(m, n, i);
    }
    assert DifferBy(p, r, Sum(m, n));
  }

  lemma TimesXAt(p: Poly, i: nat)
    ensures i in TimesX(p) <==> At(p, i - 1)
  {
    if At(p, i - 1) { assert i - 1 in p && (i - 1) + 1 in TimesX(p); }
  }

  lemma TimesXTimesField(m: Poly, i: nat)
    ensures TimesField(TimesX(m), i) == (i > 0 && TimesField(m, i - 1))
  {
    TimesXAt(m, i);
    if i >= 1 { TimesXAt(m, i - 1); }
    if i >= 2 { TimesXAt(m, i - 2); }
    if i >= 7 { TimesXAt(m, i - 7); }
    if i >= 128 { TimesXAt(m, i - 128); }
  }

  lemma CongruentTimesX(p: Poly, q: Poly)
    requires Congruent(p, q)
    ensures Congruent(TimesX(p), TimesX(q))
  {
    var m :| DifferBy(p, q, m);
    forall i: nat ensures Plus(i in TimesX(p), i in TimesX(q)) == TimesField(TimesX(m), i) {
      TimesXAt(p, i);
      TimesXAt(q, i);
      TimesXTimesField(m, i);
      if i > 0 { assert Plus(i - 1 in p, i - 1 in q) == TimesField(m, i - 1); }
    }
    assert DifferBy(TimesX(p), TimesX(q), TimesX(m));
  }

  // ---------- the code multiplies by X ----------

  lemma MaskIsBit(x: nat, which: nat)
    requires which < 64
    ensures MaskFromBit(x, which) == if Bit(x, which) then Pow2(64) - 1 else 0
  {
    BitShl(64, x, 63 - which, 63);
  }

  /** A constant behind the mask of bit `which` of `x`. */
  lemma BitMasked(x: nat, which: nat, c: nat, j: nat)
    requires which < 64 && j < 64
    ensures Bit(And(MaskFromBit(x, which), c), j) == (Bit(x, which) && Bit(c, j))
  {
    MaskIsBit(x, which);
    BitAnd(MaskFromBit(x, which), c, j);
    BitLowMask(64, j);
    BitZero(j);
  }

  lemma Bits87(j: nat)
    ensures Bit(0x87, j) <==> j == 0 || j == 1 || j == 2 || j == 7
  {
    if j >= 8 {
      Pow2Values();
      Pow2Monotone(8, j);
      BitHigh(0x87, j);
    } else {
      assert Bit(0x87, 0) && Bit(0x87, 1) && Bit(0x87, 2) && !Bit(0x87, 3);
      assert !Bit(0x87, 4) && !Bit(0x87, 5) && !Bit(0x87, 6) && Bit(0x87, 7);
    }
  }

  lemma BitsE1(j: nat)
    requires j < 64
    ensures Bit(Shl(64, 0xe1, 56), j) <==> j == 63 || j == 62 || j == 61 || j == 56
  {
    BitShl(64, 0xe1, 56, j);
    assert Bit(0xe1, 0) && !Bit(0xe1, 1) && !Bit(0xe1, 2) && !Bit(0xe1, 3);
    assert !Bit(0xe1, 4) && Bit(0xe1, 5) && Bit(0xe1, 6) && Bit(0xe1, 7);
  }

  /** The exponents below 128 of the field polynomial. */
  predicate Tap(i: nat) { i == 0 || i == 1 || i == 2 || i == 7 }

  lemma LleStepA(x: Element, i: nat)
    requires x.Valid() && i < 64
    ensures Bit(XLle(x).a, 63 - i) == Plus(i > 0 && Bit(x.a, 64 - i), Bit(x.b, 0) && Tap(i))
  {
    var j := 63 - i;
    BitXor(Shr(x.a, 1), And(MaskFromBit(x.b, 0), Shl(64, 0xe1, 56)), j);
    BitShr(x.a, 1, j);
    BitMasked(x.b, 0, Shl(64, 0xe1, 56), j);
    BitsE1(j);
    BitHigh(x.a, 64);
  }

  lemma LleStepB(x: Element, j: nat)
    requires x.Valid() && j < 64
    ensures Bit(XLle(x).b, j) == if j < 63 then Bit(x.b, j + 1) else Bit(x.a, 0)
  {
    BitOr(Shr(x.b, 1), Shl(64, x.a, 63), j);
    BitShr(x.b, 1, j);
    BitShl(64, x.a, 63, j);
    BitHigh(x.b, 64);
  }

  lemma LleStep(x: Element, i: nat)
    requires x.Valid() && i < 128
    ensures Coef(Lle, XLle(x), i) == Plus(i > 0 && Coef(Lle, x, i - 1), Coef(Lle, x, 127) && Tap(i))
  {
    if i < 64 { LleStepA(x, i); } else { LleStepB(x, 127 - i); }
  }

  lemma BbeStep(x: Element, i: nat)
    requires x.Valid() && i < 128
    ensures Coef(Bbe, XBbe(x), i) == Plus(i > 0 && Coef(Bbe, x, i - 1), Coef(Bbe, x, 127) && Tap(i))
  {
    if i < 64 {
      BitXor(Shl(64, x.b, 1), And(MaskFromBit(x.a, 63), 0x87), i);
      BitShl(64, x.b, 1, i);
      BitMasked(x.a, 63, 0x87, i);
      Bits87(i);
    } else {
      var j := i - 64;
      BitOr(Shl(64, x.a, 1), Shr(x.b, 63), j);
      BitShl(64, x.a, 1, j);
      BitShr(x.b, 63, j);
      if j > 0 {
        Pow2Monotone(64, j + 63);
        BitHigh(x.b, j + 63);
      }
    }
  }

  /** Each routine shifts the coefficients up and folds X^128 back into the taps. */
  lemma MulXStep(o: Order, x: Element, i: nat)
    requires x.Valid() && i < 128
    ensures Coef(o, MulX(o, x), i) == Plus(i > 0 && Coef(o, x, i - 1), Coef(o, x, 127) && Tap(i))
  {
    if o == Lle { LleStep(x, i); } else { BbeStep(x, i); }
  }

  lemma MulXValid(o: Order, x: Element)
    requires x.Valid()
    ensures MulX(o, x).Valid()
  {
    Pow2Values();
    if o == Lle {
      var c := Shl(64, 0xe1, 56);
      AndBelow(MaskFromBit(x.b, 0), c, 64);
      ShrBelow(x.a, 1, 64);
      ShrBelow(x.b, 1, 64);
      XorBelow(Shr(x.a, 1), And(MaskFromBit(x.b, 0), c), 64);
      OrBelow(Shr(x.b, 1), Shl(64, x.a, 63), 64);
    } else {
      AndBelow(MaskFromBit(x.a, 63), 0x87, 64);
      ShrBelow(x.b, 63, 64);
      OrBelow(Shl(64, x.a, 1), Shr(x.b, 63), 64);
      XorBelow(Shl(64, x.b, 1), And(MaskFromBit(x.a, 63), 0x87), 64);
    }
  }

  /** One call multiplies by X modulo the field polynomial. */
  lemma MulXCongruent(o: Order, x: Element)
    requires x.Valid()
    ensures Congruent(TimesX(PolyOf(o, x)), PolyOf(o, MulX(o, x)))
  {
    var p, r := PolyOf(o, x), PolyOf(o, MulX(o, x));
    var m: Poly := if Coef(o, x, 127) then {0} else {};
    forall i: nat ensures Plus(i in TimesX(p), i in r) == TimesField(m, i) { MulXAt(o, x, i); }
    assert DifferBy(TimesX(p), r, m);
  }

  /** The field polynomial itself: X^128 and the taps. */
  lemma FieldTaps(i: nat)
    ensures TimesField({0}, i) == (i == 128 || Tap(i)) && !TimesField({}, i)
  {
  }

  lemma MulXAt(o: Order, x: Element, i: nat)
    requires x.Valid()
    ensures Plus(i in TimesX(PolyOf(o, x)), i in PolyOf(o, MulX(o, x))) == TimesField(if Coef(o, x, 127) then {0} else {}, i)
  {
    TimesXAt(PolyOf(o, x), i);
    FieldTaps(i);
    if i < 128 {
      MulXStep(o, x, i);
    } else {
      assert i !in PolyOf(o, MulX(o, x));
      assert At(PolyOf(o, x), i - 1) <==> i == 128 && Coef(o, x, 127);
    }
  }

  function Iterate(o: Order, x: Element, k: nat): Element {
    if k == 0 then x else MulX(o, Iterate(o, x, k - 1))
  }

  function TimesXPower(p: Poly, k: nat): Poly {
    if k == 0 then p else TimesX(TimesXPower(p, k - 1))
  }

  /** `k` calls multiply by X^k: the result is the one polynomial of degree below 128 in its class. */
  lemma {:induction false} IterateMultiplies(o: Order, x: Element, k: nat)
    requires x.Valid()
    ensures Iterate(o, x, k).Valid() && Reduced(PolyOf(o, Iterate(o, x, k)))
    ensures Congruent(TimesXPower(PolyOf(o, x), k), PolyOf(o, Iterate(o, x, k)))
  {
    if k == 0 {
      assert DifferBy(PolyOf(o, x), PolyOf(o, x), {});
    } else {
      var y := Iterate(o, x, k - 1);
      IterateMultiplies(o, x, k - 1);
      MulXValid(o, y);
      MulXCongruent(o, y);
      CongruentTimesX(TimesXPower(PolyOf(o, x), k - 1), PolyOf(o, y));
      CongruentTransitive(TimesXPower(PolyOf(o, x), k), TimesX(PolyOf(o, y)), PolyOf(o, MulX(o, y)));
    }
  }

  // ---------- linear, invertible, and one order the mirror of the other ----------

  lemma CoefsEqual(o: Order, x: Element, y: Element)
    requires x.Valid() && y.Valid() && forall i: nat :: i < 128 ==> Coef(o, x, i) == Coef(o, y, i)
    ensures x == y
  {
    forall j: nat ensures Bit(x.a, j) == Bit(y.a, j) && Bit(x.b, j) == Bit(y.b, j) {
      if j < 64 {
        if o == Lle {
          assert Coef(o, x, 63 - j) == Coef(o, y, 63 - j) && Coef(o, x, 127 - j) == Coef(o, y, 127 - j);
        } else {
          assert Coef(o, x, j) == Coef(o, y, j) && Coef(o, x, 64 + j) == Coef(o, y, 64 + j);
        }
      } else {
        Pow2Monotone(64, j);
        BitHigh(x.a, j);
        BitHigh(y.a, j);
        BitHigh(x.b, j);
        BitHigh(y.b, j);
      }
    }
    BitsEqual(x.a, y.a);
    BitsEqual(x.b, y.b);
  }

  /** `u128_xor`. */
  function Add(x: Element, y: Element): Element { Element(Xor(x.a, y.a), Xor(x.b, y.b)) }

  lemma CoefAdd(o: Order, x: Element, y: Element, i: nat)
    requires i < 128
    ensures Coef(o, Add(x, y), i) == Plus(Coef(o, x, i), Coef(o, y, i))
  {
    var j := if o == Lle then (if i < 64 then 63 - i else 127 - i) else (if i < 64 then i else i - 64);
    BitXor(x.a, y.a, j);
    BitXor(x.b, y.b, j);
  }

  lemma AddValid(x: Element, y: Element)
    requires x.Valid() && y.Valid()
    ensures Add(x, y).Valid()
  {
    XorBelow(x.a, y.a, 64);
    XorBelow(x.b, y.b, 64);
  }

  lemma LinearAt(o: Order, x: Element, y: Element, i: nat)
    requires x.Valid() && y.Valid() && Add(x, y).Valid() && i < 128
    ensures Coef(o, MulX(o, Add(x, y)), i) == Coef(o, Add(MulX(o, x), MulX(o, y)), i)
  {
    CoefAdd(o, MulX(o, x), MulX(o, y), i);
    MulXStep(o, x, i);
    MulXStep(o, y, i);
    MulXStep(o, Add(x, y), i);
    CoefAdd(o, x, y, 127);
    if i > 0 { CoefAdd(o, x, y, i - 1); }
  }

  lemma Linear(o: Order, x: Element, y: Element)
    requires x.Valid() && y.Valid()
    ensures MulX(o, Add(x, y)) == Add(MulX(o, x), MulX(o, y))
  {
    AddValid(x, y);
    MulXValid(o, x);
    MulXValid(o, y);
    MulXValid(o, Add(x, y));
    AddValid(MulX(o, x), MulX(o, y));
    var lhs, rhs := MulX(o, Add(x, y)), Add(MulX(o, x), MulX(o, y));
    forall i: nat | i < 128 ensures Coef(o, lhs, i) == Coef(o, rhs, i) { LinearAt(o, x, y, i); }
    CoefsEqual(o, lhs, rhs);
  }

  /** The element with the given coefficients. */
  lemma {:induction false} WordWith(f: nat -> bool, from: nat, w: nat) returns (x: nat)
    ensures x < Pow2(w) && forall j: nat :: j < w ==> Bit(x, j) == f(from + j)
    decreases w
  {
    if w == 0 {
      x := 0;
    } else {
      var y := WordWith(f, from + 1, w - 1);
      x := 2 * y + if f(from) then 1 else 0;
      forall j: nat | j < w ensures Bit(x, j) == f(from + j) {
        if j > 0 { assert Bit(x, j) == Bit(y, j - 1) == f(from + 1 + (j - 1)); }
      }
    }
  }

  /** The same with the bits in reverse. */
  lemma {:induction false} WordWithReversed(f: nat -> bool, to: nat, w: nat) returns (x: nat)
    requires w <= to + 1
    ensures x < Pow2(w) && forall j: nat :: j < w ==> Bit(x, j) == f(to - j)
  {
    if w == 0 {
      x := 0;
    } else if w == 1 {
      x := if f(to) then 1 else 0;
    } else {
      var y := WordWithReversed(f, to - 1, w - 1);
      x := 2 * y + if f(to) then 1 else 0;
      forall j: nat | j < w ensures Bit(x, j) == f(to - j) {
        if j > 0 { assert Bit(x, j) == Bit(y, j - 1) == f(to - 1 - (j - 1)); }
      }
    }
  }

  /** Multiplication by X is a bijection of the field elements: `x` is the only preimage, and there is one. */
  lemma Invertible(o: Order, y: Element) returns (x: Element)
    requires y.Valid()
    ensures x.Valid() && MulX(o, x) == y
    ensures forall z: Element :: z.Valid() && MulX(o, z) == y ==> z == x
  {
    var f := (i: nat) => if i < 127 then Plus(Coef(o, y, i + 1), Coef(o, y, 0) && Tap(i + 1)) else Coef(o, y, 0);
    x := ElementWith(o, f);
    MulXIs(o, x, y);
    forall z: Element | z.Valid() && MulX(o, z) == y ensures z == x {
      Injective(o, z, x);
    }
  }

  lemma MulXIs(o: Order, x: Element, y: Element)
    requires x.Valid() && y.Valid()
    requires forall i: nat :: i < 128 ==>
               Coef(o, x, i) == if i < 127 then Plus(Coef(o, y, i + 1), Coef(o, y, 0) && Tap(i + 1)) else Coef(o, y, 0)
    ensures MulX(o, x) == y
  {
    MulXValid(o, x);
    forall i: nat | i < 128 ensures Coef(o, MulX(o, x), i) == Coef(o, y, i) { MulXStep(o, x, i); }
    CoefsEqual(o, MulX(o, x), y);
  }

  lemma Injective(o: Order, x: Element, y: Element)
    requires x.Valid() && y.Valid() && MulX(o, x) == MulX(o, y)
    ensures x == y
  {
    MulXStep(o, x, 0);
    MulXStep(o, y, 0);
    forall i: nat | i < 128 ensures Coef(o, x, i) == Coef(o, y, i) {
      if i < 127 {
        MulXStep(o, x, i + 1);
        MulXStep(o, y, i + 1);
      }
    }
    CoefsEqual(o, x, y);
  }

  lemma ElementWith(o: Order, f: nat -> bool) returns (x: Element)
    ensures x.Valid() && forall i: nat :: i < 128 ==> Coef(o, x, i) == f(i)
  {
    if o == Lle { x := LleWith(f); } else { x := BbeWith(f); }
  }

  lemma LleWith(f: nat -> bool) returns (x: Element)
    ensures x.Valid() && forall i: nat :: i < 128 ==> Coef(Lle, x, i) == f(i)
  {
    var a := WordWithReversed(f, 63, 64);
    var b := WordWithReversed(f, 127, 64);
    x := Element(a, b);
  }

  lemma BbeWith(f: nat -> bool) returns (x: Element)
    ensures x.Valid() && forall i: nat :: i < 128 ==> Coef(Bbe, x, i) == f(i)
  {
    var a := WordWith(f, 64, 64);
    var b := WordWith(f, 0, 64);
    x := Element(a, b);
  }

  /** The `w` low bits of `x`, in reverse order. */
  function Reversed(w: nat, x: nat): nat {
    if w == 0 then 0 else (x % 2) * Pow2(w - 1) + Reversed(w - 1, x / 2)
  }

  lemma {:induction false} ReversedBelow(w: nat, x: nat)
    ensures Reversed(w, x) < Pow2(w)
  {
    if w > 0 { ReversedBelow(w - 1, x / 2); }
  }

  lemma {:induction false} BitReversed(w: nat, x: nat, i: nat)
    requires i < w
    ensures Bit(Reversed(w, x), i) == Bit(x, w - 1 - i)
  {
    ReversedBelow(w - 1, x / 2);
    TopBit(w - 1, x % 2, Reversed(w - 1, x / 2), i);
    if i < w - 1 { BitReversed(w - 1, x / 2, i); }
  }

  lemma TopBit(k: nat, hi: nat, lo: nat, i: nat)
    requires hi < 2 && lo < Pow2(k) && i <= k
    ensures Bit(hi * Pow2(k) + lo, i) == if i < k then Bit(lo, i) else hi == 1
  {
    if i < k {
      BitMod(hi * Pow2(k) + lo, k, i);
      MulDivMod(hi, Pow2(k), lo);
    } else {
      BitShr(hi * Pow2(k) + lo, k, 0);
      MulDivMod(hi, Pow2(k), lo);
    }
  }

  /** All 128 bits in reverse order. */
  function Mirror(x: Element): Element { Element(Reversed(64, x.b), Reversed(64, x.a)) }

  lemma MirrorCoef(x: Element, i: nat)
    requires i < 128
    ensures Coef(Bbe, Mirror(x), i) == Coef(Lle, x, i) && Coef(Lle, Mirror(x), i) == Coef(Bbe, x, i)
  {
    var j := if i < 64 then i else i - 64;
    BitReversed(64, x.a, j);
    BitReversed(64, x.b, j);
    BitReversed(64, x.a, 63 - j);
    BitReversed(64, x.b, 63 - j);
  }

  /** The little-endian routine is the big-endian one between two bit reversals. */
  lemma LleMirrorsBbe(x: Element)
    requires x.Valid()
    ensures XLle(x) == Mirror(XBbe(Mirror(x)))
  {
    ReversedBelow(64, x.a);
    ReversedBelow(64, x.b);
    var y := MulX(Bbe, Mirror(x));
    MulXValid(Lle, x);
    MulXValid(Bbe, Mirror(x));
    ReversedBelow(64, y.a);
    ReversedBelow(64, y.b);
    forall i: nat | i < 128 ensures Coef(Lle, XLle(x), i) == Coef(Lle, Mirror(y), i) {
      LleStep(x, i);
      BbeStep(Mirror(x), i);
      MirrorCoef(y, i);
      MirrorCoef(x, 127);
      if i > 0 { MirrorCoef(x, i - 1); }
    }
    CoefsEqual(Lle, XLle(x), Mirror(y));
  }
}
