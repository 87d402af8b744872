/** Finding the first zero byte of a 64-bit word without looking at its bytes one by one, in both byte orders. */
module WordAtATime {
  /** Byte `i` of a word, counted from the least significant. */
  function Byte(w: bv64, i: nat): bv64 { if i == 0 then w & 0xff else Byte(w >> 8, i - 1) }

  lemma ByteForms(w: bv64)
    ensures Byte(w, 0) == w & 0xff && Byte(w, 1) == (w >> 8) & 0xff
    ensures Byte(w, 2) == (w >> 16) & 0xff && Byte(w, 3) == (w >> 24) & 0xff
    ensures Byte(w, 4) == (w >> 32) & 0xff && Byte(w, 5) == (w >> 40) & 0xff
    ensures Byte(w, 6) == (w >> 48) & 0xff && Byte(w, 7) == (w >> 56) & 0xff
  {
    DropTwo(w, 0);
    DropTwo(w, 1);
    DropFour(w, 0);
    DropFour(w, 1);
    DropFour(w, 2);
    DropFour(w, 3);
    DropTwo(w >> 32, 0);
    DropTwo(w >> 32, 1);
    Shifts(w);
  }

  lemma DropTwo(w: bv64, i: nat)
    ensures Byte(w, i + 2) == Byte(w >> 16, i)
  {
    assert (w >> 8) >> 8 == w >> 16;
    assert Byte(w, i + 2) == Byte(w >> 8, i + 1) == Byte((w >> 8) >> 8, i);
  }

  lemma DropFour(w: bv64, i: nat)
    ensures Byte(w, i + 4) == Byte(w >> 32, i)
  {
    assert (w >> 16) >> 16 == w >> 32;
    DropTwo(w, i + 2);
    DropTwo(w >> 16, i);
  }

  lemma Shifts(w: bv64)
    ensures (w >> 16) >> 8 == w >> 24 && (w >> 32) >> 8 == w >> 40
    ensures (w >> 32) >> 16 == w >> 48 && ((w >> 32) >> 16) >> 8 == w >> 56
  {
  }

  /** Byte `i` of a word in memory order. */
  function InMemory(big: bool, w: bv64, i: nat): bv64
    requires i < 8
  {
    if big then Byte(w, 7 - i) else Byte(w, i)
  }

  /** `k` is the first zero byte of `w` in memory order. */
  ghost predicate FirstZero(big: bool, w: bv64, k: nat) {
    k < 8 && InMemory(big, w, k) == 0 && forall i :: 0 <= i < k ==> InMemory(big, w, i) != 0
  }

  // ---------- little endian ----------

  const ONE_BITS: bv64 := 0x0101_0101_0101_0101
  const HIGH_BITS: bv64 := 0x8080_8080_8080_8080

  /** `has_zero`, for a little-endian machine: the flag word. */
  function HasZeroLe(a: bv64): bv64 { ((a - ONE_BITS) & !a) & HIGH_BITS }

  function CreateZeroMask(bits: bv64): bv64 { ((bits - 1) & !bits) >> 7 }

  function CountMaskedBytes(mask: bv64): bv64 { (mask * 0x0001_0203_0405_0608) >> 56 }

  /** Byte `j` of the flag word is set. */
  predicate Flagged(a: bv64, j: nat)
    requires j < 8
  {
    Byte(HasZeroLe(a), j) == 0x80
  }

  /** Byte `j` is flagged exactly when it is zero, or is 1 just above a flagged byte: the false flags are the
      runs of 1 bytes on top of a zero byte. */
  lemma LeFlags(a: bv64, j: nat)
    requires j < 8
    ensures Flagged(a, j) || Byte(HasZeroLe(a), j) == 0
    ensures Flagged(a, j) <==> Byte(a, j) == 0 || (j > 0 && Byte(a, j) == 1 && Flagged(a, j - 1))
  {
    if j < 4 { LeFlagsLow(a, j); } else { LeFlagsHigh(a, j); }
  }

  lemma LeFlagsLow(a: bv64, j: nat)
    requires j < 4
    ensures Flagged(a, j) || Byte(HasZeroLe(a), j) == 0
    ensures Flagged(a, j) <==> Byte(a, j) == 0 || (j > 0 && Byte(a, j) == 1 && Flagged(a, j - 1))
  {
    ByteForms(a);
    ByteForms(HasZeroLe(a));
    match j {
      case 0 => {}
      case 1 => {}
      case 2 => {}
      case 3 => {}
    }
  }

  lemma LeFlagsHigh(a: bv64, j: nat)
    requires 4 <= j < 8
    ensures Flagged(a, j) || Byte(HasZeroLe(a), j) == 0
    ensures Flagged(a, j) <==> Byte(a, j) == 0 || (Byte(a, j) == 1 && Flagged(a, j - 1))
  {
    ByteForms(a);
    ByteForms(HasZeroLe(a));
    match j {
      case 4 => {}
      case 5 => {}
      case 6 => {}
      case 7 => {}
    }
  }

  lemma FalseFlagExample()
    ensures Byte(0x0100, 1) == 1 && Flagged(0x0100, 1) && FirstZero(false, 0x0100, 0)
  {
    assert InMemory(false, 0x0100, 0) == 0;
  }

  lemma {:induction false} LeFlaggedAbove(a: bv64, j: nat) returns (k: nat)
    requires j < 8 && Flagged(a, j)
    ensures k <= j && Byte(a, k) == 0
  {
    LeFlags(a, j);
    if Byte(a, j) == 0 { k := j; } else { k := LeFlaggedAbove(a, j - 1); }
  }

  lemma WordZero(w: bv64)
    requires Byte(w, 0) == 0 && Byte(w, 1) == 0 && Byte(w, 2) == 0 && Byte(w, 3) == 0
    requires Byte(w, 4) == 0 && Byte(w, 5) == 0 && Byte(w, 6) == 0 && Byte(w, 7) == 0
    ensures w == 0
  {
    ByteForms(w);
  }

  /** The flag word is non-zero exactly when some byte is zero. */
  lemma LeHasZero(a: bv64)
    ensures HasZeroLe(a) != 0 <==> exists i :: 0 <= i < 8 && Byte(a, i) == 0
  {
    if HasZeroLe(a) != 0 {
      if forall j :: 0 <= j < 8 ==> Byte(HasZeroLe(a), j) == 0 { WordZero(HasZeroLe(a)); }
      var j :| 0 <= j < 8 && Byte(HasZeroLe(a), j) != 0;
      LeFlags(a, j);
      var k := LeFlaggedAbove(a, j);
    }
    forall i | 0 <= i < 8 && Byte(a, i) == 0 ensures HasZeroLe(a) != 0 {
      LeFlags(a, i);
      FlagNonZero(HasZeroLe(a), i);
    }
  }

  lemma FlagNonZero(w: bv64, i: nat)
    requires i < 8 && Byte(w, i) != 0
    ensures w != 0
  {
    ByteForms(w);
  }

  /** A word whose lowest non-zero byte is the flag 0x80 at `k` becomes the mask of the bytes below it, and
      the multiplication counts them. */
  lemma LeMask(bits: bv64, k: nat)
    requires k < 8 && Byte(bits, k) == 0x80 && forall i :: 0 <= i < k ==> Byte(bits, i) == 0
    ensures CountMaskedBytes(CreateZeroMask(bits)) as nat == k
  {
    ByteForms(bits);
    if k > 0 { assert Byte(bits, 0) == 0; }
    if k > 1 { assert Byte(bits, 1) == 0; }
    if k > 2 { assert Byte(bits, 2) == 0; }
    if k > 3 { assert Byte(bits, 3) == 0; }
    if k > 4 { assert Byte(bits, 4) == 0; }
    if k > 5 { assert Byte(bits, 5) == 0; }
    if k > 6 { assert Byte(bits, 6) == 0; }
    match k {
      case 0 => assert CreateZeroMask(bits) == 0;
      case 1 => assert CreateZeroMask(bits) == 0xff;
      case 2 => assert CreateZeroMask(bits) == 0xffff;
      case 3 => assert CreateZeroMask(bits) == 0xff_ffff;
      case 4 => assert CreateZeroMask(bits) == 0xffff_ffff;
      case 5 => assert CreateZeroMask(bits) == 0xff_ffff_ffff;
      case 6 => assert CreateZeroMask(bits) == 0xffff_ffff_ffff;
      case 7 => assert CreateZeroMask(bits) == 0xff_ffff_ffff_ffff;
    }
  }

  /** `has_zero`, `prep_zero_mask`, `create_zero_mask`, `find_zero`, little endian: the first zero byte. */
  lemma LeFindsFirstZero(a: bv64, k: nat)
    requires FirstZero(false, a, k)
    ensures CountMaskedBytes(CreateZeroMask(HasZeroLe(a))) as nat == k
  {
    LeFlags(a, k);
    forall i | 0 <= i < k ensures Byte(HasZeroLe(a), i) == 0 {
      LeFlags(a, i);
      if Flagged(a, i) {
        var j := LeFlaggedAbove(a, i);
        assert InMemory(false, a, j) != 0;
      }
    }
    LeMask(HasZeroLe(a), k);
  }

  // ---------- big endian ----------

  const BE_HIGH_BITS: bv64 := 0xfefe_fefe_fefe_feff
  const LOW_BITS: bv64 := 0x7f7f_7f7f_7f7f_7f7f

  /** `has_zero`, for a big-endian machine: the data word and the verdict. */
  function HasZeroBe(val: bv64): (bv64, bool) {
    var rhs := val | LOW_BITS;
    (rhs, (val + BE_HIGH_BITS) & !rhs != 0)
  }

  function PrepZeroMaskBe(val: bv64, rhs: bv64): bv64 { !(((val & LOW_BITS) + LOW_BITS) | rhs) }

  /** The prepared mask flags exactly the zero bytes. */
  lemma BeFlags(val: bv64, j: nat)
    requires j < 8
    ensures Byte(PrepZeroMaskBe(val, HasZeroBe(val).0), j) == if Byte(val, j) == 0 then 0x80 else 0
  {
    ByteForms(val);
    ByteForms(PrepZeroMaskBe(val, HasZeroBe(val).0));
    match j {
      case 0 => {}
      case 1 => {}
      case 2 => {}
      case 3 => {}
      case 4 => {}
      case 5 => {}
      case 6 => {}
      case 7 => {}
    }
  }

  lemma BeVerdict(val: bv64)
    ensures HasZeroBe(val).1 <==> PrepZeroMaskBe(val, HasZeroBe(val).0) != 0
  {
  }

  lemma BeHasZero(val: bv64)
    ensures HasZeroBe(val).1 <==> exists i :: 0 <= i < 8 && Byte(val, i) == 0
  {
    var mask := PrepZeroMaskBe(val, HasZeroBe(val).0);
    BeVerdict(val);
    if mask != 0 {
      if forall j :: 0 <= j < 8 ==> Byte(mask, j) == 0 { WordZero(mask); }
      var j :| 0 <= j < 8 && Byte(mask, j) != 0;
      BeFlags(val, j);
    }
    forall i | 0 <= i < 8 && Byte(val, i) == 0 ensures mask != 0 {
      BeFlags(val, i);
      FlagNonZero(mask, i);
    }
  }

  /** Byte `k` is the first non-zero byte of `mask`, from the most significant. */
  ghost predicate Leads(mask: bv64, k: nat) {
    k < 8 && InMemory(true, mask, k) != 0 && forall i :: 0 <= i < k ==> InMemory(true, mask, i) == 0
  }

  lemma BeLeads(val: bv64, k: nat)
    requires FirstZero(true, val, k)
    ensures Leads(PrepZeroMaskBe(val, HasZeroBe(val).0), k)
  {
    BeFlags(val, 7 - k);
    forall i | 0 <= i < k ensures InMemory(true, PrepZeroMaskBe(val, HasZeroBe(val).0), i) == 0 {
      BeFlags(val, 7 - i);
      assert InMemory(true, val, i) != 0;
    }
  }

  /** The tests that lead to `k`. */
  predicate Halving(mask: bv64, k: nat) {
    && k < 8 && (mask >> 32 != 0 <==> k < 4)
    && (k < 4 ==> ((mask >> 32) >> 16 != 0 <==> k < 2))
    && (k >= 4 ==> (mask >> 16 != 0 <==> k < 6))
    && (k < 2 ==> (((mask >> 32) >> 16) >> 8 != 0 <==> k == 0))
    && (2 <= k < 4 ==> ((mask >> 32) >> 8 != 0 <==> k == 2))
    && (4 <= k < 6 ==> ((mask >> 16) >> 8 != 0 <==> k == 4))
    && (k >= 6 ==> (mask >> 8 != 0 <==> k == 6))
  }

  /** Which half, quarter and eighth of a word hold its first non-zero byte. */
  lemma Halves(mask: bv64, k: nat)
    requires Leads(mask, k)
    ensures Halving(mask, k)
  {
    ByteForms(mask);
    if k > 0 { assert InMemory(true, mask, 0) == 0; }
    if k > 1 { assert InMemory(true, mask, 1) == 0; }
    if k > 2 { assert InMemory(true, mask, 2) == 0; }
    if k > 3 { assert InMemory(true, mask, 3) == 0; }
    if k > 4 { assert InMemory(true, mask, 4) == 0; }
    if k > 5 { assert InMemory(true, mask, 5) == 0; }
    if k > 6 { assert InMemory(true, mask, 6) == 0; }
    match k {
      case 0 => {}
      case 1 => {}
      case 2 => {}
      case 3 => {}
      case 4 => {}
      case 5 => {}
      case 6 => {}
      case 7 => {}
    }
  }

  /** `find_zero`, big endian: the first flagged byte, by halving. */
  method FindZeroBe(mask0: bv64, ghost k: nat) returns (byte: nat)
    requires Leads(mask0, k)
    ensures byte == k
  {
    Halves(mask0, k);
    var mask := mask0;
    byte := 0;
    if mask >> 32 != 0 {
      mask := mask >> 32;
    } else {
      byte := 4;
    }
    if mask >> 16 != 0 {
      mask := mask >> 16;
    } else {
      byte := byte + 2;
    }
    byte := if mask >> 8 != 0 then byte else byte + 1;
  }

  /** The whole chain, big endian: the first zero byte. */
  method FirstZeroBe(val: bv64) returns (found: bool, byte: nat)
    ensures found <==> exists i :: 0 <= i < 8 && Byte(val, i) == 0
    ensures found ==> FirstZero(true, val, byte)
  {
    BeHasZero(val);
    var (data, some) := HasZeroBe(val);
    found, byte := some, 0;
    if found {
      var mask := PrepZeroMaskBe(val, data);
      ghost var k := First(true, val);
      BeLeads(val, k);
      byte := FindZeroBe(mask, k);
    }
  }

  /** A word with a zero byte has a first one. */
  lemma First(big: bool, w: bv64) returns (k: nat)
    requires exists i :: 0 <= i < 8 && Byte(w, i) == 0
    ensures FirstZero(big, w, k)
  {
    var i :| 0 <= i < 8 && Byte(w, i) == 0;
    assert InMemory(big, w, if big then 7 - i else i) == 0;
    k := 0;
    while InMemory(big, w, k) != 0
      invariant k < 8 && forall j :: 0 <= j < k ==> InMemory(big, w, j) != 0
      decreases 8 - k
    {
      k := k + 1;
    }
  }

  /** The whole chain, little endian. */
  method FirstZeroLe(a: bv64) returns (found: bool, byte: nat)
    ensures found <==> exists i :: 0 <= i < 8 && Byte(a, i) == 0
    ensures found ==> FirstZero(false, a, byte)
  {
    LeHasZero(a);
    var bits := HasZeroLe(a);
    found, byte := bits != 0, 0;
    if found {
      ghost var k := First(false, a);
      LeFindsFirstZero(a, k);
      byte := CountMaskedBytes(CreateZeroMask(bits)) as nat;
    }
  }
}
