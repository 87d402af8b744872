/** The streaming frame around the SHA-1 block function: a partial block is kept between updates and
    finalisation pads it. The block function itself is a parameter. */
module Sha1 {
  import opened Bits

  type Byte = x: int | 0 <= x < 256

  datatype Digest = Digest(h0: nat, h1: nat, h2: nat, h3: nat, h4: nat)

  type BlockFn = (Digest, seq<Byte>) -> Digest

  const BLOCK_SIZE: nat := 64
  const BIT_OFFSET: nat := 56

  const INITIAL: Digest := Digest(0x67452301, 0xefcdab89, 0x98badcfe, 0x10325476, 0xc3d2e1f0)

  // ---------- the reference: pad the whole message, then fold ----------

  /** The block function over the whole blocks of `data`, in order. */
  function Fold(f: BlockFn, h: Digest, data: seq<Byte>): Digest
    decreases |data|
  {
    if |data| < BLOCK_SIZE then h else Fold(f, f(h, data[..BLOCK_SIZE]), data[BLOCK_SIZE..])
  }

  /** A whole number of blocks. */
  predicate Blocks(data: seq<Byte>)
    decreases |data|
  {
    data == [] || (|data| >= BLOCK_SIZE && Blocks(data[BLOCK_SIZE..]))
  }

  lemma {:induction false} BlocksLength(data: seq<Byte>)
    ensures Blocks(data) <==> |data| % BLOCK_SIZE == 0
    decreases |data|
  {
    if |data| >= BLOCK_SIZE { BlocksLength(data[BLOCK_SIZE..]); }
  }

  function Zeros(n: nat): (z: seq<Byte>)
    ensures |z| == n
  {
    seq(n, i => 0)
  }

  /** `n` bytes, most significant first. */
  function BigEndian(x: nat, n: nat): (bs: seq<Byte>)
    ensures |bs| == n
  {
    if n == 0 then [] else BigEndian(x / 256, n - 1) + [x % 256]
  }

  /** Section 5.1.1 of FIPS 180-4, with the length field reduced modulo 2^64. */
  function Pad(msg: seq<Byte>): seq<Byte> { msg + Suffix(|msg|) }

  /** Padding completes the last block. */
  lemma PadFillsBlocks(msg: seq<Byte>)
    ensures Blocks(Pad(msg))
  {
    PaddedLength(|msg|, (55 - |msg|) % BLOCK_SIZE);
    BlocksLength(Pad(msg));
  }

  lemma PaddedLength(n: nat, zeros: nat)
    requires zeros == (55 - n) % 64
    ensures (n + 9 + zeros) % 64 == 0
  {
    var k := (55 - n) / 64;
    assert 55 - n == 64 * k + zeros;
    assert n + 9 + zeros == 64 * (1 - k);
  }

  /** The marker byte, the zeros and the bit count that follow a message of `n` bytes. */
  function Suffix(n: nat): (s: seq<Byte>)
    ensures |s| == 9 + (55 - n) % BLOCK_SIZE
  {
    [0x80] + Zeros((55 - n) % BLOCK_SIZE) + BigEndian(8 * n % TWO64, 8)
  }

  lemma {:induction false} FoldAppend(f: BlockFn, h: Digest, a: seq<Byte>, b: seq<Byte>)
    requires Blocks(a)
    ensures Fold(f, h, a + b) == Fold(f, Fold(f, h, a), b)
    ensures Blocks(b) ==> Blocks(a + b)
    decreases |a|
  {
    if a == [] {
      assert a + b == b;
    } else {
      assert (a + b)[..BLOCK_SIZE] == a[..BLOCK_SIZE];
      assert (a + b)[BLOCK_SIZE..] == a[BLOCK_SIZE..] + b;
      FoldAppend(f, f(h, a[..BLOCK_SIZE]), a[BLOCK_SIZE..], b);
    }
  }

  lemma FoldOne(f: BlockFn, h: Digest, b: seq<Byte>)
    requires |b| == BLOCK_SIZE
    ensures Fold(f, h, b) == f(h, b) && Blocks(b)
  {
    assert b[..BLOCK_SIZE] == b && b[BLOCK_SIZE..] == [];
  }

  /** Byte `i` of `n` is the digit of 256^(n - 1 - i): most significant first. */
  lemma {:induction false} BigEndianDigit(x: nat, n: nat, i: nat)
    requires i < n
    ensures BigEndian(x, n)[i] == Quotient(x, Power256(n - 1 - i)) % 256
  {
    if i < n - 1 {
      BigEndianDigit(x / 256, n - 1, i);
      DivDiv(x, 256, Power256(n - 2 - i));
    }
  }

  // ---------- padding loses nothing ----------

  lemma {:induction false} BigEndianInjective(x: nat, y: nat, n: nat)
    requires BigEndian(x, n) == BigEndian(y, n)
    ensures x % Power256(n) == y % Power256(n)
  {
    if n > 0 {
      var bx, cx := BigEndian(x, n), BigEndian(y, n);
      assert bx[n - 1] == x % 256 && cx[n - 1] == y % 256;
      assert bx[..n - 1] == BigEndian(x / 256, n - 1) && cx[..n - 1] == BigEndian(y / 256, n - 1);
      BigEndianInjective(x / 256, y / 256, n - 1);
      DigitsMod(x, n);
      DigitsMod(y, n);
    }
  }

  function Power256(n: nat): (p: nat)
    ensures p > 0
  {
    if n == 0 then 1 else 256 * Power256(n - 1)
  }

  lemma DigitsMod(x: nat, n: nat)
    requires n > 0
    ensures x % Power256(n) == 256 * (x / 256 % Power256(n - 1)) + x % 256
  {
    var p := Power256(n - 1);
    var q, r := x / 256 / p, x / 256 % p;
    assert x / 256 == q * p + r;
    assert x == q * (256 * p) + (256 * r + x % 256);
    DivUnique(x, 256 * p, q, 256 * r + x % 256);
  }

  lemma LengthsAgree(n1: nat, n2: nat)
    requires 8 * n1 % TWO64 == 8 * n2 % TWO64
    requires n1 + (55 - n1) % BLOCK_SIZE == n2 + (55 - n2) % BLOCK_SIZE
    ensures n1 == n2
  {
    var d := n1 - n2;
    assert -64 < d < 64;
    assert (8 * d) % TWO64 == 0;
  }

  lemma SuffixParts(n: nat)
    ensures Suffix(n)[1 + (55 - n) % BLOCK_SIZE..] == BigEndian(8 * n % TWO64, 8)
  {
  }

  lemma EqualSuffixes(n1: nat, n2: nat, s1: seq<Byte>, s2: seq<Byte>)
    requires s1 == Suffix(n1) && s2 == Suffix(n2) && n1 + |s1| == n2 + |s2|
    requires s1[|s1| - 8..] == s2[|s2| - 8..]
    ensures n1 == n2
  {
    SuffixParts(n1);
    SuffixParts(n2);
    EqualCounts(8 * n1 % TWO64, 8 * n2 % TWO64);
    LengthsAgree(n1, n2);
  }

  lemma EqualCounts(x: nat, y: nat)
    requires x < TWO64 && y < TWO64 && BigEndian(x, 8) == BigEndian(y, 8)
    ensures x == y
  {
    BigEndianInjective(x, y, 8);
    Power256Of8();
  }

  /** Two messages with the same padding are the same message, whatever their lengths. */
  lemma PadInjective(m1: seq<Byte>, m2: seq<Byte>)
    requires Pad(m1) == Pad(m2)
    ensures m1 == m2
  {
    var s1, s2 := Suffix(|m1|), Suffix(|m2|);
    var p := m1 + s1;
    assert p == m2 + s2;
    assert s1[|s1| - 8..] == p[|p| - 8..] == s2[|s2| - 8..];
    EqualSuffixes(|m1|, |m2|, s1, s2);
    assert m1 == p[..|m1|] == m2;
  }

  lemma Power256Of8()
    ensures Power256(8) == TWO64
  {
    assert Power256(4) == TWO32;
    assert Power256(8) == 256 * (256 * (256 * (256 * Power256(4))));
  }

  // ---------- absorbing a message piece by piece ----------

  /** After `msg`: its whole blocks are folded into `h`, and `tail` is the rest. */
  ghost predicate Framed(f: BlockFn, h: Digest, tail: seq<Byte>, msg: seq<Byte>) {
    |tail| < BLOCK_SIZE && exists head :: Blocks(head) && msg == head + tail && h == Fold(f, INITIAL, head)
  }

  lemma Unframe(f: BlockFn, h: Digest, tail: seq<Byte>, msg: seq<Byte>) returns (head: seq<Byte>)
    requires Framed(f, h, tail, msg)
    ensures Blocks(head) && msg == head + tail && h == Fold(f, INITIAL, head)
    ensures |msg| % BLOCK_SIZE == |tail|
  {
    head :| Blocks(head) && msg == head + tail && h == Fold(f, INITIAL, head);
    BlocksLength(head);
  }

  lemma FillBlock(f: BlockFn, h: Digest, tail: seq<Byte>, msg: seq<Byte>, x: seq<Byte>)
    requires Framed(f, h, tail, msg) && |tail + x| == BLOCK_SIZE
    ensures Framed(f, f(h, tail + x), [], msg + x)
  {
    var head := Unframe(f, h, tail, msg);
    FoldOne(f, h, tail + x);
    FoldAppend(f, INITIAL, head, tail + x);
    assert msg + x == (head + (tail + x)) + [];
  }

  lemma WholeBlocks(f: BlockFn, h: Digest, msg: seq<Byte>, x: seq<Byte>)
    requires Framed(f, h, [], msg) && Blocks(x)
    ensures Framed(f, Fold(f, h, x), [], msg + x)
  {
    var head := Unframe(f, h, [], msg);
    FoldAppend(f, INITIAL, head, x);
    assert msg + x == (head + x) + [];
  }

  lemma KeepTail(f: BlockFn, h: Digest, tail: seq<Byte>, msg: seq<Byte>, x: seq<Byte>)
    requires Framed(f, h, tail, msg) && |tail + x| < BLOCK_SIZE
    ensures Framed(f, h, tail + x, msg + x)
  {
    var head := Unframe(f, h, tail, msg);
    assert msg + x == head + (tail + x);
  }

  lemma CountStep(n: nat, d: nat)
    ensures (n % TWO64 + d) % TWO64 == (n + d) % TWO64
  {
    var q, r := DivMod(n, TWO64);
    var q', r' := DivMod(r + d, TWO64);
    DivUnique(n + d, TWO64, q + q', r');
  }

  lemma CountModBlock(n: nat)
    ensures n % TWO64 % BLOCK_SIZE == n % BLOCK_SIZE
  {
    var q, r := n / TWO64, n % TWO64;
    var b, t := r / 64, r % 64;
    assert n == 64 * (q * 0x400000000000000 + b) + t;
  }

  // ---------- where an update reads its last bytes ----------

  /** An `int` product of this value, in two's complement. */
  function Int32(x: nat): int { if x < TWO31 then x else x - TWO32 }

  /** The bytes a buffered partial block takes first. */
  function Filled(partial: nat): nat { if partial == 0 || partial > BLOCK_SIZE then 0 else BLOCK_SIZE - partial }

  function Whole(partial: nat, len: nat): nat {
    if len < Filled(partial) then 0 else (len - Filled(partial)) / BLOCK_SIZE * BLOCK_SIZE
  }

  function Left(partial: nat, len: nat): nat {
    if len < Filled(partial) then 0 else (len - Filled(partial)) % BLOCK_SIZE
  }

  /** `n` bytes from `pos` on, which may lie before the start of `data`: `behind(k)` is the byte `k + 1` before it. */
  function Fetch(data: seq<Byte>, behind: nat -> Byte, pos: int, n: nat): (bs: seq<Byte>)
    requires pos + n <= |data|
    ensures |bs| == n
  {
    seq(n, i requires 0 <= i < n => if pos + i >= 0 then data[pos + i] else behind(-1 - (pos + i)))
  }

  lemma LeftBounds(partial: nat, len: nat)
    requires partial < BLOCK_SIZE <= partial + len
    ensures Filled(partial) + Whole(partial, len) + Left(partial, len) == len && Left(partial, len) < BLOCK_SIZE
    ensures Filled(partial) + Int32(Whole(partial, len)) + Left(partial, len) <= len
  {
  }

  /** What an update of `data` absorbs: the code moves the pointer past the whole blocks by an `int` product. */
  function Taken(partial: nat, data: seq<Byte>, behind: nat -> Byte): (bs: seq<Byte>)
    requires partial < BLOCK_SIZE
    ensures |bs| == |data|
  {
    if partial + |data| < BLOCK_SIZE then data
    else
      LeftBounds(partial, |data|);
      var n := Left(partial, |data|);
      data[..|data| - n] + Fetch(data, behind, Filled(partial) + Int32(Whole(partial, |data|)), n)
  }

  lemma TakenParts(partial: nat, data: seq<Byte>, behind: nat -> Byte, pos: nat, whole: nat, len: nat)
    requires partial < BLOCK_SIZE <= partial + |data| && pos == Filled(partial)
    requires whole == (|data| - pos) / BLOCK_SIZE * BLOCK_SIZE && len == (|data| - pos) % BLOCK_SIZE
    ensures len <= |data| && pos + Int32(whole) + len <= |data|
    ensures data[..|data| - len] + Fetch(data, behind, pos + Int32(whole), len) == Taken(partial, data, behind)
  {
    LeftBounds(partial, |data|);
  }

  /** The product fits in an `int`, or no byte is left over. */
  predicate PointerFits(partial: nat, len: nat) {
    partial + len < BLOCK_SIZE || Whole(partial, len) < TWO31 || Left(partial, len) == 0
  }

  /** An update absorbs its data, whatever lies in memory before it, exactly when the pointer fits. */
  lemma TakenIffFits(partial: nat, data: seq<Byte>)
    requires partial < BLOCK_SIZE && partial + |data| < TWO32
    ensures (forall behind: nat -> Byte :: Taken(partial, data, behind) == data) <==> PointerFits(partial, |data|)
  {
    if partial + |data| >= BLOCK_SIZE {
      LeftBounds(partial, |data|);
      if PointerFits(partial, |data|) {
        forall behind: nat -> Byte ensures Taken(partial, data, behind) == data { FitsTaken(partial, data, behind); }
      } else {
        var k := |data| - Left(partial, |data|);
        var behind: nat -> Byte := _ => if data[k] == 0 then 1 else 0;
        assert Taken(partial, data, behind)[k] == behind(0);
        assert Taken(partial, data, behind) != data;
      }
    }
  }

  lemma FitsTaken(partial: nat, data: seq<Byte>, behind: nat -> Byte)
    requires partial < BLOCK_SIZE && PointerFits(partial, |data|)
    ensures Taken(partial, data, behind) == data
  {
    if partial + |data| >= BLOCK_SIZE { LeftBounds(partial, |data|); }
  }

  /** Every update below 2^31 bytes is safe; one of 2^31 + 1 bytes is not. */
  lemma FitsExamples(partial: nat, len: nat)
    requires partial < BLOCK_SIZE
    ensures len < TWO31 ==> PointerFits(partial, len)
    ensures !PointerFits(0, TWO31 + 1)
  {
  }

  // ---------- the code ----------

  method Memcpy(dst: array<Byte>, off: nat, src: seq<Byte>)
    requires off + |src| <= dst.Length
    modifies dst
    ensures dst[..] == old(dst[..off]) + src + old(dst[off + |src|..])
  {
    forall i | 0 <= i < |src| { dst[off + i] := src[i]; }
  }

  class State {
    var state: Digest
    var count: nat
    var buffer: array<Byte>

    /** The context after absorbing `msg`. */
    ghost predicate Absorbed(f: BlockFn, msg: seq<Byte>)
      reads this, buffer
    {
      && buffer.Length == BLOCK_SIZE && count == |msg| % TWO64
      && Framed(f, state, buffer[..count % BLOCK_SIZE], msg)
    }

    /** `sha1_base_init`. */
    constructor (ghost f: BlockFn)
      ensures Absorbed(f, []) && fresh(buffer)
    {
      state := INITIAL;
      count := 0;
      buffer := new Byte[64](i => 0);
      assert Blocks([]);
    }

    /** The block-completing part of an update: lines 45-63. What is left of `data` fits in the buffer. */
    method ConsumeBlocks(partial: nat, data: seq<Byte>, behind: nat -> Byte, f: BlockFn, ghost msg: seq<Byte>)
      returns (rest: seq<Byte>)
      requires buffer.Length == BLOCK_SIZE && partial < BLOCK_SIZE <= partial + |data|
      requires Framed(f, state, buffer[..partial], msg)
      modifies this`state, buffer
      ensures |rest| < BLOCK_SIZE && |rest| <= |data|
      ensures Framed(f, state, [], msg + data[..|data| - |rest|])
      ensures data[..|data| - |rest|] + rest == Taken(partial, data, behind)
    {
      var pos := FillBuffer(partial, data, f, msg);
      var blocks, len := (|data| - pos) / BLOCK_SIZE, (|data| - pos) % BLOCK_SIZE;
      TakenParts(partial, data, behind, pos, blocks * BLOCK_SIZE, len);
      assert pos + blocks * BLOCK_SIZE == |data| - len;
      if blocks != 0 {
        FoldBlocks(data, pos, pos + blocks * BLOCK_SIZE, f, msg);
      }
      rest := Fetch(data, behind, pos + Int32(blocks * BLOCK_SIZE), len);
    }

    /** Lines 47-55: a partial block in the buffer is completed first. */
    method FillBuffer(partial: nat, data: seq<Byte>, f: BlockFn, ghost msg: seq<Byte>) returns (pos: nat)
      requires buffer.Length == BLOCK_SIZE && partial < BLOCK_SIZE <= partial + |data|
      requires Framed(f, state, buffer[..partial], msg)
      modifies this`state, buffer
      ensures pos == Filled(partial) && Framed(f, state, [], msg + data[..pos])
    {
      pos := 0;
      ghost var tail := buffer[..partial];
      if partial == 0 {
        assert msg + data[..0] == msg && tail == [];
      } else {
        pos := BLOCK_SIZE - partial;
        FillBlock(f, state, tail, msg, data[..pos]);
        Memcpy(buffer, partial, data[..pos]);
        assert buffer[..] == tail + data[..pos];
        state := f(state, buffer[..]);
      }
    }

    /** Line 61: the block function over whole blocks of the data. */
    method FoldBlocks(data: seq<Byte>, pos: nat, cut: nat, f: BlockFn, ghost msg: seq<Byte>)
      requires pos <= cut <= |data| && (cut - pos) % BLOCK_SIZE == 0 && Framed(f, state, [], msg + data[..pos])
      modifies this`state
      ensures Framed(f, state, [], msg + data[..cut])
    {
      ghost var x := data[pos..cut];
      BlocksLength(x);
      WholeBlocks(f, state, msg + data[..pos], x);
      assert msg + data[..pos] + x == msg + data[..cut];
      state := Fold(f, state, data[pos..cut]);
    }

    /** Lines 66-67: the bytes that do not complete a block stay in the buffer. */
    method KeepRest(partial: nat, rest: seq<Byte>, f: BlockFn, ghost seen: seq<Byte>)
      requires buffer.Length == BLOCK_SIZE && partial + |rest| < BLOCK_SIZE
      requires Framed(f, state, buffer[..partial], seen)
      modifies buffer
      ensures Framed(f, state, buffer[..partial + |rest|], seen + rest)
      ensures |seen + rest| % BLOCK_SIZE == partial + |rest|
    {
      KeepTail(f, state, buffer[..partial], seen, rest);
      ghost var kept := buffer[..partial] + rest;
      if rest != [] {
        Memcpy(buffer, partial, rest);
      }
      assert buffer[..|kept|] == kept;
      ghost var _ := Unframe(f, state, kept, seen + rest);
    }

    /** `sha1_base_do_update`. When the `unsigned int` sum of the partial count and the length wraps, the code takes the
        branch that only copies, and copies the whole data past the end of the buffer: `overrun`. */
    method Update(data: seq<Byte>, behind: nat -> Byte, f: BlockFn, ghost msg: seq<Byte>) returns (overrun: bool)
      requires Absorbed(f, msg) && |data| < TWO32
      modifies this`state, this`count, buffer
      ensures buffer == old(buffer) && (overrun <==> |msg| % BLOCK_SIZE + |data| >= TWO32)
      ensures !overrun ==> Absorbed(f, msg + Taken(|msg| % BLOCK_SIZE, data, behind))
    {
      var partial := count % BLOCK_SIZE;
      assert partial == |msg| % BLOCK_SIZE by { CountModBlock(|msg|); }
      CountStep(|msg|, |data|);
      count := (count + |data|) % TWO64;
      var sum := if partial + |data| >= TWO32 then partial + |data| - TWO32 else partial + |data|;
      overrun := sum < BLOCK_SIZE && |data| > BLOCK_SIZE - partial;
      if !overrun {
        TakeIn(partial, sum, data, behind, f, msg);
      }
    }

    /** Lines 44-67, with the sum of the partial count and the length. */
    method TakeIn(partial: nat, sum: nat, data: seq<Byte>, behind: nat -> Byte, f: BlockFn, ghost msg: seq<Byte>)
      requires buffer.Length == BLOCK_SIZE && partial == |msg| % BLOCK_SIZE && sum == partial + |data|
      requires Framed(f, state, buffer[..partial], msg) && count == (|msg| + |data|) % TWO64
      modifies this`state, buffer
      ensures Absorbed(f, msg + Taken(partial, data, behind))
    {
      ghost var taken := Taken(partial, data, behind);
      assert count % BLOCK_SIZE == |msg + taken| % BLOCK_SIZE by { CountModBlock(|msg| + |data|); }
      if sum >= BLOCK_SIZE {
        var rest := ConsumeBlocks(partial, data, behind, f, msg);
        ghost var seen := msg + data[..|data| - |rest|];
        assert seen + rest == msg + taken;
        KeepRest(0, rest, f, seen);
      } else {
        KeepRest(partial, data, f, msg);
      }
    }

    /** Lines 88-90: zeros up to the length field, the length, and one more block. */
    method LastBlock(partial: nat, f: BlockFn)
      requires buffer.Length == BLOCK_SIZE && partial <= BIT_OFFSET
      modifies this`state, buffer
      ensures state == f(old(state), old(buffer[..partial]) + Zeros(BIT_OFFSET - partial) + BigEndian(count * 8 % TWO64, 8))
    {
      Memcpy(buffer, partial, Zeros(BIT_OFFSET - partial));
      Memcpy(buffer, BIT_OFFSET, BigEndian(count * 8 % TWO64, 8));
      assert buffer[..] == old(buffer[..partial]) + Zeros(BIT_OFFSET - partial) + BigEndian(count * 8 % TWO64, 8);
      state := f(state, buffer[..]);
    }

    /** `sha1_base_do_finalize`: one or two last blocks. */
    method Finalize(f: BlockFn, ghost msg: seq<Byte>)
      requires Absorbed(f, msg)
      modifies this`state, buffer
      ensures state == Fold(f, INITIAL, Pad(msg))
      ensures buffer == old(buffer) && count == old(count)
    {
      var partial := count % BLOCK_SIZE;
      ghost var h, tail, bits := state, buffer[..partial], BigEndian(count * 8 % TWO64, 8);
      Memcpy(buffer, partial, [0x80]);
      partial := partial + 1;
      assert buffer[..partial] == tail + [0x80];
      if partial > BIT_OFFSET {
        Memcpy(buffer, partial, Zeros(BLOCK_SIZE - partial));
        assert buffer[..] == tail + [0x80] + Zeros(63 - |tail|);
        partial := 0;
        state := f(state, buffer[..]);
      }
      LastBlocks(f, h, tail, msg);
      assert |tail| >= BIT_OFFSET ==> buffer[..partial] + Zeros(BIT_OFFSET - partial) + bits == Zeros(BIT_OFFSET) + bits;
      LastBlock(partial, f);
    }

    /** `sha1_base_finish`: the digest big-endian, and a cleared context. */
    method Finish(out: array<Byte>)
      requires out.Length == 20 && out != buffer && buffer.Length == BLOCK_SIZE
      modifies out, this`state, this`count, buffer
      ensures out[..] == DigestBytes(old(state))
      ensures state == Digest(0, 0, 0, 0, 0) && count == 0 && buffer == old(buffer) && buffer[..] == Zeros(BLOCK_SIZE)
    {
      var words := Words(state);
      for i := 0 to 5
        invariant out[..4 * i] == WordBytes(words[..i])
        invariant words == Words(old(state)) && buffer == old(buffer)
      {
        WordBytesSnoc(words[..i], words[i]);
        assert words[..i + 1] == words[..i] + [words[i]];
        Memcpy(out, 4 * i, BigEndian(words[i], 4));
      }
      assert out[..20] == out[..] && words[..5] == words;
      state, count := Digest(0, 0, 0, 0, 0), 0;
      Memcpy(buffer, 0, Zeros(BLOCK_SIZE));
    }
  }

  function Words(d: Digest): seq<nat> { [d.h0, d.h1, d.h2, d.h3, d.h4] }

  function WordBytes(words: seq<nat>): (bs: seq<Byte>)
    ensures |bs| == 4 * |words|
  {
    if words == [] then [] else BigEndian(words[0], 4) + WordBytes(words[1..])
  }

  function DigestBytes(d: Digest): seq<Byte> { WordBytes(Words(d)) }

  lemma {:induction false} WordBytesSnoc(words: seq<nat>, w: nat)
    ensures WordBytes(words + [w]) == WordBytes(words) + BigEndian(w, 4)
  {
    if words != [] {
      assert (words + [w])[1..] == words[1..] + [w];
      WordBytesSnoc(words[1..], w);
    }
  }

  /** The last blocks as the code assembles them are the left-over bytes followed by the suffix. */
  lemma TailForms(tail: seq<Byte>, n: nat)
    requires |tail| == n % BLOCK_SIZE
    ensures var bits := BigEndian(n % TWO64 * 8 % TWO64, 8);
            if |tail| < BIT_OFFSET then tail + [0x80] + Zeros(55 - |tail|) + bits == tail + Suffix(n)
            else tail + [0x80] + Zeros(63 - |tail|) + (Zeros(BIT_OFFSET) + bits) == tail + Suffix(n)
  {
    BitCount(n);
    SuffixZeros(n, |tail|);
    if |tail| >= BIT_OFFSET { assert Zeros(119 - |tail|) == Zeros(63 - |tail|) + Zeros(BIT_OFFSET); }
  }

  lemma BitCount(n: nat)
    ensures n % TWO64 * 8 % TWO64 == 8 * n % TWO64
  {
    var q, r := DivMod(n, TWO64);
    var q', r' := DivMod(8 * r, TWO64);
    DivUnique(8 * n, TWO64, 8 * q + q', r');
  }

  lemma SuffixZeros(n: nat, r: nat)
    requires r == n % BLOCK_SIZE
    ensures (55 - n) % BLOCK_SIZE == if r < BIT_OFFSET then 55 - r else 119 - r
  {
  }

  lemma PadTail(f: BlockFn, h: Digest, tail: seq<Byte>, msg: seq<Byte>)
    requires Framed(f, h, tail, msg)
    ensures Fold(f, INITIAL, Pad(msg)) == Fold(f, h, tail + Suffix(|msg|))
  {
    var head := Unframe(f, h, tail, msg);
    assert Pad(msg) == head + (tail + Suffix(|msg|));
    FoldAppend(f, INITIAL, head, tail + Suffix(|msg|));
  }

  lemma FoldTwo(f: BlockFn, h: Digest, a: seq<Byte>, b: seq<Byte>)
    requires |a| == |b| == BLOCK_SIZE
    ensures Fold(f, h, a + b) == f(f(h, a), b)
  {
    FoldOne(f, h, a);
    FoldOne(f, f(h, a), b);
    FoldAppend(f, h, a, b);
  }

  /** With at most 55 bytes left over the padding fits in one block. Otherwise the marker ends one
      block and the length ends another. */
  lemma LastBlocks(f: BlockFn, h: Digest, tail: seq<Byte>, msg: seq<Byte>)
    requires Framed(f, h, tail, msg)
    ensures var bits := BigEndian(|msg| % TWO64 * 8 % TWO64, 8);
            Fold(f, INITIAL, Pad(msg)) ==
            if |tail| < BIT_OFFSET then f(h, tail + [0x80] + Zeros(55 - |tail|) + bits)
            else f(f(h, tail + [0x80] + Zeros(63 - |tail|)), Zeros(BIT_OFFSET) + bits)
  {
    var _ := Unframe(f, h, tail, msg);
    PadTail(f, h, tail, msg);
    TailForms(tail, |msg|);
    var bits := BigEndian(|msg| % TWO64 * 8 % TWO64, 8);
    if |tail| < BIT_OFFSET {
      FoldOne(f, h, tail + [0x80] + Zeros(55 - |tail|) + bits);
    } else {
      FoldTwo(f, h, tail + [0x80] + Zeros(63 - |tail|), Zeros(BIT_OFFSET) + bits);
    }
  }

  function Concat(chunks: seq<seq<Byte>>): seq<Byte> {
    if chunks == [] then [] else Concat(chunks[..|chunks| - 1]) + chunks[|chunks| - 1]
  }

  /** However a message is cut into updates whose pointers fit, and whatever lies in memory before them, the digest
      is that of the padded message folded at once. */
  method Hash(f: BlockFn, chunks: seq<seq<Byte>>, behind: nat -> Byte) returns (digest: seq<Byte>)
    requires forall i :: 0 <= i < |chunks| ==>
               var partial := |Concat(chunks[..i])| % BLOCK_SIZE;
               partial + |chunks[i]| < TWO32 && PointerFits(partial, |chunks[i]|)
    ensures digest == DigestBytes(Fold(f, INITIAL, Pad(Concat(chunks))))
  {
    var ctx := new State(f);
    for i := 0 to |chunks|
      invariant fresh(ctx) && fresh(ctx.buffer) && ctx.Absorbed(f, Concat(chunks[..i]))
    {
      assert chunks[..i + 1][..i] == chunks[..i];
      FitsTaken(|Concat(chunks[..i])| % BLOCK_SIZE, chunks[i], behind);
      var overrun := ctx.Update(chunks[i], behind, f, Concat(chunks[..i]));
    }
    assert chunks[..|chunks|] == chunks;
    ctx.Finalize(f, Concat(chunks));
    var out := new Byte[20](i => 0);
    ctx.Finish(out);
    digest := out[..];
  }
}
