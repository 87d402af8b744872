/** Cipher block chaining over the segments of a walk, in place or from one buffer to another. A buffer is
    an array of its whole blocks; bytes after the last whole block are never touched. The block cipher is a
    parameter. */
module Cbc {
  import Bits

  type Block = seq<bv8>

  /** `crypto_xor` on the bytes the two blocks share. */
  function Xor(a: Block, b: Block): Block {
    seq(if |a| <= |b| then |a| else |b|, i requires 0 <= i < |a| && i < |b| => a[i] ^ b[i])
  }

  lemma XorTwice(a: Block, b: Block)
    requires |a| == |b|
    ensures Xor(Xor(a, b), b) == a && |Xor(a, b)| == |a|
  {
    forall i | 0 <= i < |a| ensures Xor(Xor(a, b), b)[i] == a[i] { XorByteTwice(a[i], b[i]); }
  }

  lemma XorByteTwice(x: bv8, y: bv8)
    ensures (x ^ y) ^ y == x
  {
  }

  lemma XorCommutes(a: Block, b: Block)
    ensures Xor(a, b) == Xor(b, a)
  {
    forall i | 0 <= i < |Xor(a, b)| ensures Xor(a, b)[i] == Xor(b, a)[i] { XorByteCommutes(a[i], b[i]); }
  }

  lemma XorByteCommutes(x: bv8, y: bv8)
    ensures x ^ y == y ^ x
  {
  }

  /** A block cipher under one key, as a table. */
  type Cipher = imap<Block, Block>

  function Apply(fn: Cipher, b: Block): Block { if b in fn then fn[b] else b }

  /** `enc` and `dec` undo each other on blocks of `n` bytes. */
  ghost predicate Inverse(n: nat, enc: Cipher, dec: Cipher) {
    forall b {:trigger Apply(enc, b)} :: |b| == n ==> |Apply(enc, b)| == n && Apply(dec, Apply(enc, b)) == b
  }

  ghost predicate Sized(n: nat, blocks: seq<Block>) { forall i :: 0 <= i < |blocks| ==> |blocks[i]| == n }

  // ---------- section 6.2 of NIST SP 800-38A ----------

  /** The block that chains into block `i` of a message with ciphertext `c`. */
  function Chain(iv: Block, c: seq<Block>, i: nat): Block
    requires i <= |c|
  {
    if i == 0 then iv else c[i - 1]
  }

  ghost predicate Encrypts(fn: Cipher, iv: Block, p: seq<Block>, c: seq<Block>) {
    |c| == |p| && forall i {:trigger p[i]} :: 0 <= i < |p| ==> c[i] == Apply(fn, Xor(p[i], Chain(iv, c, i)))
  }

  ghost predicate Decrypts(fn: Cipher, iv: Block, c: seq<Block>, p: seq<Block>) {
    |p| == |c| && forall i {:trigger p[i]} :: 0 <= i < |c| ==> p[i] == Xor(Apply(fn, c[i]), Chain(iv, c, i))
  }

  /** There is one ciphertext. */
  lemma {:induction false} EncryptUnique(fn: Cipher, iv: Block, p: seq<Block>, c: seq<Block>, d: seq<Block>, i: nat)
    requires Encrypts(fn, iv, p, c) && Encrypts(fn, iv, p, d) && i < |p|
    ensures c[i] == d[i]
  {
    if i > 0 { EncryptUnique(fn, iv, p, c, d, i - 1); }
    assert c[i] == Apply(fn, Xor(p[i], Chain(iv, c, i)));
  }

  lemma {:induction false} CiphertextSized(n: nat, enc: Cipher, dec: Cipher, iv: Block, p: seq<Block>, c: seq<Block>, i: nat)
    requires Inverse(n, enc, dec) && |iv| == n && Sized(n, p) && Encrypts(enc, iv, p, c) && i <= |p|
    ensures |Chain(iv, c, i)| == n
  {
    if i > 0 {
      CiphertextSized(n, enc, dec, iv, p, c, i - 1);
      XorTwice(p[i - 1], Chain(iv, c, i - 1));
    }
  }

  /** Decrypting the ciphertext gives the plaintext, and nothing else does. */
  lemma DecryptEncrypt(n: nat, enc: Cipher, dec: Cipher, iv: Block, p: seq<Block>, c: seq<Block>, p': seq<Block>)
    requires Inverse(n, enc, dec) && |iv| == n && Sized(n, p) && Encrypts(enc, iv, p, c)
    ensures Decrypts(dec, iv, c, p') <==> p' == p
  {
    forall i {:trigger p[i]} | 0 <= i < |p| ensures Xor(Apply(dec, c[i]), Chain(iv, c, i)) == p[i] {
      CiphertextSized(n, enc, dec, iv, p, c, i);
      XorTwice(p[i], Chain(iv, c, i));
    }
  }

  /** Two chained pieces are one. */
  lemma EncryptsConcat(fn: Cipher, iv: Block, p: seq<Block>, c: seq<Block>, q: seq<Block>, d: seq<Block>)
    requires Encrypts(fn, iv, p, c) && Encrypts(fn, Chain(iv, c, |c|), q, d)
    ensures Encrypts(fn, iv, p + q, c + d) && Chain(iv, c + d, |c + d|) == Chain(Chain(iv, c, |c|), d, |d|)
  {
    forall i {:trigger (p + q)[i]} | 0 <= i < |p + q| ensures (c + d)[i] == Apply(fn, Xor((p + q)[i], Chain(iv, c + d, i))) {
      if i < |p| {
        assert Chain(iv, c + d, i) == Chain(iv, c, i);
      } else {
        assert Chain(iv, c + d, i) == Chain(Chain(iv, c, |c|), d, i - |p|);
      }
    }
  }

  lemma DecryptsConcat(fn: Cipher, iv: Block, c: seq<Block>, p: seq<Block>, d: seq<Block>, q: seq<Block>)
    requires Decrypts(fn, iv, c, p) && Decrypts(fn, Chain(iv, c, |c|), d, q)
    ensures Decrypts(fn, iv, c + d, p + q) && Chain(iv, c + d, |c + d|) == Chain(Chain(iv, c, |c|), d, |d|)
  {
    forall i {:trigger (p + q)[i]} | 0 <= i < |c + d| ensures (p + q)[i] == Xor(Apply(fn, (c + d)[i]), Chain(iv, c + d, i)) {
      if i < |c| {
        assert Chain(iv, c + d, i) == Chain(iv, c, i);
      } else {
        assert Chain(iv, c + d, i) == Chain(Chain(iv, c, |c|), d, i - |c|);
      }
    }
  }

  // ---------- the code ----------

  /** The fields of a walk that the loops change. */
  class Walk {
    var iv: Block

    constructor (iv: Block)
      ensures this.iv == iv
    {
      this.iv := iv;
    }

    /** `crypto_cbc_encrypt_segment`. */
    method EncryptSegment(n: nat, fn: Cipher, src: array<Block>, dst: array<Block>, nbytes: nat) returns (left: nat)
      requires 0 < n <= nbytes && Bits.Quotient(nbytes, n) <= src.Length && Bits.Quotient(nbytes, n) <= dst.Length
      requires src != dst
      modifies this, dst
      ensures left == nbytes % n
      ensures var q := Bits.Quotient(nbytes, n);
              && Encrypts(fn, old(iv), src[..q], dst[..q]) && iv == Chain(old(iv), dst[..q], q)
              && forall i :: q <= i < dst.Length ==> dst[i] == old(dst[i])
    {
      left := nbytes;
      var i: nat := 0;
      ghost var q, r := Bits.DivMod(nbytes, n);
      ghost var p := src[..];
      while left >= n
        invariant i <= q && left == (q - i) * n + r && src[..] == p
        invariant Encrypts(fn, old(iv), p[..i], dst[..i]) && iv == Chain(old(iv), dst[..i], i)
        invariant forall j :: i <= j < dst.Length ==> dst[j] == old(dst[j])
        decreases left
      {
        Turn(n, q, r, i);
        ghost var c := dst[..i];
        XorCommutes(iv, src[i]);
        iv := Xor(iv, src[i]);
        dst[i] := Apply(fn, iv);
        iv := dst[i];
        EncryptsNext(fn, old(iv), p, i, c, dst[i]);
        assert dst[..i + 1] == c + [dst[i]];
        i, left := i + 1, left - n;
      }
      Turn(n, q, r, i);
      assert src[..q] == p[..q];
    }

    /** `crypto_cbc_encrypt_inplace`: the same bytes and the same next `iv` as from one buffer to another. */
    method EncryptInPlace(n: nat, fn: Cipher, src: array<Block>, nbytes: nat) returns (left: nat)
      requires 0 < n <= nbytes && Bits.Quotient(nbytes, n) <= src.Length
      modifies this, src
      ensures left == nbytes % n
      ensures var q := Bits.Quotient(nbytes, n);
              && Encrypts(fn, old(iv), old(src[..q]), src[..q]) && iv == Chain(old(iv), src[..q], q)
              && forall i :: q <= i < src.Length ==> src[i] == old(src[i])
    {
      ghost var q, p := Bits.Quotient(nbytes, n), src[..];
      ghost var c;
      left, iv, c := EncryptForward(n, fn, src, iv, nbytes);
      assert p[..q] == old(src[..q]) && src[..q] == c;
      assert forall i :: q <= i < src.Length ==> src[..][i] == p[i];
    }

    /** `crypto_cbc_decrypt_segment`. */
    method DecryptSegment(n: nat, fn: Cipher, src: array<Block>, dst: array<Block>, nbytes: nat) returns (left: nat)
      requires 0 < n <= nbytes && Bits.Quotient(nbytes, n) <= src.Length && Bits.Quotient(nbytes, n) <= dst.Length
      requires src != dst
      modifies this, dst
      ensures left == nbytes % n
      ensures var q := Bits.Quotient(nbytes, n);
              && Decrypts(fn, old(iv), src[..q], dst[..q]) && iv == Chain(old(iv), src[..q], q)
              && forall i :: q <= i < dst.Length ==> dst[i] == old(dst[i])
    {
      left := nbytes;
      var i: nat, prev := 0, iv;
      ghost var q, r := Bits.DivMod(nbytes, n);
      ghost var c := src[..];
      while left >= n
        invariant i <= q && left == (q - i) * n + r && iv == old(iv) && src[..] == c
        invariant Decrypts(fn, iv, c[..i], dst[..i]) && prev == Chain(iv, c, i)
        invariant forall j :: i <= j < dst.Length ==> dst[j] == old(dst[j])
        decreases left
      {
        Turn(n, q, r, i);
        ghost var p := dst[..i];
        dst[i] := Apply(fn, src[i]);
        dst[i] := Xor(dst[i], prev);
        DecryptsNext(fn, iv, c, i, p, dst[i]);
        assert dst[..i + 1] == p + [dst[i]];
        prev := src[i];
        i, left := i + 1, left - n;
      }
      Turn(n, q, r, i);
      assert src[..q] == c[..q];
      iv := prev;
    }

    /** `crypto_cbc_decrypt_inplace`: backwards, with the same outcome as forwards into another buffer. The
        block size is a power of two. */
    method DecryptInPlace(k: nat, fn: Cipher, src: array<Block>, nbytes: nat) returns (left: nat)
      requires var n := Bits.Pow2(k); n <= nbytes && Bits.Quotient(nbytes, n) <= src.Length
      modifies this, src
      ensures left == nbytes % Bits.Pow2(k)
      ensures var q := Bits.Quotient(nbytes, Bits.Pow2(k));
              && Decrypts(fn, old(iv), old(src[..q]), src[..q]) && iv == Chain(old(iv), old(src[..q]), q)
              && forall i :: q <= i < src.Length ==> src[i] == old(src[i])
    {
      var n := Bits.Pow2(k);
      var start := LastBlock(k, nbytes);
      var lastIv := src[start];
      left := DecryptBackward(n, fn, src, iv, start, nbytes);
      iv := lastIv;
    }
  }

  /** Line 119: the byte offset of the last whole block, as a block index. */
  method LastBlock(k: nat, nbytes: nat) returns (start: nat)
    requires Bits.Pow2(k) <= nbytes
    ensures start + 1 == Bits.Quotient(nbytes, Bits.Pow2(k))
  {
    var n := Bits.Pow2(k);
    Bits.AndLowMask(nbytes, k);
    LastOffset(n, nbytes);
    start := Bits.Quotient(nbytes - Bits.And(nbytes, n - 1) - n, n);
  }

  lemma LastOffset(n: nat, nbytes: nat)
    requires 0 < n <= nbytes
    ensures nbytes - nbytes % n - n >= 0
    ensures Bits.Quotient(nbytes - nbytes % n - n, n) + 1 == Bits.Quotient(nbytes, n)
  {
    var q, r := Bits.DivMod(nbytes, n);
    if q > 0 {
      Bits.MulGe(q, n);
      assert nbytes - r - n == (q - 1) * n;
      Bits.MulDivMod(q - 1, n, 0);
    }
  }

  /** The first `i` blocks of `p` are enciphered in place, into `c`; the others are as they were. */
  ghost predicate InPlace(fn: Cipher, iv: Block, p: seq<Block>, i: nat, c: seq<Block>, now: seq<Block>, prev: Block) {
    && i <= |p| == |now| && Encrypts(fn, iv, p[..i], c) && prev == Chain(iv, c, i)
    && forall j {:trigger now[j]} :: 0 <= j < |now| ==> now[j] == if j < i then c[j] else p[j]
  }

  /** Lines 52-54. */
  method EncipherInPlace(fn: Cipher, src: array<Block>, i: nat, prev: Block,
                         ghost iv: Block, ghost p: seq<Block>, ghost c: seq<Block>)
    returns (next: Block, ghost c': seq<Block>)
    requires i < src.Length && InPlace(fn, iv, p, i, c, src[..], prev)
    modifies src
    ensures InPlace(fn, iv, p, i + 1, c', src[..], next)
  {
    assert src[..][i] == p[i];
    src[i] := Xor(src[i], prev);
    src[i] := Apply(fn, src[i]);
    next := src[i];
    EncryptsNext(fn, iv, p, i, c, next);
    c' := c + [next];
  }

  /** Lines 51-57: block after block, each chained into the next. */
  method EncryptForward(n: nat, fn: Cipher, src: array<Block>, iv: Block, nbytes: nat)
    returns (left: nat, prev: Block, ghost c: seq<Block>)
    requires 0 < n <= nbytes && Bits.Quotient(nbytes, n) <= src.Length
    modifies src
    ensures left == nbytes % n && InPlace(fn, iv, old(src[..]), Bits.Quotient(nbytes, n), c, src[..], prev)
  {
    left, prev, c := nbytes, iv, [];
    var i: nat := 0;
    ghost var q, r := Bits.DivMod(nbytes, n);
    ghost var p := src[..];
    while left >= n
      invariant i <= q && left == (q - i) * n + r && InPlace(fn, iv, p, i, c, src[..], prev)
      decreases left
    {
      Turn(n, q, r, i);
      prev, c := EncipherInPlace(fn, src, i, prev, iv, p, c);
      i, left := i + 1, left - n;
    }
    Turn(n, q, r, i);
  }

  /** The backward loop with block `i` deciphered but not yet combined: later blocks are plaintext, earlier
      ones and those after `last` are untouched. */
  ghost predicate Backward(fn: Cipher, c: seq<Block>, last: nat, i: nat, now: seq<Block>) {
    && i <= last < |c| == |now| && now[i] == Apply(fn, c[i])
    && (forall j :: 0 <= j < i || last < j < |c| ==> now[j] == c[j])
    && forall j {:trigger now[j]} :: i < j <= last ==> now[j] == Xor(Apply(fn, c[j]), c[j - 1])
  }

  /** Lines 126-127 and 123: combine block `i`, step back and decipher. */
  method StepBack(fn: Cipher, src: array<Block>, i: nat, ghost c: seq<Block>, ghost last: nat)
    requires Backward(fn, c, last, i, src[..]) && i > 0
    modifies src
    ensures Backward(fn, c, last, i - 1, src[..])
  {
    src[i] := Xor(src[i], src[i - 1]);
    src[i - 1] := Apply(fn, src[i - 1]);
  }

  lemma BackwardDone(fn: Cipher, iv: Block, c: seq<Block>, last: nat, now: seq<Block>)
    requires Backward(fn, c, last, 0, now)
    ensures Decrypts(fn, iv, c[..last + 1], now[..last + 1][0 := Xor(now[0], iv)])
  {
    var m, p := last + 1, now[..last + 1][0 := Xor(now[0], iv)];
    forall j {:trigger p[j]} | 0 <= j < m ensures p[j] == Xor(Apply(fn, c[..m][j]), Chain(iv, c[..m], j)) {
      if j > 0 { assert p[j] == now[j]; }
    }
  }

  /** Lines 122-130: from the last block down to the first. */
  method DecryptBackward(n: nat, fn: Cipher, src: array<Block>, iv: Block, start: nat, nbytes: nat) returns (left: nat)
    requires 0 < n <= nbytes && start + 1 == Bits.Quotient(nbytes, n) <= src.Length
    modifies src
    ensures left == nbytes % n && Decrypts(fn, iv, old(src[..start + 1]), src[..start + 1])
    ensures forall i :: start < i < src.Length ==> src[i] == old(src[i])
  {
    ghost var q, r := Bits.DivMod(nbytes, n);
    ghost var c := src[..];
    var i: nat := start;
    src[i] := Apply(fn, src[i]);
    Turn(n, q, r, 0);
    left := nbytes - n;
    while left >= n
      invariant i <= start && left == i * n + r && Backward(fn, c, start, i, src[..])
      decreases left
    {
      Turn(n, i, r, 0);
      StepBack(fn, src, i, c, start);
      left, i := left - n, i - 1;
    }
    Turn(n, i, r, 0);
    ghost var now := src[..];
    src[i] := Xor(src[i], iv);
    BackwardDone(fn, iv, c, start, now);
    assert src[..start + 1] == now[..start + 1][0 := Xor(now[0], iv)] && c[..start + 1] == old(src[..start + 1]);
  }

  lemma DecryptsNext(fn: Cipher, iv: Block, c: seq<Block>, i: nat, p: seq<Block>, b: Block)
    requires i < |c| && |p| == i && Decrypts(fn, iv, c[..i], p) && b == Xor(Apply(fn, c[i]), Chain(iv, c, i))
    ensures Decrypts(fn, iv, c[..i + 1], p + [b])
  {
    forall j {:trigger (p + [b])[j]} | 0 <= j < i + 1 ensures (p + [b])[j] == Xor(Apply(fn, c[..i + 1][j]), Chain(iv, c[..i + 1], j)) {
      if j < i { assert p[j] == Xor(Apply(fn, c[..i][j]), Chain(iv, c[..i], j)); }
    }
  }

  /** The loop goes on exactly as long as a block is left. */
  lemma Turn(n: nat, q: nat, r: nat, i: nat)
    requires r < n && i <= q
    ensures (q - i) * n + r >= n <==> i < q
    ensures i < q ==> (q - i) * n + r - n == (q - (i + 1)) * n + r
  {
    if i < q { Bits.MulGe(q - i, n); }
  }

  lemma EncryptsNext(fn: Cipher, iv: Block, p: seq<Block>, i: nat, c: seq<Block>, b: Block)
    requires i < |p| && |c| == i && Encrypts(fn, iv, p[..i], c) && b == Apply(fn, Xor(p[i], Chain(iv, c, i)))
    ensures Encrypts(fn, iv, p[..i + 1], c + [b])
  {
    forall j {:trigger p[..i + 1][j]} | 0 <= j < i + 1 ensures (c + [b])[j] == Apply(fn, Xor(p[..i + 1][j], Chain(iv, c + [b], j))) {
      assert Chain(iv, c + [b], j) == Chain(iv, c, j);
      if j < i { assert p[..i][j] == p[j]; }
    }
  }

  // ---------- whole walks ----------

  /** A step of a walk presents `nbytes` bytes; what does not fill a block is presented again by the next. */
  datatype Step = Step(nbytes: nat, inPlace: bool)

  /** The steps present a message of `blocks` blocks of `n` bytes. */
  predicate Walks(n: nat, blocks: nat, steps: seq<Step>)
    requires n > 0
    decreases steps
  {
    if steps == [] then blocks == 0
    else
      && n <= steps[0].nbytes && Bits.Quotient(steps[0].nbytes, n) <= blocks
      && Walks(n, blocks - Bits.Quotient(steps[0].nbytes, n), steps[1..])
  }

  /** A buffer of a step's own. */
  method Buffer(data: seq<Block>) returns (a: array<Block>)
    ensures fresh(a) && a[..] == data
  {
    a := new Block[|data|](i requires 0 <= i < |data| => data[i]);
  }

  /** One turn of `crypto_cbc_encrypt_walk`, on the step's own buffers. */
  method EncryptStep(w: Walk, n: nat, fn: Cipher, data: seq<Block>, step: Step) returns (c: seq<Block>)
    requires 0 < n <= step.nbytes && |data| == Bits.Quotient(step.nbytes, n)
    modifies w
    ensures Encrypts(fn, old(w.iv), data, c) && w.iv == Chain(old(w.iv), c, |c|)
  {
    var src := Buffer(data);
    assert src[..|data|] == data;
    if step.inPlace {
      var _ := w.EncryptInPlace(n, fn, src, step.nbytes);
      c := src[..|data|];
    } else {
      var dst := new Block[|data|];
      var _ := w.EncryptSegment(n, fn, src, dst, step.nbytes);
      c := dst[..|data|];
    }
  }

  /** `crypto_cbc_encrypt_walk`: any split, each step in place or not, gives one pass over the message. */
  method EncryptWalk(w: Walk, n: nat, fn: Cipher, message: seq<Block>, steps: seq<Step>) returns (out: seq<Block>)
    requires n > 0 && Walks(n, |message|, steps)
    modifies w
    ensures Encrypts(fn, old(w.iv), message, out) && w.iv == Chain(old(w.iv), out, |out|)
  {
    out := [];
    ghost var iv0 := w.iv;
    assert steps[0..] == steps;
    for i := 0 to |steps|
      invariant |out| <= |message| && Walks(n, |message| - |out|, steps[i..])
      invariant Encrypts(fn, iv0, message[..|out|], out) && w.iv == Chain(iv0, out, |out|)
    {
      assert steps[i..][1..] == steps[i + 1..];
      var q := Bits.Quotient(steps[i].nbytes, n);
      var data := message[|out|..|out| + q];
      var c := EncryptStep(w, n, fn, data, steps[i]);
      EncryptsConcat(fn, iv0, message[..|out|], out, data, c);
      assert message[..|out| + q] == message[..|out|] + data;
      out := out + c;
    }
    assert message[..|out|] == message;
  }

  /** `crypto_cbc_decrypt_blocks`, on the step's own buffers. */
  method DecryptBlocks(w: Walk, k: nat, fn: Cipher, data: seq<Block>, step: Step) returns (p: seq<Block>)
    requires Bits.Pow2(k) <= step.nbytes && |data| == Bits.Quotient(step.nbytes, Bits.Pow2(k))
    modifies w
    ensures Decrypts(fn, old(w.iv), data, p) && w.iv == Chain(old(w.iv), data, |data|)
  {
    var src := Buffer(data);
    assert src[..|data|] == data;
    if step.inPlace {
      var _ := w.DecryptInPlace(k, fn, src, step.nbytes);
      p := src[..|data|];
    } else {
      var dst := new Block[|data|];
      var _ := w.DecryptSegment(Bits.Pow2(k), fn, src, dst, step.nbytes);
      p := dst[..|data|];
    }
  }

  /** A caller's loop around `crypto_cbc_decrypt_blocks`. */
  method DecryptWalk(w: Walk, k: nat, fn: Cipher, message: seq<Block>, steps: seq<Step>) returns (out: seq<Block>)
    requires Walks(Bits.Pow2(k), |message|, steps)
    modifies w
    ensures Decrypts(fn, old(w.iv), message, out) && w.iv == Chain(old(w.iv), message, |message|)
  {
    out := [];
    var n := Bits.Pow2(k);
    ghost var iv0 := w.iv;
    assert steps[0..] == steps;
    for i := 0 to |steps|
      invariant |out| <= |message| && Walks(n, |message| - |out|, steps[i..])
      invariant Decrypts(fn, iv0, message[..|out|], out) && w.iv == Chain(iv0, message[..|out|], |out|)
    {
      assert steps[i..][1..] == steps[i + 1..];
      var q := Bits.Quotient(steps[i].nbytes, n);
      var data := message[|out|..|out| + q];
      var p := DecryptBlocks(w, k, fn, data, steps[i]);
      DecryptsConcat(fn, iv0, message[..|out|], out, data, p);
      assert message[..|out| + q] == message[..|out|] + data;
      out := out + p;
    }
    assert message[..|out|] == message;
  }

  /** Decrypting under any other split gives the message back. */
  method RoundTrip(k: nat, enc: Cipher, dec: Cipher, iv: Block, message: seq<Block>, there: seq<Step>, back: seq<Step>)
    returns (plain: seq<Block>)
    requires Inverse(Bits.Pow2(k), enc, dec) && |iv| == Bits.Pow2(k) && Sized(Bits.Pow2(k), message)
    requires Walks(Bits.Pow2(k), |message|, there) && Walks(Bits.Pow2(k), |message|, back)
    ensures plain == message
  {
    var w1 := new Walk(iv);
    var cipher := EncryptWalk(w1, Bits.Pow2(k), enc, message, there);
    var w2 := new Walk(iv);
    plain := DecryptWalk(w2, k, dec, cipher, back);
    DecryptEncrypt(Bits.Pow2(k), enc, dec, iv, message, cipher, plain);
  }
}
