/** Walking the bytes of a scatter list in chunks that stay inside one page of one entry. */
module Scatterwalk {
  import Bits

  /** An entry: `base` is the address where its first page starts. */
  datatype Entry = Entry(base: nat, offset: nat, length: nat) {
    /** `offset + length` does not wrap a 32-bit integer. */
    predicate Valid() { offset + length < Bits.TWO32 }
  }

  /** The addresses `a`, `a + 1`, ... `a + n - 1`. */
  function Span(a: nat, n: nat): (r: seq<nat>)
    ensures |r| == n
  {
    seq(n, i => a + i)
  }

  /** The addresses of a scatter list, in order. */
  function Addresses(sgl: seq<Entry>): seq<nat> {
    if sgl == [] then [] else Span(sgl[0].base + sgl[0].offset, sgl[0].length) + Addresses(sgl[1..])
  }

  /** `n` bytes from `offset` of entry `sg`. */
  datatype Chunk = Chunk(sg: nat, offset: nat, n: nat)

  function ChunkSpan(sgl: seq<Entry>, c: Chunk): seq<nat> {
    if c.sg < |sgl| then Span(sgl[c.sg].base + c.offset, c.n) else []
  }

  function Visited(sgl: seq<Entry>, chunks: seq<Chunk>): seq<nat> {
    if chunks == [] then [] else Visited(sgl, chunks[..|chunks| - 1]) + ChunkSpan(sgl, chunks[|chunks| - 1])
  }

  /** A chunk lies inside its entry and inside one page of `Pow2(shift)` bytes. */
  predicate Inside(sgl: seq<Entry>, shift: nat, c: Chunk) {
    && c.sg < |sgl| && sgl[c.sg].offset <= c.offset && c.offset + c.n <= sgl[c.sg].offset + sgl[c.sg].length
    && c.offset % Bits.Pow2(shift) + c.n <= Bits.Pow2(shift)
  }

  lemma LowDigit(y: nat, shift: nat, hi: nat, lo: nat)
    requires y == hi * Bits.Pow2(shift) + lo && lo < Bits.Pow2(shift)
    ensures Bits.And(y, Bits.Pow2(shift) - 1) == lo
  {
    Bits.AndLowMask(y, shift);
    Bits.DivUnique(y, Bits.Pow2(shift), hi, lo);
  }

  /** `offset_in_page(~x) + 1`: the bytes left in the page, `r` bytes into it. */
  lemma LeftInPage(w: nat, shift: nat, x: nat, q: nat, r: nat)
    requires shift <= w && x < Bits.Pow2(w) && x == q * Bits.Pow2(shift) + r && r < Bits.Pow2(shift)
    ensures Bits.And(Bits.Not(w, x), Bits.Pow2(shift) - 1) + 1 == Bits.Pow2(shift) - r
  {
    var p, m := Bits.Pow2(shift), Bits.Pow2(w - shift);
    Bits.Pow2Add(shift, w - shift);
    NotSplit(p, m, q, r);
    LowDigit(Bits.Not(w, x), shift, m - 1 - q, p - 1 - r);
  }

  lemma NotSplit(p: nat, m: nat, q: nat, r: nat)
    requires p > 0 && q * p + r < p * m && r < p
    ensures q < m && p * m - 1 - (q * p + r) == (m - 1 - q) * p + (p - 1 - r)
  {
    if q >= m { Bits.MulGe(q - m + 1, p); }
  }

  class Walk {
    const sgl: seq<Entry>
    const shift: nat
    var sg: nat
    var offset: nat

    /** `scatterwalk_start` on the first entry. */
    constructor (sgl: seq<Entry>, shift: nat)
      requires sgl != []
      ensures this.sgl == sgl && this.shift == shift && sg == 0 && offset == sgl[0].offset
    {
      this.sgl, this.shift := sgl, shift;
      sg, offset := 0, sgl[0].offset;
    }

    predicate Valid()
      reads this
    {
      && shift <= 32 && (forall i :: 0 <= i < |sgl| ==> sgl[i].Valid())
      && sg < |sgl| && sgl[sg].offset <= offset <= sgl[sg].offset + sgl[sg].length
    }

    /** The addresses from here to the end of the list. */
    ghost function Rest(): seq<nat>
      requires Valid()
      reads this
    {
      Span(sgl[sg].base + offset, sgl[sg].offset + sgl[sg].length - offset) + Addresses(sgl[sg + 1..])
    }

    /** `scatterwalk_start`. */
    method Start(at: nat)
      requires at < |sgl|
      modifies this
      ensures sg == at && offset == sgl[at].offset
    {
      sg, offset := at, sgl[at].offset;
    }

    /** `scatterwalk_pagelen`. */
    method PageLen() returns (len: nat)
      requires Valid()
      ensures Inside(sgl, shift, Chunk(sg, offset, len))
      ensures len == 0 <==> offset == sgl[sg].offset + sgl[sg].length
      ensures len == sgl[sg].offset + sgl[sg].length - offset || (offset + len) % Bits.Pow2(shift) == 0
    {
      len := sgl[sg].offset + sgl[sg].length - offset;
      Bits.Pow2Values();
      PageRest(32, shift, offset);
      var lenThisPage := Bits.And(Bits.Not(32, offset), Bits.Pow2(shift) - 1) + 1;
      len := if lenThisPage > len then len else lenThisPage;
    }

    /** `scatterwalk_clamp`: as much of `nbytes` as lies in this page of this entry. */
    method Clamp(nbytes: nat) returns (len: nat)
      requires Valid()
      ensures len <= nbytes && Inside(sgl, shift, Chunk(sg, offset, len))
      ensures len == 0 ==> nbytes == 0 || offset == sgl[sg].offset + sgl[sg].length
    {
      var lenThisPage := PageLen();
      len := if nbytes > lenThisPage then lenThisPage else nbytes;
    }

    /** `scatterwalk_advance`. */
    method Advance(nbytes: nat)
      requires Valid() && offset + nbytes <= sgl[sg].offset + sgl[sg].length
      modifies this`offset
      ensures Valid() && offset == old(offset) + nbytes
      ensures old(Rest()) == Span(sgl[sg].base + old(offset), nbytes) + Rest()
    {
      offset := offset + nbytes;
      SpanSplit(sgl[sg].base + old(offset), nbytes, sgl[sg].offset + sgl[sg].length - old(offset));
    }

    /** `scatterwalk_pagedone`, apart from the cache flush. */
    method PageDone(more: bool)
      requires Valid() && (more ==> Rest() != [])
      modifies this
      ensures Valid() && Rest() == old(Rest())
      ensures if more && old(offset) == sgl[old(sg)].offset + sgl[old(sg)].length then sg == old(sg) + 1
              else sg == old(sg) && offset == old(offset)
    {
      if more && offset >= sgl[sg].offset + sgl[sg].length {
        assert sgl[sg + 1..] != [] ==> sgl[sg + 1..][1..] == sgl[sg + 2..];
        Start(sg + 1);
      }
    }

    /** `scatterwalk_done`: on to the next entry when this one is used up and more is wanted. */
    method Done(more: bool)
      requires Valid() && (more ==> Rest() != [])
      modifies this
      ensures Valid() && Rest() == old(Rest())
      ensures if more && old(offset) == sgl[old(sg)].offset + sgl[old(sg)].length then sg == old(sg) + 1
              else sg == old(sg) && offset == old(offset)
    {
      if !more || offset >= sgl[sg].offset + sgl[sg].length || Bits.And(offset, Bits.Pow2(shift) - 1) == 0 {
        PageDone(more);
      }
    }
  }

  lemma PageRest(w: nat, shift: nat, x: nat)
    requires shift <= w && x < Bits.Pow2(w)
    ensures var p := Bits.Pow2(shift);
            var left := Bits.And(Bits.Not(w, x), p - 1) + 1;
            left == p - x % p && (x + left) % p == 0
  {
    var q, r := Bits.DivMod(x, Bits.Pow2(shift));
    LeftInPage(w, shift, x, q, r);
    NextPage(Bits.Pow2(shift), x);
  }

  lemma NextPage(p: nat, x: nat)
    requires p > 0
    ensures (x + (p - x % p)) % p == 0
  {
    var q, r := Bits.DivMod(x, p);
    assert x + (p - r) == (q + 1) * p;
    Bits.MulDivMod(q + 1, p, 0);
  }

  lemma SpanSplit(a: nat, n: nat, m: nat)
    requires n <= m
    ensures Span(a, m) == Span(a, n) + Span(a + n, m - n)
  {
  }

  lemma VisitedSnoc(sgl: seq<Entry>, chunks: seq<Chunk>, c: Chunk)
    ensures Visited(sgl, chunks + [c]) == Visited(sgl, chunks) + ChunkSpan(sgl, c)
  {
    assert (chunks + [c])[..|chunks|] == chunks;
  }

  lemma Regroup(a: seq<nat>, b: seq<nat>, c: seq<nat>)
    ensures a + (b + c) == a + b + c
  {
  }

  /** One turn of the loop: clamp, advance, done. */
  method Turn(walk: Walk, left: nat, ghost seen: seq<nat>) returns (c: Chunk)
    requires walk.Valid() && 0 < left <= |walk.Rest()|
    modifies walk
    ensures walk.Valid() && c.n <= left && Inside(walk.sgl, walk.shift, c)
    ensures seen + ChunkSpan(walk.sgl, c) + walk.Rest() == seen + old(walk.Rest())
    ensures c.n == 0 ==> walk.sg > old(walk.sg)
    ensures walk.sg >= old(walk.sg)
  {
    var n := walk.Clamp(left);
    c := Chunk(walk.sg, walk.offset, n);
    walk.Advance(n);
    Regroup(seen, ChunkSpan(walk.sgl, c), walk.Rest());
    walk.Done(left - n > 0);
  }

  /** Clamp, advance, done until `nbytes` bytes are walked: their addresses are visited in order and exactly
      once, and every chunk stays inside one page of one entry. */
  method WalkBytes(sgl: seq<Entry>, shift: nat, nbytes: nat) returns (chunks: seq<Chunk>)
    requires sgl != [] && shift <= 32 && forall i :: 0 <= i < |sgl| ==> sgl[i].Valid()
    requires nbytes <= |Addresses(sgl)|
    ensures forall c :: c in chunks ==> Inside(sgl, shift, c)
    ensures Visited(sgl, chunks) == Addresses(sgl)[..nbytes]
  {
    var walk := new Walk(sgl, shift);
    chunks := [];
    var left: nat := nbytes;
    while left > 0
      invariant fresh(walk) && walk.sgl == sgl && walk.shift == shift && walk.Valid()
      invariant forall c :: c in chunks ==> Inside(sgl, shift, c)
      invariant Visited(sgl, chunks) + walk.Rest() == Addresses(sgl)
      invariant |Visited(sgl, chunks)| + left == nbytes
      decreases |sgl| - walk.sg, left
    {
      var c := Turn(walk, left, Visited(sgl, chunks));
      VisitedSnoc(sgl, chunks, c);
      chunks := chunks + [c];
      left := left - c.n;
    }
    assert (Visited(sgl, chunks) + walk.Rest())[..nbytes] == Visited(sgl, chunks);
  }
}
