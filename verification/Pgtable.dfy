/** Stepping through an address range one page-table entry at a time, level inside level, on words that
    wrap. An end address of 0 stands for the top of the address space. */
module Pgtable {
  import opened Bits

  /** `x - 1` on a word of `w` bits. */
  function Pred(w: nat, x: nat): int { if x == 0 then Pow2(w) - 1 else x - 1 }

  /** `pgd_addr_end` and its fellows: the next boundary, or the end when that comes earlier. */
  function AddrEnd(w: nat, shift: nat, addr: nat, end: nat): nat
    requires shift <= w && addr < Pow2(w)
  {
    Pow2Monotone(shift, w);
    var sum := if addr + Pow2(shift) >= Pow2(w) then addr + Pow2(shift) - Pow2(w) else addr + Pow2(shift);
    var boundary := And(sum, Not(w, Pow2(shift) - 1));
    if Pred(w, boundary) < Pred(w, end) then boundary else end
  }

  /** The number an end address stands for. */
  function Top(w: nat, end: nat): nat { if end == 0 then Pow2(w) else end }

  /** The first multiple of the entry size after `addr`. */
  function NextMultiple(shift: nat, addr: nat): nat { (Quotient(addr, Pow2(shift)) + 1) * Pow2(shift) }

  lemma MultipleBelow(size: nat, m: nat, q: nat, r: nat)
    requires size > 0 && q * size + r < m * size && r < size
    ensures (q + 1) * size <= m * size && ((q + 1) * size < m * size ==> (q + 1) * size + size <= m * size)
  {
    if q + 1 > m { MulGe(q - m + 1, size); }
    if q + 1 < m { MulGe(m - q - 1, size); }
  }

  lemma RoundUp(size: nat, m: nat, top: nat, addr: nat, q: nat, r: nat, sum: nat)
    requires size > 0 && top == m * size && addr == q * size + r < top && r < size
    requires sum == if addr + size >= top then addr + size - top else addr + size
    ensures addr < (q + 1) * size <= top
    ensures sum == if (q + 1) * size == top then r else (q + 1) * size + r
    ensures sum < top
  {
    MultipleBelow(size, m, q, r);
    assert addr + size == (q + 1) * size + r;
  }

  lemma HighPart(w: nat, x: nat, shift: nat, hi: nat, lo: nat)
    requires shift <= w && x < Pow2(w) && x == hi * Pow2(shift) + lo && lo < Pow2(shift) && Pow2(shift) - 1 < Pow2(w)
    ensures And(x, Not(w, Pow2(shift) - 1)) == hi * Pow2(shift)
  {
    AndHighMask(w, x, shift);
    DivUnique(x, Pow2(shift), hi, lo);
  }

  /** The rounded boundary is the next multiple, reduced to the word: it wraps to 0 at the very top. */
  lemma Boundary(w: nat, shift: nat, addr: nat, sum: nat)
    requires shift <= w && addr < Pow2(w) && Pow2(shift) - 1 < Pow2(w)
    requires sum == if addr + Pow2(shift) >= Pow2(w) then addr + Pow2(shift) - Pow2(w) else addr + Pow2(shift)
    ensures addr < NextMultiple(shift, addr) <= Pow2(w)
    ensures And(sum, Not(w, Pow2(shift) - 1)) == if NextMultiple(shift, addr) == Pow2(w) then 0 else NextMultiple(shift, addr)
  {
    var q, r := DivMod(addr, Pow2(shift));
    Pow2Add(shift, w - shift);
    RoundUp(Pow2(shift), Pow2(w - shift), Pow2(w), addr, q, r, sum);
    HighPart(w, sum, shift, if (q + 1) * Pow2(shift) == Pow2(w) then 0 else q + 1, r);
  }

  /** Whatever wraps, the result stands for the smaller of the next multiple and the end. */
  lemma AddrEndIsNext(w: nat, shift: nat, addr: nat, end: nat)
    requires shift <= w && addr < Top(w, end) <= Pow2(w)
    ensures addr < Top(w, AddrEnd(w, shift, addr, end)) <= Top(w, end)
    ensures Top(w, AddrEnd(w, shift, addr, end))
         == if NextMultiple(shift, addr) < Top(w, end) then NextMultiple(shift, addr) else Top(w, end)
    ensures Top(w, AddrEnd(w, shift, addr, end)) == Top(w, end) ==> AddrEnd(w, shift, addr, end) == end
  {
    Pow2Monotone(shift, w);
    var sum := if addr + Pow2(shift) >= Pow2(w) then addr + Pow2(shift) - Pow2(w) else addr + Pow2(shift);
    Boundary(w, shift, addr, sum);
  }

  /** `lo` to `hi` lies inside one entry of size `Pow2(shift)`. */
  predicate OneEntry(shift: nat, lo: nat, hi: nat)
    requires lo < hi
  {
    hi <= NextMultiple(shift, lo)
  }

  /** On a range inside one entry the general step is the folded one: it goes straight to the end. */
  lemma FoldedIsGeneral(w: nat, shift: nat, addr: nat, end: nat)
    requires shift <= w && addr < Top(w, end) <= Pow2(w)
    ensures OneEntry(shift, addr, Top(w, end)) <==> AddrEnd(w, shift, addr, end) == end
  {
    AddrEndIsNext(w, shift, addr, end);
  }

  lemma OneEntrySub(shift: nat, a: nat, b: nat, lo: nat, hi: nat)
    requires a <= lo < hi <= b && OneEntry(shift, a, b)
    ensures OneEntry(shift, lo, hi)
  {
    QuotientMonotone(a, lo, Pow2(shift));
  }

  lemma QuotientMonotone(a: nat, b: nat, size: nat)
    requires a <= b && size > 0
    ensures (Quotient(a, size) + 1) * size <= (Quotient(b, size) + 1) * size
  {
    var q, r := DivMod(a, size);
    var q', r' := DivMod(b, size);
    if q > q' { MulGe(q - q', size); }
    if q' > q { MulGe(q' - q, size); }
  }

  // ---------- partitions of a range ----------

  datatype Piece = Piece(lo: nat, hi: nat)

  /** Non-empty pieces, end to end, from `lo` to `hi`. */
  predicate Covers(pieces: seq<Piece>, lo: nat, hi: nat) {
    if pieces == [] then lo == hi
    else pieces[0].lo == lo < pieces[0].hi <= hi && Covers(pieces[1..], pieces[0].hi, hi)
  }

  lemma {:induction false} CoversConcat(a: seq<Piece>, b: seq<Piece>, lo: nat, mid: nat, hi: nat)
    requires Covers(a, lo, mid) && Covers(b, mid, hi) && mid <= hi
    ensures Covers(a + b, lo, hi)
    decreases a
  {
    if a == [] {
      assert a + b == b;
    } else {
      assert (a + b)[1..] == a[1..] + b;
      CoversConcat(a[1..], b, a[0].hi, mid, hi);
    }
  }

  lemma {:induction false} CoversWithin(pieces: seq<Piece>, lo: nat, hi: nat, i: nat)
    requires Covers(pieces, lo, hi) && i < |pieces|
    ensures lo <= pieces[i].lo < pieces[i].hi <= hi
    decreases pieces
  {
    if i > 0 { CoversWithin(pieces[1..], pieces[0].hi, hi, i - 1); }
  }

  /** Every address of the range is in exactly one piece. */
  lemma {:induction false} CoversOnce(pieces: seq<Piece>, lo: nat, hi: nat, x: nat) returns (i: nat)
    requires Covers(pieces, lo, hi) && lo <= x < hi
    ensures i < |pieces| && pieces[i].lo <= x < pieces[i].hi
    ensures forall j :: 0 <= j < |pieces| && pieces[j].lo <= x < pieces[j].hi ==> j == i
    decreases pieces
  {
    if x < pieces[0].hi {
      i := 0;
      forall j | 0 < j < |pieces| ensures x < pieces[j].lo {
        CoversWithin(pieces[1..], pieces[0].hi, hi, j - 1);
      }
    } else {
      var k := CoversOnce(pieces[1..], pieces[0].hi, hi, x);
      i := k + 1;
      forall j | 0 < j < |pieces| && pieces[j].lo <= x < pieces[j].hi ensures j == i {
        assert pieces[1..][j - 1] == pieces[j];
      }
    }
  }

  // ---------- the nested walk ----------

  /** A level of the page table; a folded one takes the entry size of the level above it. */
  datatype Level = Level(shift: nat, folded: bool)

  predicate Levels(w: nat, levels: seq<Level>) {
    && (forall j :: 0 <= j < |levels| ==> levels[j].shift <= w)
    && forall j {:trigger levels[j].folded} ::
         0 <= j < |levels| && levels[j].folded ==> j > 0 && levels[j].shift == levels[j - 1].shift
  }

  predicate Fits(levels: seq<Level>, from: nat, p: Piece) {
    p.lo < p.hi && forall j :: from <= j < |levels| ==> OneEntry(levels[j].shift, p.lo, p.hi)
  }

  /** The end of the entry at `addr`, by the formula of the level: the general one or the folded one. */
  method EntryEnd(w: nat, level: Level, addr: nat, end: nat) returns (next: nat)
    requires level.shift <= w && addr < Top(w, end) <= Pow2(w)
    requires level.folded ==> OneEntry(level.shift, addr, Top(w, end))
    ensures next == AddrEnd(w, level.shift, addr, end)
    ensures addr < Top(w, next) <= Top(w, end) && (Top(w, next) == Top(w, end) ==> next == end)
    ensures OneEntry(level.shift, addr, Top(w, next))
  {
    FoldedIsGeneral(w, level.shift, addr, end);
    AddrEndIsNext(w, level.shift, addr, end);
    next := if level.folded then end else AddrEnd(w, level.shift, addr, end);
  }

  lemma FitsAbove(levels: seq<Level>, l: nat, lo: nat, hi: nat, pieces: seq<Piece>)
    requires l < |levels| && Covers(pieces, lo, hi) && lo < hi && OneEntry(levels[l].shift, lo, hi)
    requires forall p :: p in pieces ==> Fits(levels, l + 1, p)
    ensures forall p :: p in pieces ==> Fits(levels, l, p)
  {
    forall p | p in pieces ensures Fits(levels, l, p) {
      var i :| 0 <= i < |pieces| && pieces[i] == p;
      CoversWithin(pieces, lo, hi, i);
      FitsOne(levels, l, lo, hi, p);
    }
  }

  lemma FitsOne(levels: seq<Level>, l: nat, lo: nat, hi: nat, p: Piece)
    requires l < |levels| && lo <= p.lo < p.hi <= hi && OneEntry(levels[l].shift, lo, hi) && Fits(levels, l + 1, p)
    ensures Fits(levels, l, p)
  {
    OneEntrySub(levels[l].shift, lo, hi, p.lo, p.hi);
  }

  /** One step of level `l`, and the level below inside it. */
  method Descend(w: nat, levels: seq<Level>, l: nat, addr: nat, end: nat) returns (next: nat, pieces: seq<Piece>)
    requires Levels(w, levels) && l < |levels| && addr < Top(w, end) <= Pow2(w)
    requires l > 0 ==> OneEntry(levels[l - 1].shift, addr, Top(w, end))
    ensures addr < Top(w, next) <= Top(w, end) && (Top(w, next) == Top(w, end) ==> next == end)
    ensures Covers(pieces, addr, Top(w, next)) && forall p :: p in pieces ==> Fits(levels, l, p)
    decreases |levels| - l, 0
  {
    next := EntryEnd(w, levels[l], addr, end);
    if l + 1 == |levels| {
      pieces := [Piece(addr, Top(w, next))];
    } else {
      pieces := WalkRange(w, levels, l + 1, addr, next);
      FitsAbove(levels, l, addr, Top(w, next), pieces);
    }
  }

  /** The nested loops over all levels from `l` down: they end, they partition the range, and no piece crosses
      an entry boundary of any of these levels. */
  method WalkRange(w: nat, levels: seq<Level>, l: nat, addr: nat, end: nat) returns (pieces: seq<Piece>)
    requires Levels(w, levels) && l < |levels| && addr < Top(w, end) <= Pow2(w)
    requires l > 0 ==> OneEntry(levels[l - 1].shift, addr, Top(w, end))
    ensures Covers(pieces, addr, Top(w, end)) && forall p :: p in pieces ==> Fits(levels, l, p)
    decreases |levels| - l, 1
  {
    var next, step := Descend(w, levels, l, addr, end);
    pieces := step;
    while next != end
      invariant addr < Top(w, next) <= Top(w, end) && (Top(w, next) == Top(w, end) ==> next == end)
      invariant Covers(pieces, addr, Top(w, next)) && forall p :: p in pieces ==> Fits(levels, l, p)
      decreases Top(w, end) - Top(w, next)
    {
      var at := next;
      if l > 0 { OneEntrySub(levels[l - 1].shift, addr, Top(w, end), at, Top(w, end)); }
      next, step := Descend(w, levels, l, at, end);
      CoversConcat(pieces, step, addr, at, Top(w, next));
      pieces := pieces + step;
    }
  }
}
