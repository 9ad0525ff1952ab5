/**
 `__malloc_align` reserves room for a header and a tail of HEADER_SIZE = 12
 bytes each, but chunks are multiples of 8 bytes, so a header of exactly 8 bytes
 is possible. The code then moves to the next aligned address without adjusting
 the header's size and frees bytes it never allocated. The theorem `AlignExact`
 says when the call is correct, for every list, size and alignment.
 */
module AlignProofs {
  import opened FreeList
  import opened FreeListProofs
  import opened Words

  // ---------------------------------------------------------------- arithmetic

  // Clearing the low bits leaves a multiple.
  lemma {:induction false} ClearLowBits(x: int, a: int)
    requires IsPowerOfTwo(a)
    ensures LowBits(x - LowBits(x, a), a) == 0
    decreases a
  {
    if a > 1 {
      var l := LowBits(x / 2, a / 2);
      assert (x - (x % 2 + 2 * l)) / 2 == x / 2 - l;
      ClearLowBits(x / 2, a / 2);
    }
  }

  lemma {:induction false} LowBitsPeriod(x: int, a: int)
    requires IsPowerOfTwo(a)
    ensures LowBits(x + a, a) == LowBits(x, a)
    decreases a
  {
    if a > 1 {
      assert (x + a) / 2 == x / 2 + a / 2;
      LowBitsPeriod(x / 2, a / 2);
    }
  }

  lemma Halve(x: int, a: int)
    requires IsPowerOfTwo(a) && 1 < a
    ensures IsPowerOfTwo(a / 2) && a == 2 * (a / 2)
    ensures LowBits(x, a) == 0 ==> x == 2 * (x / 2) && LowBits(x / 2, a / 2) == 0
  {
  }

  // A multiple of a power of two above 4 is whole, and so is that power.
  lemma MultipleWhole(x: int, a: int)
    requires IsPowerOfTwo(a) && 4 < a
    ensures Whole(a) && (LowBits(x, a) == 0 ==> Whole(x))
  {
    hide IsPowerOfTwo, LowBits;
    Halve(x, a);
    var b, y := a / 2, x / 2;
    Halve(y, b);
    var c, z := b / 2, y / 2;
    Halve(z, c);
    assert a == 8 * (c / 2) && (LowBits(x, a) == 0 ==> x == 8 * (z / 2));
  }

  // The smallest powers of two divide every whole address.
  lemma SmallAlign(p: int, a: int)
    requires Whole(p) && IsPowerOfTwo(a) && a < HEADER_SIZE
    ensures LowBits(p, a) == 0
  {
    LowBitsModulo(p, a);
    assert a == 3 || a == 6 ==> !IsPowerOfTwo(3);
    assert a == 5 || a == 10 ==> !IsPowerOfTwo(5);
  }

  /** The bit mask computes the remainder: the low bits are clear exactly on multiples. */
  lemma {:induction false} LowBitsModulo(x: int, a: int)
    requires IsPowerOfTwo(a)
    ensures LowBits(x, a) == x % a
    decreases a
  {
    if a > 1 {
      var b := a / 2;
      LowBitsModulo(x / 2, b);
      var q := x / 2 / b;
      assert x == q * a + LowBits(x, a);
      Quotient(x, a, q, LowBits(x, a));
    }
  }

  // ---------------------------------------------------------------- the header

  lemma WholeDifference(x: int, y: int)
    requires Whole(x) && Whole(y)
    ensures Whole(x - y) && Whole(x + y)
  {
  }

  lemma HeaderWhole(r: int, align: int)
    requires Whole(r) && IsPowerOfTwo(align) && HEADER_SIZE <= align
    ensures Whole(align) && 0 <= HeaderSize(r, align) < align && Whole(HeaderSize(r, align))
    ensures LowBits(r + HeaderSize(r, align), align) == 0
    ensures LowBits(r + HeaderSize(r, align) + align, align) == 0
  {
    var up := AlignUp(r, align);
    ClearLowBits(r + align - 1, align);
    LowBitsPeriod(up, align);
    MultipleWhole(up, align);
    WholeDifference(up, r);
  }

  // ------------------------------------------------------------------ theorems

  // The call handed out `n` free bytes at an aligned address and nothing else.
  ghost predicate Exact(L: seq<Chunk>, m: Allocation, n: int, align: int)
    requires IsPowerOfTwo(align)
  {
    && LowBits(m.ptr, align) == 0
    && Range(m.ptr, n) <= Bytes(L)
    && Bytes(m.free) == Bytes(L) - Range(m.ptr, n)
  }

  function Reserved(size: int, align: int): int {
    Round(Oversize(size, align))
  }

  /** What a caller can check beforehand: whole sizes, and a first fit that
      does not leave exactly one 8-byte chunk before the aligned address. */
  predicate Safe(L: seq<Chunk>, size: int, align: int)
    requires IsPowerOfTwo(align)
  {
    align < HEADER_SIZE || (Whole(size) && HeaderSize(Malloc(L, Reserved(size, align)).ptr, align) != 8)
  }

  /** NULL exactly when no run of free bytes covers the over-allocation. */
  lemma AlignNull(L: seq<Chunk>, size: int, align: int)
    requires WellFormed(L) && 0 < size && IsPowerOfTwo(align)
    ensures var n := if align < HEADER_SIZE then Round(size) else Reserved(size, align);
      MallocAlign(L, size, align).ptr == 0 <==> !HasRun(L, n)
    ensures MallocAlign(L, size, align).ptr == 0 ==> MallocAlign(L, size, align).free == L
  {
    var n := if align < HEADER_SIZE then Round(size) else Reserved(size, align);
    MallocNull(L, n);
    MallocTakes(L, n);
    if HEADER_SIZE <= align && Malloc(L, n).ptr != 0 {
      HeaderWhole(Malloc(L, n).ptr, align);
    }
  }

  // An over-allocation taken out of the free bytes S, with a header of whole size.
  ghost predicate Oversized(S: set<int>, m: Allocation, size: int, align: int, h: int) {
    && WellFormed(m.free) && 0 < m.ptr && Whole(m.ptr)
    && 0 < size && Whole(align) && Whole(h) && 0 <= h < align
    && Range(m.ptr, Reserved(size, align)) <= S
    && Bytes(m.free) == S - Range(m.ptr, Reserved(size, align))
  }

  lemma HeaderFreed(S: set<int>, m: Allocation, size: int, align: int, h: int)
    requires Oversized(S, m, size, align, h)
    ensures WellFormed(FreeHeader(m.free, m.ptr, h))
    ensures Bytes(FreeHeader(m.free, m.ptr, h)) == S - Range(m.ptr, Reserved(size, align)) + Range(m.ptr, h)
  {
    if h != 0 {
      assert Range(m.ptr, h) !! Bytes(m.free);
      FreeAdds(m.free, m.ptr, h);
    } else {
      assert Range(m.ptr, h) == {};
    }
  }

  function TailSize(align: int, h: int): int {
    align + 2 * HEADER_SIZE - h
  }

  lemma TailWhole(size: int, align: int, h: int)
    requires Whole(align) && Whole(h) && h < align
    ensures Whole(TailSize(align, h)) && 0 < TailSize(align, h)
    ensures Round(Oversize(size, align) - h - size) == TailSize(align, h)
    ensures Whole(size) ==> Reserved(size, align) == h + size + TailSize(align, h)
    ensures h + size + TailSize(align, h) <= Reserved(size, align)
  {
    WholeDifference(align, h);
    assert Whole(24 + (align - h));
  }

  // The list after `Trim`, with the tail's size in closed form.
  function Trimmed(m: Allocation, size: int, align: int, h: int): seq<Chunk> {
    Free(FreeHeader(m.free, m.ptr, h), AlignedStart(m.ptr, h, align) + size, TailSize(align, h))
  }

  lemma TrimIsTrimmed(m: Allocation, size: int, align: int, h: int)
    requires Round(Oversize(size, align) - h - size) == TailSize(align, h)
    ensures Trim(m, size, align, h) == Allocation(Trimmed(m, size, align, h), AlignedStart(m.ptr, h, align))
  {
  }

  lemma TrimmedBytes(S: set<int>, m: Allocation, size: int, align: int, h: int)
    requires Oversized(S, m, size, align, h)
    ensures Bytes(Trimmed(m, size, align, h)) ==
            S - Range(m.ptr, Reserved(size, align)) + Range(m.ptr, h)
            + Range(AlignedStart(m.ptr, h, align) + size, TailSize(align, h))
  {
    hide Free, FreeHeader, Reserved;
    TailWhole(size, align, h);
    HeaderFreed(S, m, size, align, h);
    FreeBytes(FreeHeader(m.free, m.ptr, h), AlignedStart(m.ptr, h, align) + size, TailSize(align, h));
  }

  lemma StartsAtHeader(r: int, h: int, align: int)
    requires Whole(h) && 0 <= h && h != 8
    ensures AlignedStart(r, h, align) == r + h
  {
  }

  lemma TrimmedWellFormed(S: set<int>, m: Allocation, size: int, align: int, h: int)
    requires Oversized(S, m, size, align, h) && Whole(size) && h != 8
    ensures WellFormed(Trimmed(m, size, align, h))
  {
    hide Free, FreeHeader, Whole;
    TailWhole(size, align, h);
    HeaderFreed(S, m, size, align, h);
    StartsAtHeader(m.ptr, h, align);
    WholeDifference(m.ptr, h);
    WholeDifference(m.ptr + h, size);
    TailApart(S, Reserved(size, align), m.ptr, h, size, TailSize(align, h));
    FreeWellFormed(FreeHeader(m.free, m.ptr, h), m.ptr + h + size, TailSize(align, h));
  }

  lemma TailApart(S: set<int>, n: int, r: int, h: int, size: int, t: int)
    requires 0 <= h && 0 < size && h + size + t <= n
    ensures Range(r + h + size, t) !! S - Range(r, n) + Range(r, h)
  {
  }

  /** Positive half: header and tail both return to the list. */
  lemma AlignCorrect(L: seq<Chunk>, size: int, align: int)
    requires WellFormed(L) && 0 < size && IsPowerOfTwo(align)
    requires MallocAlign(L, size, align).ptr != 0 && Safe(L, size, align)
    ensures Exact(L, MallocAlign(L, size, align), Round(size), align)
    ensures WellFormed(MallocAlign(L, size, align).free)
  {
    if align < HEADER_SIZE {
      MallocTakes(L, Round(size));
      SmallAlign(Malloc(L, Round(size)).ptr, align);
    } else {
      AlignCorrectLarge(L, size, align);
    }
  }

  lemma AlignCorrectLarge(L: seq<Chunk>, size: int, align: int)
    requires WellFormed(L) && 0 < size && IsPowerOfTwo(align) && HEADER_SIZE <= align
    requires MallocAlign(L, size, align).ptr != 0 && Safe(L, size, align)
    ensures Exact(L, MallocAlign(L, size, align), size, align)
    ensures WellFormed(MallocAlign(L, size, align).free)
  {
    hide Free, FreeHeader, Trimmed, Malloc, MallocAlign, WellFormed, LowBits, Reserved, HeaderSize, AlignedStart, TailSize;
    var m := AlignUnfold(L, size, align);
    TrimmedExact(Bytes(L), m, size, align, HeaderSize(m.ptr, align));
  }

  lemma TrimmedExact(S: set<int>, m: Allocation, size: int, align: int, h: int)
    requires Oversized(S, m, size, align, h) && Whole(size) && h != 8
    ensures var p := AlignedStart(m.ptr, h, align);
      && Range(p, size) <= S
      && Bytes(Trimmed(m, size, align, h)) == S - Range(p, size)
      && WellFormed(Trimmed(m, size, align, h))
  {
    hide Trimmed, Reserved, AlignedStart, TailSize, Bytes, WellFormed;
    TrimmedBytes(S, m, size, align, h);
    TrimmedWellFormed(S, m, size, align, h);
    TailWhole(size, align, h);
    StartsAtHeader(m.ptr, h, align);
    CutMiddle(S, m.ptr, Reserved(size, align), h, AlignedStart(m.ptr, h, align), size, TailSize(align, h));
  }

  // What is known once the over-allocation has succeeded.
  lemma AlignUnfold(L: seq<Chunk>, size: int, align: int) returns (m: Allocation)
    requires WellFormed(L) && 0 < size && IsPowerOfTwo(align) && HEADER_SIZE <= align
    requires MallocAlign(L, size, align).ptr != 0
    ensures m == Malloc(L, Reserved(size, align))
    ensures Oversized(Bytes(L), m, size, align, HeaderSize(m.ptr, align))
    ensures var h := HeaderSize(m.ptr, align);
      && MallocAlign(L, size, align) == Allocation(Trimmed(m, size, align, h), AlignedStart(m.ptr, h, align))
      && LowBits(AlignedStart(m.ptr, h, align), align) == 0
  {
    hide Free, FreeHeader, Trim, Trimmed, LowBits, AlignUp;
    m := Malloc(L, Reserved(size, align));
    MallocTakes(L, Reserved(size, align));
    HeaderWhole(m.ptr, align);
    TailWhole(size, align, HeaderSize(m.ptr, align));
    TrimIsTrimmed(m, size, align, HeaderSize(m.ptr, align));
  }

  lemma SmallAlignIs(L: seq<Chunk>, size: int, align: int)
    requires align < HEADER_SIZE
    ensures MallocAlign(L, size, align) == Malloc(L, Round(size))
  {
  }

  lemma AlignPositive(L: seq<Chunk>, size: int, align: int)
    requires WellFormed(L) && 0 < size && IsPowerOfTwo(align)
    requires MallocAlign(L, size, align).ptr != 0 && Safe(L, size, align)
    ensures 0 < MallocAlign(L, size, align).ptr && Whole(MallocAlign(L, size, align).ptr)
  {
    hide Free, FreeHeader, Trimmed, Malloc, LowBits, MallocAlign;
    if align < HEADER_SIZE {
      MallocTakes(L, Round(size));
      SmallAlignIs(L, size, align);
    } else {
      var m := AlignUnfold(L, size, align);
      StartsAtHeader(m.ptr, HeaderSize(m.ptr, align), align);
      WholeDifference(m.ptr, HeaderSize(m.ptr, align));
    }
  }

  // Taking a block and giving back both its ends takes its middle.
  lemma CutMiddle(S: set<int>, r: int, n: int, h: int, p: int, size: int, t: int)
    requires Range(r, n) <= S && 0 <= h && 0 < size && 0 < t && p == r + h && n == h + size + t
    ensures Range(p, size) <= S
    ensures S - Range(r, n) + Range(r, h) + Range(p + size, t) == S - Range(p, size)
  {
  }

  // A header of 8 bytes loses the byte behind it; a size that is not whole runs into
  // the freed tail.
  lemma TrimmedWrong(S: set<int>, m: Allocation, size: int, align: int, h: int)
    requires Oversized(S, m, size, align, h)
    requires h == 8 || !Whole(size)
    ensures Bytes(Trimmed(m, size, align, h)) != S - Range(AlignedStart(m.ptr, h, align), Round(size))
  {
    hide Free, FreeHeader, Trimmed;
    var p := AlignedStart(m.ptr, h, align);
    TrimmedBytes(S, m, size, align, h);
    TailWhole(size, align, h);
    if h == 8 {
      assert m.ptr + 8 in Range(m.ptr, Reserved(size, align));
      assert m.ptr + 8 !in Bytes(Trimmed(m, size, align, h)) && m.ptr + 8 !in Range(p, Round(size));
    } else {
      assert p + size in Range(p, Round(size)) && p + size in Bytes(Trimmed(m, size, align, h));
    }
  }

  /** Negative half: otherwise the bytes that leave the free set are the wrong ones. */
  lemma AlignWrong(L: seq<Chunk>, size: int, align: int)
    requires WellFormed(L) && 0 < size && IsPowerOfTwo(align)
    requires MallocAlign(L, size, align).ptr != 0 && !Safe(L, size, align)
    ensures var m := MallocAlign(L, size, align);
      Bytes(m.free) != Bytes(L) - Range(m.ptr, Round(size))
  {
    hide Free, FreeHeader, Trimmed, Malloc;
    var m := AlignUnfold(L, size, align);
    TrimmedWrong(Bytes(L), m, size, align, HeaderSize(m.ptr, align));
  }

  // Safe or not, the address returned lies in the over-allocation.
  lemma AlignInside(L: seq<Chunk>, size: int, align: int)
    requires WellFormed(L) && 0 < size && IsPowerOfTwo(align) && HEADER_SIZE <= align
    requires MallocAlign(L, size, align).ptr != 0
    ensures MallocAlign(L, size, align).ptr in Bytes(L)
  {
    hide Free, FreeHeader, Trimmed, Malloc;
    var m := AlignUnfold(L, size, align);
    assert AlignedStart(m.ptr, HeaderSize(m.ptr, align), align) in Range(m.ptr, Reserved(size, align));
  }

  /** The call is correct if and only if it is `Safe`. */
  lemma AlignExact(L: seq<Chunk>, size: int, align: int)
    requires WellFormed(L) && 0 < size && IsPowerOfTwo(align)
    requires MallocAlign(L, size, align).ptr != 0
    ensures Exact(L, MallocAlign(L, size, align), Round(size), align) <==> Safe(L, size, align)
  {
    if Safe(L, size, align) {
      AlignCorrect(L, size, align);
    } else {
      AlignWrong(L, size, align);
    }
  }

  lemma SubRange(a: int, n: int, b: int, k: int)
    requires b <= a && a + n <= b + k
    ensures Range(a, n) <= Range(b, k)
  {
  }

  /** With an 8-byte header the `align` bytes behind the reserved block are freed too,
      whoever owns them. */
  lemma AlignOverrun(L: seq<Chunk>, size: int, align: int)
    requires WellFormed(L) && 0 < size && IsPowerOfTwo(align) && HEADER_SIZE <= align && Whole(size)
    requires MallocAlign(L, size, align).ptr != 0
    requires HeaderSize(Malloc(L, Reserved(size, align)).ptr, align) == 8
    ensures var r := Malloc(L, Reserved(size, align)).ptr;
      Range(r + Reserved(size, align), align) <= Bytes(MallocAlign(L, size, align).free)
  {
    hide Free, FreeHeader, Malloc, MallocAlign, Trim, Trimmed;
    var m := AlignUnfold(L, size, align);
    TrimmedBytes(Bytes(L), m, size, align, 8);
    TailWhole(size, align, 8);
    SubRange(m.ptr + Reserved(size, align), align, AlignedStart(m.ptr, 8, align) + size, TailSize(align, 8));
  }
}
