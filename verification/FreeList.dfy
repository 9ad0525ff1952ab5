/**
 The free list of the allocators in libc/malloc, as a value: a sequence of
 chunks in list order. `Malloc`, `Free` and `MallocAlign` say what one call does
 to that sequence; both allocators are proved against them (InBandHeap.dfy and
 ExternHeap.dfy). The lemmas relate the sequence to the set of free bytes.
 */
module FreeList {

  // sizeof(malloc_chunk_t) on rv32: the fields size, next and addr.
  const HEADER_SIZE: int := 12

  datatype Chunk = Chunk(addr: int, size: int) {
    function End(): int { addr + size }
  }

  // The list after an allocation and the address handed out, 0 for NULL.
  datatype Allocation = Allocation(free: seq<Chunk>, ptr: int)

  // A multiple of MIN_CHUNK_SIZE, which is 8.
  predicate Whole(x: int) {
    x % 8 == 0
  }

  // A request in whole chunks: ALIGN_UP(size, MIN_CHUNK_SIZE).
  function Round(size: int): (r: int)
    ensures Whole(r) && size <= r < size + 8
  {
    if Whole(size) then size else size + 8 - size % 8
  }

  predicate IsPowerOfTwo(a: int) {
    a == 1 || (a > 1 && a % 2 == 0 && IsPowerOfTwo(a / 2))
  }

  // x & (a - 1)
  function LowBits(x: int, a: int): (r: int)
    requires IsPowerOfTwo(a)
    ensures 0 <= r < a
    decreases a
  {
    if a == 1 then 0 else x % 2 + 2 * LowBits(x / 2, a / 2)
  }

  // (x + a - 1) & -a
  function AlignUp(x: int, a: int): (r: int)
    requires IsPowerOfTwo(a)
    ensures x <= r < x + a
  {
    x + a - 1 - LowBits(x + a - 1, a)
  }

  // ---------------------------------------------------------------- operations

  /** First chunk of at least `n` bytes, |L| when there is none. */
  function FirstFit(L: seq<Chunk>, n: int): (i: nat)
    ensures i <= |L|
    ensures forall j :: 0 <= j < i ==> L[j].size < n
    ensures i < |L| ==> n <= L[i].size
  {
    if L == [] || n <= L[0].size then 0 else 1 + FirstFit(L[1..], n)
  }

  /** First chunk that does not start below `a`, |L| when there is none. */
  function Position(L: seq<Chunk>, a: int): (i: nat)
    ensures i <= |L|
    ensures forall j :: 0 <= j < i ==> L[j].addr < a
    ensures i < |L| ==> a <= L[i].addr
  {
    if L == [] || a <= L[0].addr then 0 else 1 + Position(L[1..], a)
  }

  // Removes the last `n` bytes of the chunk between A and B.
  function TakeEnd(A: seq<Chunk>, c: Chunk, B: seq<Chunk>, n: int): seq<Chunk> {
    if c.size == n then A + B else A + [Chunk(c.addr, c.size - n)] + B
  }

  /** First fit; an exact fit disappears, a larger chunk gives up its end. */
  function Malloc(L: seq<Chunk>, n: int): Allocation {
    var i := FirstFit(L, n);
    if i == |L| then Allocation(L, 0)
    else Allocation(TakeEnd(L[..i], L[i], L[i + 1..], n), L[i].End() - n)
  }

  // Puts `c` between A and B, joined with A's last chunk when they touch.
  function Insert(A: seq<Chunk>, c: Chunk, B: seq<Chunk>): seq<Chunk> {
    if A != [] && A[|A| - 1].End() == c.addr
    then A[..|A| - 1] + [Chunk(A[|A| - 1].addr, A[|A| - 1].size + c.size)] + B
    else A + [c] + B
  }

  // The freed bytes, joined with the first chunk of B when they touch.
  function InsertBefore(A: seq<Chunk>, c: Chunk, B: seq<Chunk>): seq<Chunk> {
    if B != [] && c.End() == B[0].addr
    then Insert(A, Chunk(c.addr, c.size + B[0].size), B[1..])
    else Insert(A, c, B)
  }

  /** Insertion by address, coalescing with the next and the previous chunk. */
  function Free(L: seq<Chunk>, a: int, n: int): seq<Chunk> {
    var i := Position(L, a);
    InsertBefore(L[..i], Chunk(a, n), L[i..])
  }

  // The free bytes left before the first aligned address of the block at `r`.
  function HeaderSize(r: int, align: int): int
    requires IsPowerOfTwo(align)
  {
    AlignUp(r, align) - r
  }

  // The size of the over-allocation that leaves room for a header and a tail.
  function Oversize(size: int, align: int): int {
    size + align + 2 * HEADER_SIZE
  }

  // Where the aligned block starts in an over-allocation at `r` with `h` bytes before
  // the first aligned address.
  function AlignedStart(r: int, h: int, align: int): int {
    if 0 < h < HEADER_SIZE then r + h + align else r + h
  }

  function FreeHeader(L: seq<Chunk>, r: int, h: int): seq<Chunk> {
    if h != 0 then Free(L, r, Round(h)) else L
  }

  // Frees what lies before and after the aligned block. The header's size `h` is not
  // adjusted when the next aligned address is taken.
  function Trim(m: Allocation, size: int, align: int, h: int): Allocation {
    var p := AlignedStart(m.ptr, h, align);
    Allocation(Free(FreeHeader(m.free, m.ptr, h), p + size, Round(Oversize(size, align) - h - size)), p)
  }

  /** Over-allocation, then release of what lies before and after. */
  function MallocAlign(L: seq<Chunk>, size: int, align: int): Allocation
    requires align < HEADER_SIZE || IsPowerOfTwo(align)
  {
    if align < HEADER_SIZE then Malloc(L, Round(size))
    else
      var m := Malloc(L, Round(Oversize(size, align)));
      if m.ptr == 0 then m else Trim(m, size, align, HeaderSize(m.ptr, align))
  }

  // ---------------------------------------------------------------- free bytes

  ghost function Range(a: int, n: int): (r: set<int>)
    ensures forall b :: b in r <==> a <= b < a + n
    decreases n
  {
    if n <= 0 then {} else {a} + Range(a + 1, n - 1)
  }

  ghost function Bytes(L: seq<Chunk>): set<int> {
    if L == [] then {} else Range(L[0].addr, L[0].size) + Bytes(L[1..])
  }

  // Chunks are non-empty, whole and aligned.
  ghost predicate Aligned(L: seq<Chunk>) {
    forall i :: 0 <= i < |L| ==>
      0 < L[i].addr && Whole(L[i].addr) && 0 < L[i].size && Whole(L[i].size)
  }

  // Ascending, and no two chunks overlap or touch.
  ghost predicate Apart(L: seq<Chunk>) {
    forall i, j :: 0 <= i < j < |L| ==> L[i].End() < L[j].addr
  }

  ghost predicate WellFormed(L: seq<Chunk>) {
    Aligned(L) && Apart(L)
  }

  lemma {:induction false} BytesAppend(A: seq<Chunk>, B: seq<Chunk>)
    ensures Bytes(A + B) == Bytes(A) + Bytes(B)
  {
    if A == [] {
      assert A + B == B;
    } else {
      assert (A + B)[1..] == A[1..] + B;
      BytesAppend(A[1..], B);
    }
  }

  lemma BytesSplice(A: seq<Chunk>, c: Chunk, B: seq<Chunk>)
    ensures Bytes(A + [c] + B) == Bytes(A) + Range(c.addr, c.size) + Bytes(B)
  {
    BytesAppend(A + [c], B);
    BytesAppend(A, [c]);
    assert [c][1..] == [];
  }

  lemma {:induction false} InBytes(L: seq<Chunk>, b: int)
    ensures b in Bytes(L) <==> exists i :: 0 <= i < |L| && L[i].addr <= b < L[i].End()
  {
    if L != [] {
      InBytes(L[1..], b);
      forall i | 1 <= i < |L| && L[i].addr <= b < L[i].End()
        ensures b in Bytes(L)
      {
        assert L[1..][i - 1] == L[i];
      }
      if b in Bytes(L[1..]) {
        var i :| 0 <= i < |L[1..]| && L[1..][i].addr <= b < L[1..][i].End();
        assert L[i + 1] == L[1..][i];
      }
    }
  }

  // ------------------------------------------------------- the list is canonical

  /** A well-formed list is determined by its set of free bytes. */
  lemma {:induction false} Canonical(L: seq<Chunk>, M: seq<Chunk>)
    requires WellFormed(L) && WellFormed(M) && Bytes(L) == Bytes(M)
    ensures L == M
  {
    hide Bytes, Whole;
    EmptyBytes(L);
    EmptyBytes(M);
    if L != [] && M != [] {
      HeadIsLeast(L);
      HeadIsLeast(M);
      SameHead(L, M);
      SameHead(M, L);
      TailBytes(L);
      TailBytes(M);
      Canonical(L[1..], M[1..]);
      assert L == [L[0]] + L[1..] && M == [M[0]] + M[1..];
    }
  }

  lemma HeadIsLeast(L: seq<Chunk>)
    requires WellFormed(L) && L != []
    ensures L[0].addr in Bytes(L) && forall b :: b in Bytes(L) ==> L[0].addr <= b
  {
    assert L[0].addr in Range(L[0].addr, L[0].size);
    forall b | b in Bytes(L) ensures L[0].addr <= b {
      InBytes(L, b);
    }
  }

  lemma EmptyBytes(L: seq<Chunk>)
    requires WellFormed(L)
    ensures Bytes(L) == {} <==> L == []
  {
    if L != [] {
      assert L[0].addr in Bytes(L);
    }
  }

  lemma SameHead(L: seq<Chunk>, M: seq<Chunk>)
    requires WellFormed(L) && WellFormed(M) && Bytes(L) == Bytes(M)
    requires L != [] && M != [] && L[0].addr == M[0].addr
    ensures L[0].size <= M[0].size
  {
    if M[0].size < L[0].size {
      var b := M[0].End();
      assert b in Bytes(L);
      InBytes(M, b);
    }
  }

  lemma TailBytes(L: seq<Chunk>)
    requires WellFormed(L) && L != []
    ensures WellFormed(L[1..])
    ensures Bytes(L[1..]) == Bytes(L) - Range(L[0].addr, L[0].size)
  {
    forall b | b in Bytes(L[1..]) ensures b !in Range(L[0].addr, L[0].size) {
      InBytes(L[1..], b);
      var i :| 0 <= i < |L[1..]| && L[1..][i].addr <= b < L[1..][i].End();
      assert L[1..][i] == L[i + 1];
    }
  }
}
