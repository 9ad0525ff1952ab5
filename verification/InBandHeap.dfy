/**
 The allocator of libc/malloc/malloc_internal.c: chunk headers live in the free
 memory itself. Memory is a store of 32-bit words by address; `size` is the word
 at a chunk's address and `next` the word after it.
 */
module InBandHeap {
  import opened FreeList
  import opened FreeListProofs
  import opened AlignProofs
  import opened HeapRuns

  // ------------------------------------------------------------ lists in memory

  // The address that leads to the list L, which ends by pointing to `last`.
  function Head(L: seq<Chunk>, last: int): int {
    if L == [] then last else L[0].addr
  }

  // The header of `c` is in memory and points to `next`.
  ghost predicate Cell(mem: map<int, int>, c: Chunk, next: int) {
    && c.addr in mem && mem[c.addr] == c.size
    && c.addr + 4 in mem && mem[c.addr + 4] == next
  }

  // The chunks of L are linked in memory, the last one to `last`.
  ghost predicate Stored(mem: map<int, int>, L: seq<Chunk>, last: int) {
    L == [] || (Cell(mem, L[0], Head(L[1..], last)) && Stored(mem, L[1..], last))
  }

  // `w` is one of the two header words of a chunk.
  ghost predicate HeaderWord(L: seq<Chunk>, w: int) {
    exists i :: 0 <= i < |L| && (w == L[i].addr || w == L[i].addr + 4)
  }

  // Headers are aligned and do not overlap, so the list cannot be cyclic.
  ghost predicate Linked(L: seq<Chunk>) {
    && (forall i :: 0 <= i < |L| ==> 0 < L[i].addr && Whole(L[i].addr))
    && (forall i, j :: 0 <= i < j < |L| ==> L[i].addr < L[j].addr)
  }

  // The addresses of A are below `a`.
  ghost predicate Below(A: seq<Chunk>, a: int) {
    forall i :: 0 <= i < |A| ==> A[i].addr < a
  }

  // The addresses of B are above `a`.
  ghost predicate Above(B: seq<Chunk>, a: int) {
    forall i :: 0 <= i < |B| ==> a < B[i].addr
  }

  // The chunks of A are too small.
  ghost predicate Smaller(A: seq<Chunk>, n: int) {
    forall i :: 0 <= i < |A| ==> A[i].size < n
  }

  lemma SmallerMore(A: seq<Chunk>, c: Chunk, n: int)
    ensures Smaller([], n)
    ensures Smaller(A, n) && c.size < n ==> Smaller(A + [c], n)
  {
  }

  // Every word of a set of bytes exists.
  ghost predicate Backed(words: set<int>, bytes: set<int>) {
    forall w :: w in bytes && w % 4 == 0 ==> w in words
  }

  // `a` may be the address of a chunk between A and B.
  ghost predicate Between(A: seq<Chunk>, a: int, B: seq<Chunk>) {
    Linked(A) && Linked(B) && 0 < a && Whole(a) && Below(A, a) && Above(B, a)
  }

  lemma LinkedSplit(A: seq<Chunk>, c: Chunk, B: seq<Chunk>)
    requires Linked(A + [c] + B)
    ensures Between(A, c.addr, B)
  {
    hide Whole;
    var L := A + [c] + B;
    assert L[|A|] == c;
    assert forall i :: 0 <= i < |A| ==> A[i] == L[i];
    assert forall i :: 0 <= i < |B| ==> B[i] == L[|A| + 1 + i];
  }

  lemma LinkedSplice(A: seq<Chunk>, c: Chunk, B: seq<Chunk>)
    requires Between(A, c.addr, B)
    ensures Linked(A + [c] + B)
  {
    hide Whole;
    assert [c][0] == c;
    LinkedJoin(A, c.addr, B);
  }

  lemma LinkedJoin(A: seq<Chunk>, a: int, B: seq<Chunk>)
    requires Between(A, a, B)
    ensures Linked(A + B)
  {
    hide Whole;
  }

  lemma {:induction false} StoredSplit(mem: map<int, int>, A: seq<Chunk>, B: seq<Chunk>, last: int)
    ensures Stored(mem, A + B, last) <==> Stored(mem, A, Head(B, last)) && Stored(mem, B, last)
  {
    if A == [] {
      assert A + B == B;
    } else {
      assert (A + B)[1..] == A[1..] + B;
      StoredSplit(mem, A[1..], B, last);
    }
  }

  lemma StoredSplice(mem: map<int, int>, A: seq<Chunk>, c: Chunk, B: seq<Chunk>, last: int)
    ensures Stored(mem, A + [c] + B, last) <==>
            Stored(mem, A, c.addr) && Cell(mem, c, Head(B, last)) && Stored(mem, B, last)
  {
    assert A + [c] + B == A + ([c] + B);
    assert ([c] + B)[1..] == B;
    StoredSplit(mem, A, [c] + B, last);
  }

  /** A store outside the headers of a list does not change the list. */
  lemma {:induction false} StoredFrame(mem: map<int, int>, L: seq<Chunk>, last: int, w: int, v: int)
    requires Stored(mem, L, last) && !HeaderWord(L, w)
    ensures Stored(mem[w := v], L, last)
  {
    if L != [] {
      assert forall i :: 0 <= i < |L[1..]| ==> L[1..][i] == L[i + 1];
      assert L[0].addr != w && L[0].addr + 4 != w;
      StoredFrame(mem, L[1..], last, w, v);
    }
  }

  // Redirecting the last `next` field.
  lemma Relink(mem: map<int, int>, L: seq<Chunk>, last: int, v: int)
    requires Linked(L) && L != [] && Stored(mem, L, last)
    ensures L[|L| - 1].addr + 4 in mem && Stored(mem[L[|L| - 1].addr + 4 := v], L, v)
  {
    hide Whole, Linked, Stored, HeaderWord, Between;
    var A, z := L[..|L| - 1], L[|L| - 1];
    assert L == A + [z] + [];
    LinkedSplit(A, z, []);
    RelinkLast(mem, A, z, last, v);
  }

  lemma RelinkLast(mem: map<int, int>, A: seq<Chunk>, z: Chunk, last: int, v: int)
    requires Between(A, z.addr, []) && Stored(mem, A + [z] + [], last)
    ensures z.addr + 4 in mem && Stored(mem[z.addr + 4 := v], A + [z] + [], v)
  {
    hide Stored, HeaderWord, Between;
    StoredNil(mem[z.addr + 4 := v], v);
    StoredSplice(mem, A, z, [], last);
    HeadersApart(A, z.addr, []);
    StoredFrame(mem, A, z.addr, z.addr + 4, v);
    StoredSplice(mem[z.addr + 4 := v], A, z, [], v);
  }

  // The header words of distinct chunks are distinct.
  lemma HeadersApart(A: seq<Chunk>, a: int, B: seq<Chunk>)
    requires Between(A, a, B)
    ensures !HeaderWord(A, a) && !HeaderWord(A, a + 4) && !HeaderWord(B, a) && !HeaderWord(B, a + 4)
  {
  }

  lemma LastHeaderApart(A: seq<Chunk>, a: int, B: seq<Chunk>)
    requires Between(A, a, B) && A != []
    ensures var z := A[|A| - 1].addr;
      !HeaderWord(B, z) && !HeaderWord(B, z + 4) && z != a && z + 4 != a && z != a + 4 && z + 4 != a + 4
  {
  }

  // What a walk finds in memory at the chunk it has reached.
  lemma Reached(mem: map<int, int>, L: seq<Chunk>, A: seq<Chunk>, B: seq<Chunk>)
    requires Linked(L) && L == A + B && Stored(mem, B, 0)
    ensures Head(B, 0) == 0 <==> B == []
    ensures B != [] ==> Cell(mem, B[0], Head(B[1..], 0)) && Stored(mem, B[1..], 0)
    ensures B != [] ==> L == A + [B[0]] + B[1..]
    ensures A != [] ==> 0 < A[|A| - 1].addr
  {
    assert B != [] ==> L[|A|] == B[0];
    assert A != [] ==> L[|A| - 1] == A[|A| - 1];
  }

  lemma OwnHeaders(A: seq<Chunk>, c: Chunk, B: seq<Chunk>)
    ensures HeaderWord(A + [c] + B, c.addr) && HeaderWord(A + [c] + B, c.addr + 4)
    ensures A != [] ==> HeaderWord(A + [c] + B, A[|A| - 1].addr + 4)
  {
    assert (A + [c] + B)[|A|] == c;
    assert A != [] ==> (A + [c] + B)[|A| - 1] == A[|A| - 1];
  }

  // ------------------------------------------------------------ list surgery

  // `prev->next` or `first_free`: the field that leads to the chunk behind A.
  function Redirect(mem: map<int, int>, A: seq<Chunk>, v: int): map<int, int> {
    if A == [] then mem else mem[A[|A| - 1].addr + 4 := v]
  }

  lemma Unlink(mem: map<int, int>, A: seq<Chunk>, c: Chunk, B: seq<Chunk>)
    requires Linked(A + [c] + B) && Stored(mem, A + [c] + B, 0)
    ensures Linked(A + B) && Stored(Redirect(mem, A, Head(B, 0)), A + B, 0)
    ensures A != [] ==> A[|A| - 1].addr + 4 in mem
  {
    hide Whole;
    LinkedSplit(A, c, B);
    LinkedJoin(A, c.addr, B);
    StoredSplice(mem, A, c, B, 0);
    if A != [] {
      Relink(mem, A, c.addr, Head(B, 0));
      LastHeaderApart(A, c.addr, B);
      StoredFrame(mem, B, 0, A[|A| - 1].addr + 4, Head(B, 0));
    }
    StoredSplit(Redirect(mem, A, Head(B, 0)), A, B, 0);
  }

  lemma Resize(mem: map<int, int>, A: seq<Chunk>, c: Chunk, B: seq<Chunk>, n: int)
    requires Linked(A + [c] + B) && Stored(mem, A + [c] + B, 0)
    ensures var d := Chunk(c.addr, n);
      Linked(A + [d] + B) && Stored(mem[c.addr := n], A + [d] + B, 0)
  {
    hide Whole;
    var d := Chunk(c.addr, n);
    LinkedSplit(A, c, B);
    LinkedSplice(A, d, B);
    StoredSplice(mem, A, c, B, 0);
    HeadersApart(A, c.addr, B);
    StoredFrame(mem, A, c.addr, c.addr, n);
    StoredFrame(mem, B, 0, c.addr, n);
    StoredSplice(mem[c.addr := n], A, d, B, 0);
  }

  // The specification, at the place where the walk stops.
  lemma MallocAt(A: seq<Chunk>, B: seq<Chunk>, n: int)
    requires Smaller(A, n) && (B != [] ==> n <= B[0].size)
    ensures Malloc(A + B, n) ==
            if B == [] then Allocation(A + B, 0)
            else if B[0].size == n then Allocation(A + B[1..], B[0].addr)
            else Allocation(A + [Chunk(B[0].addr, B[0].size - n)] + B[1..], B[0].End() - n)
  {
    var L := A + B;
    assert forall i :: 0 <= i < |A| ==> L[i] == A[i];
    assert B != [] ==> L[|A|] == B[0];
    FirstFitUnique(L, n, |A|);
    if B != [] {
      assert L[..|A|] == A && L[|A|] == B[0] && L[|A| + 1..] == B[1..];
    }
  }

  lemma StoredNil(mem: map<int, int>, last: int)
    ensures Stored(mem, [], last)
  {
  }

  lemma BelowMore(A: seq<Chunk>, c: Chunk, a: int)
    ensures Below([], a)
    ensures Below(A, a) && c.addr < a ==> Below(A + [c], a)
  {
  }

  lemma FreeAt(A: seq<Chunk>, B: seq<Chunk>, a: int, n: int)
    requires Below(A, a) && (B != [] ==> a <= B[0].addr)
    ensures FreeList.Free(A + B, a, n) ==
            if B != [] && a + n == B[0].addr then Insert(A, Chunk(a, n + B[0].size), B[1..])
            else Insert(A, Chunk(a, n), B)
  {
    hide Insert;
    var L := A + B;
    assert forall i :: 0 <= i < |A| ==> L[i] == A[i];
    assert B != [] ==> L[|A|] == B[0];
    PositionUnique(L, a, |A|);
    assert L[..|A|] == A && L[|A|..] == B;
  }

  lemma LinkedCut(A: seq<Chunk>, B: seq<Chunk>)
    requires Linked(A + B)
    ensures Linked(A) && Linked(B)
  {
    assert forall i :: 0 <= i < |A| ==> A[i] == (A + B)[i];
    assert forall i :: 0 <= i < |B| ==> B[i] == (A + B)[|A| + i];
  }

  lemma LinkedAbove(B: seq<Chunk>, a: int)
    requires Linked(B) && B != [] && a < B[0].addr
    ensures Above(B, a) && Linked(B[1..]) && Above(B[1..], a)
  {
    hide Whole;
  }

  // Where the walk of a release stops, the new chunk may stand.
  lemma InsertionPoint(mem: map<int, int>, L: seq<Chunk>, A: seq<Chunk>, B: seq<Chunk>, a: int)
    requires Linked(L) && L == A + B && Stored(mem, L, 0) && 0 < a && Whole(a)
    requires Below(A, a) && (B != [] ==> a <= B[0].addr) && (forall i :: 0 <= i < |L| ==> L[i].addr != a)
    ensures Between(A, a, B) && Stored(mem, A, Head(B, 0))
    ensures B != [] ==> Between(A, a, B[1..])
  {
    hide Linked, Stored, Whole;
    LinkedCut(A, B);
    StoredSplit(mem, A, B, 0);
    if B != [] {
      assert B[0] == L[|A|];
      LinkedAbove(B, a);
    }
  }

  // Writing the header of the chunk at `c` leaves the lists around it in place.
  lemma PlaceHeader(mem: map<int, int>, A: seq<Chunk>, c: Chunk, C: seq<Chunk>, last: int, next: int)
    requires Between(A, c.addr, C) && Stored(mem, A, last) && Stored(mem, C, 0) && next == Head(C, 0)
    ensures var m := mem[c.addr := c.size][c.addr + 4 := next];
      Stored(m, A, last) && Cell(m, c, next) && Stored(m, C, 0)
  {
    HeadersApart(A, c.addr, C);
    StoredFrame(mem, A, last, c.addr, c.size);
    StoredFrame(mem, C, 0, c.addr, c.size);
    StoredFrame(mem[c.addr := c.size], A, last, c.addr + 4, next);
    StoredFrame(mem[c.addr := c.size], C, 0, c.addr + 4, next);
  }

  lemma LastStored(mem: map<int, int>, A: seq<Chunk>, last: int)
    requires A != [] && Stored(mem, A, last)
    ensures Cell(mem, A[|A| - 1], last)
  {
    assert A == A[..|A| - 1] + [A[|A| - 1]] + [];
    StoredSplice(mem, A[..|A| - 1], A[|A| - 1], [], last);
  }

  lemma LastHeaders(A: seq<Chunk>, B: seq<Chunk>)
    ensures A != [] ==> HeaderWord(A + B, A[|A| - 1].addr) && HeaderWord(A + B, A[|A| - 1].addr + 4)
    ensures A != [] ==> Head(A + B, 0) == A[0].addr
  {
    assert A != [] ==> (A + B)[|A| - 1] == A[|A| - 1];
  }

  lemma InsertHead(A: seq<Chunk>, c: Chunk, C: seq<Chunk>)
    ensures Head(Insert(A, c, C), 0) == if A == [] then c.addr else A[0].addr
  {
  }

  // The chunk at `c` is linked in between A and C.
  lemma Link(mem: map<int, int>, A: seq<Chunk>, c: Chunk, C: seq<Chunk>, last: int)
    requires Between(A, c.addr, C)
    requires Stored(mem, A, last) && Cell(mem, c, Head(C, 0)) && Stored(mem, C, 0)
    ensures Linked(A + [c] + C) && Stored(Redirect(mem, A, c.addr), A + [c] + C, 0)
  {
    hide Linked, Stored;
    LinkedSplice(A, c, C);
    if A != [] {
      Relink(mem, A, last, c.addr);
      LastHeaderApart(A, c.addr, C);
      StoredFrame(mem, C, 0, A[|A| - 1].addr + 4, c.addr);
    } else {
      StoredNil(mem, c.addr);
    }
    StoredSplice(Redirect(mem, A, c.addr), A, c, C, 0);
  }

  lemma BetweenLast(A: seq<Chunk>, z: Chunk, a: int, C: seq<Chunk>)
    requires Between(A + [z] + [], a, C)
    ensures Between(A, z.addr, C)
  {
    LinkedSplit(A, z, []);
    assert (A + [z] + [])[|A|] == z;
  }

  // The chunk at `c` joins the last chunk of A.
  lemma Absorb(mem: map<int, int>, A: seq<Chunk>, c: Chunk, C: seq<Chunk>, last: int)
    requires Between(A, c.addr, C) && A != []
    requires Stored(mem, A, last) && Cell(mem, c, Head(C, 0)) && Stored(mem, C, 0)
    ensures var z := A[|A| - 1];
      var M := A[..|A| - 1] + [Chunk(z.addr, z.size + c.size)] + C;
      Linked(M) && Stored(mem[z.addr := z.size + c.size][z.addr + 4 := Head(C, 0)], M, 0)
  {
    hide Linked, Stored;
    var A', z := A[..|A| - 1], A[|A| - 1];
    var d := Chunk(z.addr, z.size + c.size);
    assert A == A' + [z] + [];
    LinkedSplit(A', z, []);
    StoredSplice(mem, A', z, [], last);
    BetweenLast(A', z, c.addr, C);
    PlaceHeader(mem, A', d, C, z.addr, Head(C, 0));
    LinkedSplice(A', d, C);
    StoredSplice(mem[z.addr := d.size][z.addr + 4 := Head(C, 0)], A', d, C, 0);
  }

  // ------------------------------------------------------------ aligned requests

  /** Header words lie in free chunks. */
  lemma HeaderWordsFree(L: seq<Chunk>)
    requires WellFormed(L)
    ensures forall w :: HeaderWord(L, w) ==> w in Bytes(L) && Range(w, 4) <= Bytes(L)
  {
    forall w | HeaderWord(L, w) ensures w in Bytes(L) && Range(w, 4) <= Bytes(L) {
      var i :| 0 <= i < |L| && (w == L[i].addr || w == L[i].addr + 4);
      assert 8 <= L[i].size;
      ChunkHasRun(L, i, 8);
      assert w in Range(L[i].addr, 8) && Range(w, 4) <= Range(L[i].addr, 8);
    }
  }

  lemma NotInList(L: seq<Chunk>, a: int)
    requires WellFormed(L) && a !in Bytes(L)
    ensures forall i :: 0 <= i < |L| ==> L[i].addr != a
  {
    forall i | 0 <= i < |L| ensures L[i].addr != a {
      InBytes(L, L[i].addr);
    }
  }

  lemma LargeAlignIs(L: seq<Chunk>, size: int, align: int, m: Allocation)
    requires HEADER_SIZE <= align && IsPowerOfTwo(align)
    requires m == FreeList.Malloc(L, Round(Oversize(size, align)))
    ensures m.ptr == 0 ==> FreeList.MallocAlign(L, size, align) == m
    ensures m.ptr != 0 ==>
      var h := HeaderSize(m.ptr, align);
      var p := AlignedStart(m.ptr, h, align);
      FreeList.MallocAlign(L, size, align) ==
      Allocation(FreeList.Free(FreeHeader(m.free, m.ptr, h), p + size, Round(Oversize(size, align) - h - size)), p)
  {
    hide FreeList.Malloc, FreeList.Free;
  }

  lemma OversizedFacts(L: seq<Chunk>, size: int, align: int, m: Allocation)
    requires WellFormed(L) && 0 < size && HEADER_SIZE <= align && IsPowerOfTwo(align)
    requires m == FreeList.Malloc(L, Reserved(size, align)) && m.ptr != 0
    ensures Oversized(Bytes(L), m, size, align, HeaderSize(m.ptr, align))
  {
    hide FreeList.Malloc;
    MallocTakes(L, Reserved(size, align));
    HeaderWhole(m.ptr, align);
  }

  // The lists the two frees of an aligned request work on.
  lemma TrimLists(S: set<int>, m: Allocation, size: int, align: int, h: int)
    requires Oversized(S, m, size, align, h)
    ensures var L := FreeHeader(m.free, m.ptr, h);
      var q := AlignedStart(m.ptr, h, align) + size;
      && WellFormed(m.free) && WellFormed(L) && Bytes(L) <= S && Bytes(m.free) <= S
      && (forall i :: 0 <= i < |m.free| ==> m.free[i].addr != m.ptr)
      && (forall i :: 0 <= i < |L| ==> L[i].addr != q)
  {
    hide FreeList.Free, FreeHeader, Bytes, WellFormed, Reserved;
    var L := FreeHeader(m.free, m.ptr, h);
    var n := Reserved(size, align);
    var q := AlignedStart(m.ptr, h, align) + size;
    HeaderFreed(S, m, size, align, h);
    TailWhole(size, align, h);
    assert m.ptr in Range(m.ptr, n);
    assert q in Range(m.ptr, n) && q !in Range(m.ptr, h);
    NotInList(m.free, m.ptr);
    NotInList(L, q);
  }

  lemma WordAligned(a: int)
    requires Whole(a)
    ensures a % 4 == 0 && (a + 4) % 4 == 0
  {
  }

  lemma WordsAt(S: set<int>, words: set<int>, r: int, n: int, a: int)
    requires Range(r, n) <= S && Backed(words, S) && Whole(a) && r <= a && a + 8 <= r + n
    ensures a in S && a + 4 in S && a in words && a + 4 in words
  {
    assert a in Range(r, n) && a + 4 in Range(r, n);
    WordAligned(a);
  }

  // Their headers are words of the over-allocation.
  lemma TrimWords(S: set<int>, words: set<int>, m: Allocation, size: int, align: int, h: int)
    requires Oversized(S, m, size, align, h) && Backed(words, S) && Whole(size)
    ensures var q := AlignedStart(m.ptr, h, align) + size;
      && 0 < m.ptr && Whole(m.ptr) && 0 < q && Whole(q)
      && 0 <= h && 0 <= Oversize(size, align) - h - size
      && m.ptr in S && m.ptr + 4 in S && m.ptr in words && m.ptr + 4 in words
      && q in S && q + 4 in S && q in words && q + 4 in words
  {
    hide Bytes, WellFormed, Reserved, Backed, Whole;
    var n := Reserved(size, align);
    var q := AlignedStart(m.ptr, h, align) + size;
    TailWhole(size, align, h);
    WholeDifference(m.ptr, h);
    WholeDifference(m.ptr + h, align);
    WholeDifference(q - size, size);
    WordsAt(S, words, m.ptr, n, m.ptr);
    WordsAt(S, words, m.ptr, n, q);
  }

  // The bytes of the two header words `__malloc_init` writes.
  ghost function InitialHeader(chunk: int, size: int): set<int> {
    if 0 < size - (Round(chunk) - chunk) then Range(Round(chunk), 4) + Range(Round(chunk) + 4, 4) else {}
  }

  /** Initialisation stays inside its region if and only if, behind the aligned start, the
      region holds a whole header or nothing. */
  lemma InitInside(chunk: int, size: int)
    ensures InitialHeader(chunk, size) <= Range(chunk, size) <==>
            size - (Round(chunk) - chunk) <= 0 || 8 <= size - (Round(chunk) - chunk)
  {
    var start, n := Round(chunk), size - (Round(chunk) - chunk);
    if 0 < n < 8 {
      assert start + 7 in Range(start + 4, 4) && start + 7 !in Range(chunk, size);
    }
  }

  class Allocator {
    var mem: map<int, int>
    var firstFree: int
    ghost var free: seq<Chunk>

    ghost predicate Valid()
      reads this
    {
      Linked(free) && firstFree == Head(free, 0) && Stored(mem, free, 0)
    }

    // The walk of `__malloc` to the chunk that fits. A is the list in front of it.
    method FindFit(n: int) returns (prev: int, pt: int, ghost A: seq<Chunk>, ghost B: seq<Chunk>)
      requires Valid()
      ensures free == A + B && pt == Head(B, 0) && (pt == 0 <==> B == [])
      ensures B != [] ==> free == A + [B[0]] + B[1..] && Cell(mem, B[0], Head(B[1..], 0)) && n <= B[0].size
      ensures prev == (if A == [] then 0 else A[|A| - 1].addr) && (A != [] ==> prev != 0)
      ensures Smaller(A, n)
    {
      hide Linked, Stored, Smaller;
      pt, prev := firstFree, 0;
      A, B := [], free;
      SmallerMore([], Chunk(0, 0), n);
      Reached(mem, free, A, B);
      while pt != 0 && mem[pt] < n
        invariant free == A + B && pt == Head(B, 0) && Stored(mem, B, 0)
        invariant pt != 0 ==> B != [] && Cell(mem, B[0], Head(B[1..], 0))
        invariant prev == if A == [] then 0 else A[|A| - 1].addr
        invariant Smaller(A, n)
        decreases |B|
      {
        Reached(mem, free, A, B);
        SmallerMore(A, B[0], n);
        prev := pt;
        pt := mem[pt + 4];
        A, B := A + [B[0]], B[1..];
        Reached(mem, free, A, B);
      }
      Reached(mem, free, A, B);
    }

    /** `__malloc` */
    method Malloc(size: int) returns (p: int)
      requires Valid()
      modifies this
      ensures Valid()
      ensures Allocation(free, p) == FreeList.Malloc(old(free), Round(size))
      ensures mem.Keys == old(mem).Keys
      ensures forall w :: w in mem && !HeaderWord(old(free), w) ==> mem[w] == old(mem)[w]
    {
      hide Linked, Stored, FreeList.Malloc, Round, HeaderWord;
      var n := Round(size);
      ghost var A: seq<Chunk>, B: seq<Chunk>;
      var prev, pt;
      prev, pt, A, B := FindFit(n);
      MallocAt(A, B, n);
      if pt != 0 {
        p := Take(prev, pt, n, A, B[0], B[1..]);
      } else {
        p := 0;
      }
    }

    /** The rest of `__malloc`: the chunk found at `pt` disappears or gives up its end.
        A is the list in front of it, C the list behind. */
    method Take(prev: int, pt: int, n: int, ghost A: seq<Chunk>, ghost c: Chunk, ghost C: seq<Chunk>) returns (p: int)
      requires Valid() && free == A + [c] + C && pt == c.addr && Cell(mem, c, Head(C, 0))
      requires prev == (if A == [] then 0 else A[|A| - 1].addr) && (A != [] ==> prev != 0)
      modifies this
      ensures Valid() && p == c.End() - n
      ensures free == if c.size == n then A + C else A + [Chunk(c.addr, c.size - n)] + C
      ensures mem.Keys == old(mem).Keys
      ensures forall w :: w in mem && !HeaderWord(old(free), w) ==> mem[w] == old(mem)[w]
    {
      hide Linked, Stored, HeaderWord;
      OwnHeaders(A, c, C);
      if mem[pt] == n {
        Unlink(mem, A, c, C);
        if prev != 0 {
          mem := mem[prev + 4 := mem[pt + 4]];
        } else {
          firstFree := mem[pt + 4];
        }
        p := pt;
        free := A + C;
      } else {
        Resize(mem, A, c, C, c.size - n);
        p := pt + mem[pt] - n;
        mem := mem[pt := mem[pt] - n];
        free := A + [Chunk(c.addr, c.size - n)] + C;
      }
    }

    // The walk of `__malloc_free` to the place of the chunk. A is the list in front of it.
    method FindPlace(chunk: int) returns (prev: int, next: int, ghost A: seq<Chunk>, ghost B: seq<Chunk>)
      requires Valid() && 0 < chunk && Whole(chunk)
      requires forall i :: 0 <= i < |free| ==> free[i].addr != chunk
      ensures free == A + B && next == Head(B, 0) && (next == 0 <==> B == [])
      ensures B != [] ==> Cell(mem, B[0], Head(B[1..], 0)) && Stored(mem, B[1..], 0) && chunk <= B[0].addr
      ensures Stored(mem, B, 0) && Stored(mem, A, Head(B, 0)) && Between(A, chunk, B)
      ensures Below(A, chunk) && (B != [] ==> Between(A, chunk, B[1..]))
      ensures prev == (if A == [] then 0 else A[|A| - 1].addr) && (A != [] ==> prev != 0 && firstFree == A[0].addr)
    {
      hide Linked, Stored, Between, Below, Above;
      next, prev := firstFree, 0;
      A, B := [], free;
      Reached(mem, free, A, B);
      BelowMore([], Chunk(0, 0), chunk);
      while next != 0 && next < chunk
        invariant free == A + B && next == Head(B, 0) && Stored(mem, B, 0)
        invariant next != 0 ==> B != [] && Cell(mem, B[0], Head(B[1..], 0))
        invariant prev == if A == [] then 0 else A[|A| - 1].addr
        invariant Below(A, chunk)
        decreases |B|
      {
        Reached(mem, free, A, B);
        BelowMore(A, B[0], chunk);
        prev := next;
        next := mem[next + 4];
        A, B := A + [B[0]], B[1..];
        Reached(mem, free, A, B);
      }
      Reached(mem, free, A, B);
      InsertionPoint(mem, free, A, B, chunk);
      LastHeaders(A, B);
    }

    /** `__malloc_free`, up to the header of the freed chunk. */
    method Free(chunk: int, size: int)
      requires Valid() && 0 <= size
      requires 0 < chunk && Whole(chunk) && chunk in mem && chunk + 4 in mem
      requires forall i :: 0 <= i < |free| ==> free[i].addr != chunk
      modifies this
      ensures Valid()
      ensures free == FreeList.Free(old(free), chunk, Round(size))
      ensures mem.Keys == old(mem).Keys
      ensures forall w :: w in mem && !HeaderWord(old(free), w) && w != chunk && w != chunk + 4 ==> mem[w] == old(mem)[w]
    {
      hide Linked, Stored, FreeList.Free, Round, HeaderWord, Insert, Between, Below, Whole;
      var n := Round(size);
      ghost var A: seq<Chunk>, B: seq<Chunk>;
      var prev, next;
      prev, next, A, B := FindPlace(chunk);
      FreeAt(A, B, chunk, n);
      ghost var c := if chunk + n == next then Chunk(chunk, n + B[0].size) else Chunk(chunk, n);
      ghost var C := if chunk + n == next then B[1..] else B;
      if chunk + n == next {
        mem := mem[chunk := n + mem[next]];
        mem := mem[chunk + 4 := mem[next + 4]];
      } else {
        mem := mem[chunk := n];
        mem := mem[chunk + 4 := next];
      }
      assert mem == old(mem)[c.addr := c.size][c.addr + 4 := Head(C, 0)];
      PlaceHeader(old(mem), A, c, C, Head(B, 0), Head(C, 0));
      LastHeaders(A, B);
      Chain(prev, chunk, A, c, C, Head(B, 0));
    }

    /** The rest of `__malloc_free`: the chunk is joined to the previous one or linked
        behind it. A is the list in front of it, C the list behind. */
    method Chain(prev: int, chunk: int, ghost A: seq<Chunk>, ghost c: Chunk, ghost C: seq<Chunk>, ghost last: int)
      requires chunk == c.addr && prev == (if A == [] then 0 else A[|A| - 1].addr) && (A != [] ==> prev != 0)
      requires Between(A, c.addr, C) && (A != [] ==> firstFree == A[0].addr)
      requires Stored(mem, A, last) && Cell(mem, c, Head(C, 0)) && Stored(mem, C, 0)
      modifies this
      ensures Valid() && free == Insert(A, c, C)
      ensures mem.Keys == old(mem).Keys
      ensures forall w :: w in mem && (A == [] || (w != prev && w != prev + 4)) ==> mem[w] == old(mem)[w]
    {
      hide Linked, Stored, Between;
      if prev != 0 {
        LastStored(mem, A, last);
        if prev + mem[prev] == chunk {
          Absorb(mem, A, c, C, last);
          LastHeaderApart(A, c.addr, C);
          mem := mem[prev := mem[prev] + mem[chunk]];
          mem := mem[prev + 4 := mem[chunk + 4]];
        } else {
          Link(mem, A, c, C, last);
          mem := mem[prev + 4 := chunk];
        }
      } else {
        Link(mem, A, c, C, last);
        firstFree := chunk;
      }
      InsertHead(A, c, C);
      free := Insert(A, c, C);
    }

    /** `__malloc_init`. A region too small to reach its aligned start leaves
        `first_free` pointing to memory that was never written; one with 1 to 7 bytes left
        there gets a header that reaches beyond it. */
    method Init(chunk: int, size: int)
      requires 0 < chunk
      requires 0 < size - (Round(chunk) - chunk) ==> Round(chunk) in mem && Round(chunk) + 4 in mem
      modifies this
      ensures firstFree == Round(chunk)
      ensures if 0 < size - (Round(chunk) - chunk)
              then Valid() && free == InitialList(chunk, size) && Bytes(free) == Region(chunk, size)
              else mem == old(mem)
      ensures mem.Keys == old(mem).Keys
      ensures forall w :: w in mem && w != Round(chunk) && w != Round(chunk) + 4 ==> mem[w] == old(mem)[w]
    {
      var start := Round(chunk);
      firstFree := start;
      var n := size - (start - chunk);
      if n > 0 {
        mem := mem[start := n - n % 8];
        mem := mem[start + 4 := 0];
        free := InitialList(chunk, size);
        assert free[0] == Chunk(start, n - n % 8) && free[1..] == [];
        InitialRegion(chunk, size);
      }
    }

    /** `__malloc_info` */
    method Info() returns (size: int, first: int, count: int)
      requires Valid()
      ensures first == Head(free, 0) && count == |free| && size == TotalSize(free)
    {
      hide Linked, Stored;
      first := firstFree;
      size, count := 0, 0;
      var pt := firstFree;
      ghost var A, B := [], free;
      Reached(mem, free, A, B);
      while pt != 0
        invariant free == A + B && pt == Head(B, 0) && Stored(mem, B, 0)
        invariant pt != 0 ==> B != [] && Cell(mem, B[0], Head(B[1..], 0))
        invariant count == |A| && size + TotalSize(B) == TotalSize(free)
        decreases |B|
      {
        Reached(mem, free, A, B);
        size := size + mem[pt];
        count := count + 1;
        pt := mem[pt + 4];
        A, B := A + [B[0]], B[1..];
        Reached(mem, free, A, B);
      }
      Reached(mem, free, A, B);
    }

    /** `__malloc_align`. Whole sizes only: otherwise the tail's header is misaligned. */
    method MallocAlign(size: int, align: int) returns (p: int)
      requires Valid() && WellFormed(free) && Backed(mem.Keys, Bytes(free))
      requires 0 < size && (align < HEADER_SIZE || (IsPowerOfTwo(align) && Whole(size)))
      modifies this
      ensures Valid()
      ensures Allocation(free, p) == FreeList.MallocAlign(old(free), size, align)
      ensures mem.Keys == old(mem).Keys
      ensures forall w :: w in mem && w !in Bytes(old(free)) ==> mem[w] == old(mem)[w]
    {
      hide FreeList.Malloc, FreeList.Free, FreeList.MallocAlign, WellFormed, Linked, Stored, HeaderWord, LowBits, Round, Bytes, Backed;
      ghost var L, S := free, Bytes(free);
      HeaderWordsFree(free);
      if align < HEADER_SIZE {
        p := Malloc(size);
        SmallAlignIs(L, size, align);
        return;
      }
      var whole := size + align + 2 * HEADER_SIZE;
      var result := Malloc(whole);
      LargeAlignIs(L, size, align, Allocation(free, result));
      if result == 0 {
        return 0;
      }
      OversizedFacts(L, size, align, Allocation(free, result));
      p := TrimAround(result, whole, size, align, S);
    }

    /** The rest of `__malloc_align`: what lies before and after the aligned block of
        the over-allocation at `result` is freed. */
    method TrimAround(result: int, whole: int, size: int, align: int, ghost S: set<int>) returns (p: int)
      requires Valid() && whole == Oversize(size, align) && IsPowerOfTwo(align)
      requires Oversized(S, Allocation(free, result), size, align, HeaderSize(result, align))
      requires Backed(mem.Keys, S) && Whole(size)
      modifies this
      ensures Valid()
      ensures var h := HeaderSize(result, align);
        && p == AlignedStart(result, h, align)
        && free == FreeList.Free(FreeHeader(old(free), result, h), p + size, Round(whole - h - size))
      ensures mem.Keys == old(mem).Keys
      ensures forall w :: w in mem && w !in S ==> mem[w] == old(mem)[w]
    {
      hide FreeList.Free, FreeHeader, WellFormed, Linked, Stored, HeaderWord, LowBits, AlignUp, IsPowerOfTwo, Round, Bytes, Backed, Reserved, Oversized, Whole;
      p := AlignUp(result, align);
      var h := p - result;
      TrimLists(S, Allocation(free, result), size, align, h);
      TrimWords(S, mem.Keys, Allocation(free, result), size, align, h);
      p := TrimHeader(result, p, align, S);
      HeaderWordsFree(free);
      Free(p + size, whole - h - size);
    }

    // What lies before the aligned block is freed, and the next aligned address taken when it
    // is too small for a header.
    method TrimHeader(result: int, first: int, align: int, ghost S: set<int>) returns (p: int)
      requires Valid() && WellFormed(free) && Bytes(free) <= S
      requires result <= first && 0 < result && Whole(result)
      requires result in mem && result + 4 in mem && result in S && result + 4 in S
      requires forall i :: 0 <= i < |free| ==> free[i].addr != result
      modifies this
      ensures Valid() && p == AlignedStart(result, first - result, align)
      ensures free == FreeHeader(old(free), result, first - result)
      ensures mem.Keys == old(mem).Keys
      ensures forall w :: w in mem && w !in S ==> mem[w] == old(mem)[w]
    {
      hide FreeList.Free, WellFormed, Linked, Stored, HeaderWord, Round, Bytes, Whole;
      HeaderWordsFree(free);
      p := first;
      var h := first - result;
      if h != 0 {
        if first - result < HEADER_SIZE {
          p := p + align;
        }
        Free(result, h);
      }
    }
  }
}
