/**
 What one call does to the set of free bytes: exactly the bytes handed out
 leave it, exactly the bytes given back enter it, and the list stays the
 canonical one. `__malloc_align` does so only under a condition, which is
 given exactly.
 */
module FreeListProofs {
  import opened FreeList

  // --------------------------------------------------------- where a walk stops

  lemma FirstFitUnique(L: seq<Chunk>, n: int, i: nat)
    requires i <= |L| && (forall j :: 0 <= j < i ==> L[j].size < n) && (i < |L| ==> n <= L[i].size)
    ensures FirstFit(L, n) == i
  {
  }

  lemma PositionUnique(L: seq<Chunk>, a: int, i: nat)
    requires i <= |L| && (forall j :: 0 <= j < i ==> L[j].addr < a) && (i < |L| ==> a <= L[i].addr)
    ensures Position(L, a) == i
  {
  }

  // ---------------------------------------------------------------- allocation

  // Every chunk of A ends below `a`.
  ghost predicate EndsBelow(A: seq<Chunk>, a: int) {
    forall i :: 0 <= i < |A| ==> A[i].End() < a
  }

  // Every chunk of B starts above `e`.
  ghost predicate StartsAbove(B: seq<Chunk>, e: int) {
    forall i :: 0 <= i < |B| ==> e < B[i].addr
  }

  // The chunk `c` may stand between A and B.
  ghost predicate Fits(A: seq<Chunk>, c: Chunk, B: seq<Chunk>) {
    && WellFormed(A) && WellFormed(B) && WellFormed([c])
    && EndsBelow(A, c.addr) && StartsAbove(B, c.End())
  }

  lemma SpliceFits(A: seq<Chunk>, c: Chunk, B: seq<Chunk>)
    requires WellFormed(A + [c] + B)
    ensures Fits(A, c, B)
  {
    var L := A + [c] + B;
    assert L[|A|] == c;
    forall i | 0 <= i < |A| ensures A[i] == L[i] {}
    forall i | 0 <= i < |B| ensures B[i] == L[|A| + 1 + i] {}
  }

  lemma FitsWellFormed(A: seq<Chunk>, c: Chunk, B: seq<Chunk>)
    requires Fits(A, c, B)
    ensures WellFormed(A + [c] + B) && WellFormed(A + B)
  {
    assert [c][0] == c;
  }

  lemma FitsBytes(A: seq<Chunk>, c: Chunk, B: seq<Chunk>)
    requires Fits(A, c, B)
    ensures Bytes(A + [c] + B) == Bytes(A) + Range(c.addr, c.size) + Bytes(B)
    ensures Bytes(A + B) == Bytes(A) + Bytes(B)
    ensures forall b :: b in Bytes(A) ==> b < c.addr
    ensures forall b :: b in Bytes(B) ==> c.End() < b
  {
    BytesSplice(A, c, B);
    BytesAppend(A, B);
    forall b | b in Bytes(A) ensures b < c.addr {
      InBytes(A, b);
    }
    forall b | b in Bytes(B) ensures c.End() < b {
      InBytes(B, b);
    }
  }

  lemma SplitAt(L: seq<Chunk>, i: nat)
    requires i < |L|
    ensures L == L[..i] + [L[i]] + L[i + 1..]
  {
  }

  /** Free bytes without a gap lie in one chunk. */
  lemma RunInChunk(L: seq<Chunk>, a: int, n: int)
    requires WellFormed(L) && 0 < n && Range(a, n) <= Bytes(L)
    ensures exists i :: 0 <= i < |L| && L[i].addr <= a && a + n <= L[i].End()
  {
    assert a in Range(a, n);
    InBytes(L, a);
    var i :| 0 <= i < |L| && L[i].addr <= a < L[i].End();
    if L[i].End() < a + n {
      assert L[i].End() in Range(a, n);
      InBytes(L, L[i].End());
      assert false;
    }
  }

  lemma ChunkHasRun(L: seq<Chunk>, i: nat, n: int)
    requires WellFormed(L) && i < |L| && n <= L[i].size
    ensures Range(L[i].addr, n) <= Bytes(L)
  {
    SplitAt(L, i);
    BytesSplice(L[..i], L[i], L[i + 1..]);
  }

  ghost predicate HasRun(L: seq<Chunk>, n: int) {
    exists a :: Range(a, n) <= Bytes(L)
  }

  /** NULL is returned exactly when no `n` consecutive free bytes exist at all. */
  lemma MallocNull(L: seq<Chunk>, n: int)
    requires WellFormed(L) && 0 < n
    ensures Malloc(L, n).ptr == 0 <==> !HasRun(L, n)
    ensures Malloc(L, n).ptr == 0 ==> Malloc(L, n).free == L
  {
    var i := FirstFit(L, n);
    if i < |L| {
      ChunkHasRun(L, i, n);
    } else if HasRun(L, n) {
      var a :| Range(a, n) <= Bytes(L);
      RunInChunk(L, a, n);
      assert false;
    }
  }

  /** The block handed out was free, and nothing else changes. */
  lemma MallocTakes(L: seq<Chunk>, n: int)
    requires WellFormed(L) && 0 < n && Whole(n)
    ensures var m := Malloc(L, n);
      m.ptr != 0 ==>
        && WellFormed(m.free)
        && 0 < m.ptr && Whole(m.ptr)
        && Range(m.ptr, n) <= Bytes(L)
        && Bytes(m.free) == Bytes(L) - Range(m.ptr, n)
  {
    hide TakeEnd;
    var i := FirstFit(L, n);
    if i < |L| {
      SplitAt(L, i);
      SpliceFits(L[..i], L[i], L[i + 1..]);
      TakeEndBytes(L[..i], L[i], L[i + 1..], n);
      TakeEndWellFormed(L[..i], L[i], L[i + 1..], n);
    }
  }

  // `p` is the highest place for `n` bytes in the lowest run of free bytes that has room for
  // them: the run ends behind the block, and every lower place lies in the same run.
  ghost predicate Chosen(free: set<int>, n: int, p: int) {
    && Range(p, n) <= free && p + n !in free
    && forall q :: q < p && Range(q, n) <= free ==> Range(q, p + n - q) <= free
  }

  /** The address handed out is that place, so it depends on the set of free bytes only. */
  lemma MallocChoice(L: seq<Chunk>, n: int)
    requires WellFormed(L) && 0 < n && Whole(n) && Malloc(L, n).ptr != 0
    ensures forall p :: Chosen(Bytes(L), n, p) <==> p == Malloc(L, n).ptr
  {
    hide Chosen, Malloc, FirstFit;
    MallocChosen(L, n);
    forall p | Chosen(Bytes(L), n, p) ensures p == Malloc(L, n).ptr {
      ChosenOnce(Bytes(L), n, p, Malloc(L, n).ptr);
    }
  }

  lemma ChosenOnce(free: set<int>, n: int, p: int, q: int)
    requires 0 < n && Chosen(free, n, p) && Chosen(free, n, q)
    ensures p == q
  {
    NotBelow(free, n, p, q);
    NotBelow(free, n, q, p);
  }

  lemma NotBelow(free: set<int>, n: int, p: int, q: int)
    requires 0 < n && Chosen(free, n, p) && Chosen(free, n, q)
    ensures q <= p
  {
    assert p < q ==> p + n in Range(p, q + n - p);
  }

  lemma MallocChosen(L: seq<Chunk>, n: int)
    requires WellFormed(L) && 0 < n && Whole(n) && Malloc(L, n).ptr != 0
    ensures Chosen(Bytes(L), n, Malloc(L, n).ptr)
  {
    hide TakeEnd, Bytes, WellFormed, Whole;
    var i := FirstFit(L, n);
    var p := L[i].End() - n;
    MallocTakes(L, n);
    EndNotFree(L, i);
    forall q | q < p && Range(q, n) <= Bytes(L) ensures Range(q, p + n - q) <= Bytes(L) {
      LowerPlace(L, n, q);
    }
  }

  // Right behind a chunk nothing is free.
  lemma EndNotFree(L: seq<Chunk>, i: nat)
    requires WellFormed(L) && i < |L|
    ensures L[i].End() !in Bytes(L)
  {
    InBytes(L, L[i].End());
  }

  // Room below the block lies in the same chunk.
  lemma LowerPlace(L: seq<Chunk>, n: int, q: int)
    requires WellFormed(L) && 0 < n && FirstFit(L, n) < |L| && Range(q, n) <= Bytes(L)
    requires q < L[FirstFit(L, n)].End() - n
    ensures Range(q, L[FirstFit(L, n)].End() - q) <= Bytes(L)
  {
    hide Bytes;
    var i := FirstFit(L, n);
    RunInChunk(L, q, n);
    var j :| 0 <= j < |L| && L[j].addr <= q && q + n <= L[j].End();
    SameChunk(L, n, i, j, q);
    ChunkHasRun(L, i, L[i].size);
    assert Range(q, L[i].End() - q) <= Range(L[i].addr, L[i].size);
  }

  // A chunk with room that starts below the end of the first fit is the first fit.
  lemma SameChunk(L: seq<Chunk>, n: int, i: nat, j: nat, q: int)
    requires WellFormed(L) && i == FirstFit(L, n) && i < |L| && j < |L| && 0 < n
    requires L[j].addr <= q && q + n <= L[j].End() && q < L[i].End() - n
    ensures i == j
  {
  }

  // A chunk's bytes without its last `n`.
  lemma RangeMinusEnd(c: Chunk, n: int, Above: set<int>, Below: set<int>)
    requires 0 < n <= c.size
    requires (forall b :: b in Below ==> b < c.addr) && (forall b :: b in Above ==> c.End() < b)
    ensures Range(c.End() - n, n) <= Below + Range(c.addr, c.size) + Above
    ensures Below + Range(c.addr, c.size - n) + Above ==
            Below + Range(c.addr, c.size) + Above - Range(c.End() - n, n)
  {
  }

  lemma TakeEndBytes(A: seq<Chunk>, c: Chunk, B: seq<Chunk>, n: int)
    requires Fits(A, c, B) && 0 < n <= c.size
    ensures Range(c.End() - n, n) <= Bytes(A + [c] + B)
    ensures Bytes(TakeEnd(A, c, B, n)) == Bytes(A + [c] + B) - Range(c.End() - n, n)
  {
    var Below, Above := Bytes(A), Bytes(B);
    FitsBytes(A, c, B);
    RangeMinusEnd(c, n, Above, Below);
    TakeEndUnion(A, c, B, n);
  }

  lemma TakeEndUnion(A: seq<Chunk>, c: Chunk, B: seq<Chunk>, n: int)
    ensures Bytes(TakeEnd(A, c, B, n)) == Bytes(A) + Range(c.addr, c.size - n) + Bytes(B)
  {
    if c.size == n {
      BytesAppend(A, B);
      assert Range(c.addr, 0) == {};
    } else {
      BytesSplice(A, Chunk(c.addr, c.size - n), B);
    }
  }

  lemma WholeEnd(A: seq<Chunk>, c: Chunk, B: seq<Chunk>, n: int)
    requires Fits(A, c, B) && 0 < n <= c.size && Whole(n)
    ensures 0 < c.End() - n && Whole(c.End() - n)
  {
    assert [c][0] == c;
  }

  lemma TakeEndWellFormed(A: seq<Chunk>, c: Chunk, B: seq<Chunk>, n: int)
    requires Fits(A, c, B) && 0 < n <= c.size && Whole(n)
    ensures WellFormed(TakeEnd(A, c, B, n)) && 0 < c.End() - n && Whole(c.End() - n)
  {
    hide Whole, WellFormed, Fits;
    WholeEnd(A, c, B, n);
    if c.size == n {
      FitsWellFormed(A, c, B);
    } else {
      RestFits(A, c, B, n);
      FitsWellFormed(A, Chunk(c.addr, c.size - n), B);
    }
  }

  lemma RestFits(A: seq<Chunk>, c: Chunk, B: seq<Chunk>, n: int)
    requires Fits(A, c, B) && 0 < n < c.size && Whole(n)
    ensures Fits(A, Chunk(c.addr, c.size - n), B)
  {
    assert [c][0] == c;
  }

  // ---------------------------------------------------------------- release

  // Two ranges that touch are one.
  lemma JoinRanges(S: set<int>, a: int, n: int, k: int, T: set<int>)
    requires 0 <= n && 0 <= k
    ensures S + Range(a, n) + Range(a + n, k) + T == S + Range(a, n + k) + T
  {
  }

  lemma InsertBytes(A: seq<Chunk>, c: Chunk, B: seq<Chunk>)
    requires 0 <= c.size && forall i :: 0 <= i < |A| ==> 0 <= A[i].size
    ensures Bytes(Insert(A, c, B)) == Bytes(A) + Range(c.addr, c.size) + Bytes(B)
  {
    hide Bytes;
    if A != [] && A[|A| - 1].End() == c.addr {
      var A', z := A[..|A| - 1], A[|A| - 1];
      assert A == A' + [z];
      BytesLast(A', z);
      BytesSplice(A', Chunk(z.addr, z.size + c.size), B);
      JoinRanges(Bytes(A'), z.addr, z.size, c.size, Bytes(B));
    } else {
      BytesSplice(A, c, B);
    }
  }

  lemma BytesLast(A: seq<Chunk>, z: Chunk)
    ensures Bytes(A + [z]) == Bytes(A) + Range(z.addr, z.size)
  {
    BytesAppend(A, [z]);
    assert [z][1..] == [];
  }

  lemma InsertBeforeBytes(A: seq<Chunk>, c: Chunk, B: seq<Chunk>)
    requires 0 <= c.size && (forall i :: 0 <= i < |A| ==> 0 <= A[i].size) && (B != [] ==> 0 <= B[0].size)
    ensures Bytes(InsertBefore(A, c, B)) == Bytes(A) + Range(c.addr, c.size) + Bytes(B)
  {
    hide Insert, Bytes;
    if B != [] && c.End() == B[0].addr {
      InsertBytes(A, Chunk(c.addr, c.size + B[0].size), B[1..]);
      BytesFirst(B);
      FoldRange(Bytes(A), c, B[0].size, Bytes(B[1..]));
    } else {
      InsertBytes(A, c, B);
    }
  }

  lemma BytesFirst(B: seq<Chunk>)
    requires B != []
    ensures Bytes(B) == Range(B[0].addr, B[0].size) + Bytes(B[1..])
  {
  }

  lemma FoldRange(S: set<int>, c: Chunk, k: int, T: set<int>)
    requires 0 <= c.size && 0 <= k
    ensures S + Range(c.addr, c.size + k) + T == S + Range(c.addr, c.size) + (Range(c.End(), k) + T)
  {
  }

  /** Whatever is freed, the free bytes become the union. */
  lemma FreeBytes(L: seq<Chunk>, a: int, n: int)
    requires 0 <= n && forall i :: 0 <= i < |L| ==> 0 <= L[i].size
    ensures Bytes(Free(L, a, n)) == Bytes(L) + Range(a, n)
  {
    var A, B := L[..Position(L, a)], L[Position(L, a)..];
    assert L == A + B;
    BytesAppend(A, B);
    InsertBeforeBytes(A, Chunk(a, n), B);
  }

  // The chunk `c` may be inserted between A and B: it may touch A's end.
  ghost predicate Insertable(A: seq<Chunk>, c: Chunk, B: seq<Chunk>) {
    && WellFormed(A) && WellFormed(B) && WellFormed([c])
    && EndsBelow(A, c.addr + 1) && StartsAbove(B, c.End())
  }

  lemma JoinedFits(A: seq<Chunk>, z: Chunk, c: Chunk, B: seq<Chunk>)
    requires Fits(A, z, []) && WellFormed([c]) && WellFormed(B) && StartsAbove(B, c.End()) && z.End() == c.addr
    ensures Fits(A, Chunk(z.addr, z.size + c.size), B)
  {
    assert [z][0] == z && [c][0] == c;
  }

  lemma InsertWellFormed(A: seq<Chunk>, c: Chunk, B: seq<Chunk>)
    requires Insertable(A, c, B)
    ensures WellFormed(Insert(A, c, B))
  {
    hide Whole;
    assert [c][0] == c;
    if A != [] {
      var A', z := A[..|A| - 1], A[|A| - 1];
      assert A == A' + [z] + [];
      SpliceFits(A', z, []);
      assert [z][0] == z;
      if z.End() == c.addr {
        JoinedFits(A', z, c, B);
        FitsWellFormed(A', Chunk(z.addr, z.size + c.size), B);
      } else {
        assert EndsBelow(A, c.addr);
        FitsWellFormed(A, c, B);
      }
    } else {
      FitsWellFormed(A, c, B);
    }
  }

  lemma InsertBeforeWellFormed(A: seq<Chunk>, c: Chunk, B: seq<Chunk>)
    requires WellFormed(A) && WellFormed(B) && WellFormed([c])
    requires EndsBelow(A, c.addr + 1) && StartsAbove(B, c.End() - 1)
    ensures WellFormed(InsertBefore(A, c, B))
  {
    hide Insert;
    assert [c][0] == c;
    if B != [] && c.End() == B[0].addr {
      assert B == [] + [B[0]] + B[1..];
      SpliceFits([], B[0], B[1..]);
      InsertWellFormed(A, Chunk(c.addr, c.size + B[0].size), B[1..]);
    } else {
      InsertWellFormed(A, c, B);
    }
  }

  // A byte range that is not free lies between the chunks around its position.
  lemma FreeGap(L: seq<Chunk>, a: int, n: int)
    requires WellFormed(L) && 0 < n && Range(a, n) !! Bytes(L)
    ensures forall j :: 0 <= j < Position(L, a) ==> L[j].End() <= a
    ensures forall j :: Position(L, a) <= j < |L| ==> a + n <= L[j].addr
    ensures EndsBelow(L[..Position(L, a)], a + 1) && StartsAbove(L[Position(L, a)..], a + n - 1)
  {
    var i := Position(L, a);
    forall j | 0 <= j < i ensures L[j].End() <= a {
      InBytes(L, a);
      assert a in Range(a, n);
    }
    forall j | i <= j < |L| ensures a + n <= L[j].addr {
      InBytes(L, L[j].addr);
      assert L[j].addr in Bytes(L);
    }
  }

  /** Freeing whole aligned bytes that were not free keeps the list canonical. */
  lemma FreeWellFormed(L: seq<Chunk>, a: int, n: int)
    requires WellFormed(L)
    requires 0 < a && Whole(a) && 0 < n && Whole(n)
    requires Range(a, n) !! Bytes(L)
    ensures WellFormed(Free(L, a, n))
  {
    FreeGap(L, a, n);
    InsertBeforeWellFormed(L[..Position(L, a)], Chunk(a, n), L[Position(L, a)..]);
  }

  lemma FreeAdds(L: seq<Chunk>, a: int, n: int)
    requires WellFormed(L)
    requires 0 < a && Whole(a) && 0 < n && Whole(n)
    requires Range(a, n) !! Bytes(L)
    ensures WellFormed(Free(L, a, n))
    ensures Bytes(Free(L, a, n)) == Bytes(L) + Range(a, n)
  {
    FreeWellFormed(L, a, n);
    FreeBytes(L, a, n);
  }

  /** Freeing what an allocation returned restores the list itself, not just its bytes. */
  lemma FreeUndoesMalloc(L: seq<Chunk>, n: int)
    requires WellFormed(L) && 0 < n && Whole(n)
    requires Malloc(L, n).ptr != 0
    ensures Free(Malloc(L, n).free, Malloc(L, n).ptr, n) == L
  {
    var m := Malloc(L, n);
    MallocTakes(L, n);
    FreeAdds(m.free, m.ptr, n);
    hide Free;
    Canonical(Free(m.free, m.ptr, n), L);
  }

  /** Two blocks may be released in either order. */
  lemma FreeCommutes(L: seq<Chunk>, a: int, n: int, b: int, k: int)
    requires WellFormed(L)
    requires 0 < a && Whole(a) && 0 < n && Whole(n)
    requires 0 < b && Whole(b) && 0 < k && Whole(k)
    requires Range(a, n) !! Bytes(L) && Range(b, k) !! Bytes(L) && Range(a, n) !! Range(b, k)
    ensures Free(Free(L, a, n), b, k) == Free(Free(L, b, k), a, n)
  {
    FreeAdds(L, a, n);
    FreeAdds(L, b, k);
    FreeAdds(Free(L, a, n), b, k);
    FreeAdds(Free(L, b, k), a, n);
    Canonical(Free(Free(L, a, n), b, k), Free(Free(L, b, k), a, n));
  }
}
