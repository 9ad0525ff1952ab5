/**
 Runs of the allocator over a heap [lo, hi): the live blocks and the free chunks
 always partition it, the free list depends on nothing but the live blocks, and
 releasing everything, in whatever order, restores the single initial chunk.
 */
module HeapRuns {
  import opened FreeList
  import opened FreeListProofs
  import opened AlignProofs

  // The free list and the live blocks, by address.
  datatype Heap = Heap(free: seq<Chunk>, live: map<int, int>)

  datatype Request =
    | Alloc(size: int)
    | AllocAligned(size: int, align: int)
    | Release(ptr: int, size: int)

  // What a caller must respect: positive sizes, power-of-two alignments that meet
  // the condition of `AlignExact`, and releases of live blocks with a size that rounds to
  // the size of the block.
  predicate Legal(h: Heap, r: Request) {
    match r
    case Alloc(size) => 0 < size
    case AllocAligned(size, align) => 0 < size && IsPowerOfTwo(align) && Safe(h.free, size, align)
    case Release(p, n) => p in h.live && Round(n) == h.live[p]
  }

  function Grant(h: Heap, m: Allocation, size: int): Heap {
    if m.ptr == 0 then h else Heap(m.free, h.live[m.ptr := Round(size)])
  }

  // The heap after a request, and the address returned (0 for a release).
  function Step(h: Heap, r: Request): (Heap, int)
    requires Legal(h, r)
  {
    match r
    case Alloc(size) =>
      var m := Malloc(h.free, Round(size));
      (Grant(h, m, size), m.ptr)
    case AllocAligned(size, align) =>
      var m := MallocAlign(h.free, size, align);
      (Grant(h, m, size), m.ptr)
    case Release(p, n) =>
      (Heap(Free(h.free, p, Round(n)), h.live - {p}), 0)
  }

  predicate LegalRun(h: Heap, rs: seq<Request>)
    decreases rs
  {
    rs == [] || (Legal(h, rs[0]) && LegalRun(Step(h, rs[0]).0, rs[1..]))
  }

  function Run(h: Heap, rs: seq<Request>): Heap
    requires LegalRun(h, rs)
    decreases rs
  {
    if rs == [] then h else Run(Step(h, rs[0]).0, rs[1..])
  }

  // ---------------------------------------------------------------- initial heap

  // The list `__malloc_init` builds for the region [chunk, chunk + size).
  function InitialList(chunk: int, size: int): seq<Chunk> {
    var lo := Round(chunk);
    var n := size - (lo - chunk);
    [Chunk(lo, n - n % 8)]
  }

  /** The region must still hold a whole chunk once its start is aligned. */
  lemma InitialWellFormed(chunk: int, size: int)
    requires 0 < chunk
    ensures WellFormed(InitialList(chunk, size)) <==> 8 <= size - (Round(chunk) - chunk)
  {
    var n := size - (Round(chunk) - chunk);
    assert InitialList(chunk, size)[0] == Chunk(Round(chunk), n - n % 8);
    assert Whole(n - n % 8);
  }

  // `b` lies in an aligned cell of 8 bytes that lies in the region [chunk, chunk + size).
  ghost predicate InCell(chunk: int, size: int, b: int) {
    exists k :: Whole(k) && chunk <= k && k + 8 <= chunk + size && k <= b < k + 8
  }

  // The bytes of a region that can be handed out in whole chunks.
  ghost function Region(chunk: int, size: int): set<int> {
    set b | chunk <= b < chunk + size && InCell(chunk, size, b)
  }

  lemma CellInside(lo: int, m: int, b: int)
    requires Whole(lo) && Whole(m) && lo <= b < lo + m
    ensures var k := b - b % 8; Whole(k) && k <= b < k + 8 && lo <= k && k + 8 <= lo + m
  {
  }

  lemma RoundLeast(x: int, k: int)
    requires Whole(k) && x <= k
    ensures Round(x) <= k
  {
  }

  lemma WholeEndLeast(lo: int, n: int, e: int)
    requires Whole(lo) && Whole(e) && e <= lo + n
    ensures e <= lo + (n - n % 8)
  {
  }

  /** The initial chunk consists of all aligned 8-byte cells of the region, and of nothing
      else. */
  lemma InitialBytes(chunk: int, size: int, b: int)
    ensures b in Bytes(InitialList(chunk, size)) <==> InCell(chunk, size, b)
  {
    hide Round, Whole, Bytes, InCell;
    var c := InitialList(chunk, size)[0];
    var lo, n := Round(chunk), size - (Round(chunk) - chunk);
    OneChunkBytes(InitialList(chunk, size));
    if c.addr <= b < c.End() {
      WholeRest(n);
      CellInside(lo, n - n % 8, b);
      CellGiven(chunk, size, b, b - b % 8);
    }
    if InCell(chunk, size, b) {
      var k := CellTaken(chunk, size, b);
      RoundLeast(chunk, k);
      WholeNext(k);
      WholeEndLeast(lo, n, k + 8);
    }
  }

  lemma OneChunkBytes(L: seq<Chunk>)
    requires |L| == 1
    ensures Bytes(L) == Range(L[0].addr, L[0].size)
  {
    assert Bytes(L[1..]) == {};
  }

  lemma WholeRest(n: int)
    ensures Whole(n - n % 8)
  {
  }

  lemma WholeNext(k: int)
    requires Whole(k)
    ensures Whole(k + 8)
  {
  }

  lemma CellGiven(chunk: int, size: int, b: int, k: int)
    requires Whole(k) && chunk <= k && k + 8 <= chunk + size && k <= b < k + 8
    ensures InCell(chunk, size, b)
  {
  }

  lemma CellTaken(chunk: int, size: int, b: int) returns (k: int)
    requires InCell(chunk, size, b)
    ensures Whole(k) && chunk <= k && k + 8 <= chunk + size && k <= b < k + 8
  {
    k :| Whole(k) && chunk <= k && k + 8 <= chunk + size && k <= b < k + 8;
  }

  /** So the initial list is the only well-formed one that covers these bytes. */
  lemma InitialRegion(chunk: int, size: int)
    ensures Bytes(InitialList(chunk, size)) == Region(chunk, size)
  {
    forall b ensures b in Bytes(InitialList(chunk, size)) <==> b in Region(chunk, size) {
      InitialBytes(chunk, size, b);
    }
  }

  // ---------------------------------------------------------------- invariant

  ghost function LiveBytes(live: map<int, int>): set<int> {
    set p, b | p in live && b in Range(p, live[p]) :: b
  }

  ghost predicate LiveApart(live: map<int, int>) {
    forall p, q :: p in live && q in live && p != q ==> Range(p, live[p]) !! Range(q, live[q])
  }

  ghost predicate LiveWhole(live: map<int, int>) {
    forall p :: p in live ==> 0 < p && Whole(p) && 0 < live[p] && Whole(live[p])
  }

  ghost predicate Inv(h: Heap, heap: set<int>) {
    && WellFormed(h.free) && LiveWhole(h.live) && LiveApart(h.live)
    && Bytes(h.free) !! LiveBytes(h.live)
    && Bytes(h.free) + LiveBytes(h.live) == heap
  }

  lemma LiveAdd(live: map<int, int>, p: int, n: int)
    requires p !in live
    ensures LiveBytes(live[p := n]) == LiveBytes(live) + Range(p, n)
  {
    var after := live[p := n];
    forall b | b in LiveBytes(live) ensures b in LiveBytes(after) {
      var q :| q in live && b in Range(q, live[q]);
      assert q in after && after[q] == live[q];
    }
    assert p in after && after[p] == n;
  }

  lemma LiveOwn(live: map<int, int>)
    ensures forall p :: p in live && 0 < live[p] ==> p in LiveBytes(live)
  {
    forall p | p in live && 0 < live[p] ensures p in LiveBytes(live) {
      assert p in Range(p, live[p]);
    }
  }

  lemma LiveRemove(live: map<int, int>, p: int)
    requires LiveApart(live) && p in live
    ensures LiveBytes(live - {p}) == LiveBytes(live) - Range(p, live[p])
    ensures Range(p, live[p]) <= LiveBytes(live)
  {
    var after := live - {p};
    forall b | b in LiveBytes(live) && b !in Range(p, live[p]) ensures b in LiveBytes(after) {
      var q :| q in live && b in Range(q, live[q]);
      assert q in after && after[q] == live[q];
    }
  }

  lemma LiveWholeAdd(live: map<int, int>, p: int, n: int)
    requires LiveWhole(live) && 0 < p && Whole(p) && 0 < n && Whole(n)
    ensures LiveWhole(live[p := n])
  {
    hide Whole;
  }

  // Bytes that go from the free ones to the live ones.
  lemma MoveRange(F: set<int>, V: set<int>, R: set<int>)
    requires R <= F && F !! V
    ensures F - R !! V + R && F - R + (V + R) == F + V
  {
  }

  lemma GrantInv(h: Heap, heap: set<int>, m: Allocation, size: int)
    requires Inv(h, heap) && 0 < size
    requires m.ptr != 0 ==>
      && WellFormed(m.free) && 0 < m.ptr && Whole(m.ptr)
      && Range(m.ptr, Round(size)) <= Bytes(h.free)
      && Bytes(m.free) == Bytes(h.free) - Range(m.ptr, Round(size))
    ensures Inv(Grant(h, m, size), heap)
  {
    hide Whole, Aligned, Apart, LiveApart, LiveBytes, Bytes, WellFormed;
    if m.ptr != 0 {
      var n := Round(size);
      assert m.ptr in Range(m.ptr, n);
      LiveOwn(h.live);
      LiveAdd(h.live, m.ptr, n);
      LiveApartAdd(h.live, m.ptr, n, Bytes(h.free));
      LiveWholeAdd(h.live, m.ptr, n);
      MoveRange(Bytes(h.free), LiveBytes(h.live), Range(m.ptr, n));
    }
  }

  lemma LiveApartAdd(live: map<int, int>, p: int, n: int, free: set<int>)
    requires LiveApart(live) && p !in live && Range(p, n) <= free && free !! LiveBytes(live)
    ensures LiveApart(live[p := n])
  {
    forall q | q in live ensures Range(q, live[q]) !! Range(p, n) {
      LiveRemove(live, q);
    }
  }

  lemma AllocInv(h: Heap, heap: set<int>, size: int)
    requires Inv(h, heap) && 0 < size
    ensures Inv(Grant(h, Malloc(h.free, Round(size)), size), heap)
  {
    hide Malloc;
    MallocTakes(h.free, Round(size));
    GrantInv(h, heap, Malloc(h.free, Round(size)), size);
  }

  lemma AllocAlignedInv(h: Heap, heap: set<int>, size: int, align: int)
    requires Inv(h, heap) && 0 < size && IsPowerOfTwo(align) && Safe(h.free, size, align)
    ensures Inv(Grant(h, MallocAlign(h.free, size, align), size), heap)
  {
    hide MallocAlign, Safe;
    var m := MallocAlign(h.free, size, align);
    if m.ptr != 0 {
      AlignCorrect(h.free, size, align);
      AlignPositive(h.free, size, align);
    }
    GrantInv(h, heap, m, size);
  }

  lemma ReleaseInv(h: Heap, heap: set<int>, p: int)
    requires Inv(h, heap) && p in h.live
    ensures Inv(Heap(Free(h.free, p, h.live[p]), h.live - {p}), heap)
  {
    hide Free;
    LiveRemove(h.live, p);
    FreeAdds(h.free, p, h.live[p]);
  }

  /** Every legal request keeps the partition. */
  lemma StepInv(h: Heap, heap: set<int>, r: Request)
    requires Inv(h, heap) && Legal(h, r)
    ensures Inv(Step(h, r).0, heap)
  {
    hide Malloc, MallocAlign, Free, Safe, Inv, Grant;
    match r
    case Alloc(size) => AllocInv(h, heap, size);
    case AllocAligned(size, align) => AllocAlignedInv(h, heap, size, align);
    case Release(p, n) => ReleaseInv(h, heap, p);
  }

  lemma {:induction false} RunInv(h: Heap, heap: set<int>, rs: seq<Request>)
    requires Inv(h, heap) && LegalRun(h, rs)
    ensures Inv(Run(h, rs), heap)
    decreases rs
  {
    if rs != [] {
      StepInv(h, heap, rs[0]);
      RunInv(Step(h, rs[0]).0, heap, rs[1..]);
    }
  }

  // ------------------------------------------------------------------ theorems

  lemma InitialInv(chunk: int, size: int)
    requires 0 < chunk && 8 <= size - (Round(chunk) - chunk)
    ensures Inv(Heap(InitialList(chunk, size), map[]), Bytes(InitialList(chunk, size)))
  {
    InitialWellFormed(chunk, size);
    assert LiveBytes(map[]) == {};
  }

  /** After any legal run from `__malloc_init` the live blocks and the free chunks are
      disjoint and cover exactly the whole cells of the region given to it, and the list is
      aligned, ascending and fully coalesced. */
  lemma RunPartition(chunk: int, size: int, rs: seq<Request>)
    requires 0 < chunk && 8 <= size - (Round(chunk) - chunk)
    requires LegalRun(Heap(InitialList(chunk, size), map[]), rs)
    ensures Inv(Run(Heap(InitialList(chunk, size), map[]), rs), Region(chunk, size))
  {
    InitialInv(chunk, size);
    InitialRegion(chunk, size);
    RunInv(Heap(InitialList(chunk, size), map[]), Bytes(InitialList(chunk, size)), rs);
  }

  /** The free list is a function of the live blocks: how they came about is forgotten. */
  lemma FreeListForgets(g: Heap, h: Heap, heap: set<int>)
    requires Inv(g, heap) && Inv(h, heap) && g.live == h.live
    ensures g.free == h.free
  {
    assert Bytes(g.free) == heap - LiveBytes(g.live);
    assert Bytes(h.free) == heap - LiveBytes(h.live);
    Canonical(g.free, h.free);
  }

  // Releases of the given blocks, in the given order and with the given sizes.
  function Releases(ps: seq<int>, ns: seq<int>): (rs: seq<Request>)
    requires |ps| == |ns|
  {
    if ps == [] then [] else [Release(ps[0], ns[0])] + Releases(ps[1..], ns[1..])
  }

  // All live blocks, once each, with sizes that round to theirs.
  predicate Everything(live: map<int, int>, ps: seq<int>, ns: seq<int>) {
    && |ps| == |ns|
    && (forall p :: p in live ==> p in ps)
    && (forall i, j :: 0 <= i < j < |ps| ==> ps[i] != ps[j])
    && (forall i :: 0 <= i < |ps| ==> ps[i] in live && Round(ns[i]) == live[ps[i]])
  }

  lemma {:induction false} ReleasesRun(h: Heap, ps: seq<int>, ns: seq<int>)
    requires |ps| == |ns| && Everything(h.live, ps, ns)
    ensures LegalRun(h, Releases(ps, ns))
    ensures Run(h, Releases(ps, ns)).live == map[]
    decreases ps
  {
    hide Step, Legal, Everything;
    if ps == [] {
      NothingLive(h.live, ps, ns);
    } else {
      ReleaseStep(h, ps, ns);
      var g := Step(h, Release(ps[0], ns[0])).0;
      var rs := Releases(ps, ns);
      assert rs[0] == Release(ps[0], ns[0]) && rs[1..] == Releases(ps[1..], ns[1..]);
      ReleasesRun(g, ps[1..], ns[1..]);
    }
  }

  lemma NothingLive(live: map<int, int>, ps: seq<int>, ns: seq<int>)
    requires Everything(live, ps, ns) && ps == []
    ensures live == map[]
  {
    assert forall p :: p in live.Keys ==> p in ps;
    assert live.Keys == {};
  }

  lemma ReleaseStep(h: Heap, ps: seq<int>, ns: seq<int>)
    requires Everything(h.live, ps, ns) && ps != []
    ensures |ns| == |ps| && Legal(h, Release(ps[0], ns[0]))
    ensures var g := Step(h, Release(ps[0], ns[0])).0; Everything(g.live, ps[1..], ns[1..])
  {
    hide Malloc, MallocAlign, Free, Safe, Round;
    var live := h.live - {ps[0]};
    assert forall i :: 1 <= i < |ps| ==> ps[1..][i - 1] == ps[i] && ns[1..][i - 1] == ns[i];
    forall p | p in live ensures p in ps[1..] {
      var i :| 0 <= i < |ps| && ps[i] == p;
      assert ps[1..][i - 1] == p;
    }
  }

  /** Releasing every live block, in any order and with any sizes that round right, restores
      the chunk `__malloc_init` built. */
  lemma ReleaseAll(chunk: int, size: int, rs: seq<Request>, ps: seq<int>, ns: seq<int>)
    requires 0 < chunk && 8 <= size - (Round(chunk) - chunk)
    requires LegalRun(Heap(InitialList(chunk, size), map[]), rs)
    requires Everything(Run(Heap(InitialList(chunk, size), map[]), rs).live, ps, ns)
    ensures var h := Run(Heap(InitialList(chunk, size), map[]), rs);
      LegalRun(h, Releases(ps, ns)) && Run(h, Releases(ps, ns)) == Heap(InitialList(chunk, size), map[])
  {
    var start := Heap(InitialList(chunk, size), map[]);
    var h := Run(start, rs);
    InitialInv(chunk, size);
    RunPartition(chunk, size, rs);
    InitialRegion(chunk, size);
    ReleasesRun(h, ps, ns);
    RunInv(h, Region(chunk, size), Releases(ps, ns));
    NoneLeft(chunk, size, Run(h, Releases(ps, ns)));
  }

  /** Whenever no block is live, the list is the initial one. */
  lemma NoneLeft(chunk: int, size: int, h: Heap)
    requires 0 < chunk && 8 <= size - (Round(chunk) - chunk)
    requires Inv(h, Region(chunk, size)) && h.live == map[]
    ensures h == Heap(InitialList(chunk, size), map[])
  {
    hide Inv;
    InitialInv(chunk, size);
    InitialRegion(chunk, size);
    FreeListForgets(h, Heap(InitialList(chunk, size), map[]), Region(chunk, size));
  }

  /** An aligned request that is granted keeps the partition if and only if it is `Safe`. */
  lemma AlignedStepInv(h: Heap, heap: set<int>, size: int, align: int)
    requires Inv(h, heap) && 0 < size && IsPowerOfTwo(align)
    requires MallocAlign(h.free, size, align).ptr != 0
    ensures Inv(Grant(h, MallocAlign(h.free, size, align), size), heap) <==> Safe(h.free, size, align)
  {
    if Safe(h.free, size, align) {
      StepInv(h, heap, AllocAligned(size, align));
    } else {
      var m := MallocAlign(h.free, size, align);
      AlignWrong(h.free, size, align);
      AlignInside(h.free, size, align);
      if Inv(Grant(h, m, size), heap) {
        GrantExact(h, heap, m, size);
      }
    }
  }

  // If the partition survives a grant, exactly the granted bytes left the list.
  lemma GrantExact(h: Heap, heap: set<int>, m: Allocation, size: int)
    requires Inv(h, heap) && Inv(Grant(h, m, size), heap) && m.ptr != 0 && m.ptr in Bytes(h.free)
    ensures Bytes(m.free) == Bytes(h.free) - Range(m.ptr, Round(size))
  {
    LiveOwn(h.live);
    LiveAdd(h.live, m.ptr, Round(size));
    assert Bytes(m.free) == heap - (LiveBytes(h.live) + Range(m.ptr, Round(size)));
    assert Bytes(h.free) == heap - LiveBytes(h.live);
  }

  /** No byte of a live block is free or belongs to another live block. */
  lemma LiveStaysApart(h: Heap, heap: set<int>, p: int)
    requires Inv(h, heap) && p in h.live
    ensures Range(p, h.live[p]) !! Bytes(h.free)
    ensures forall q :: q in h.live && q != p ==> Range(p, h.live[p]) !! Range(q, h.live[q])
  {
    LiveRemove(h.live, p);
  }

  // The heap [16, 144) after one request for 16 bytes.
  lemma OneBlock()
    ensures LegalRun(Heap(InitialList(16, 128), map[]), [Alloc(16)])
    ensures Run(Heap(InitialList(16, 128), map[]), [Alloc(16)]) == Heap([Chunk(16, 112)], map[128 := 16])
  {
    hide MallocAlign, FreeList.Free, Safe;
    var start := Heap(InitialList(16, 128), map[]);
    assert start.free == [Chunk(16, 128)] && FirstFit(start.free, 16) == 0;
    assert Malloc(start.free, 16) == Allocation([Chunk(16, 112)], 128);
    var next := Step(start, Alloc(16)).0;
    assert next == Heap([Chunk(16, 112)], map[128 := 16]);
    assert [Alloc(16)][1..] == [] && LegalRun(next, []);
  }

  lemma SixteenAligned()
    ensures IsPowerOfTwo(16) && HeaderSize(72, 16) == 8
  {
    hide LowBits;
    assert IsPowerOfTwo(4) && IsPowerOfTwo(8);
    LowBitsModulo(87, 16);
  }

  lemma OverrunFit()
    ensures WellFormed([Chunk(16, 112)]) && Malloc([Chunk(16, 112)], 56).ptr == 72
  {
    hide TakeEnd;
    var L := [Chunk(16, 112)];
    assert FirstFit(L, 56) == 0 && L[0].End() == 128;
  }

  // 16 bytes aligned to 16 out of [16, 128).
  lemma OverrunAddress()
    ensures IsPowerOfTwo(16) && WellFormed([Chunk(16, 112)])
    ensures MallocAlign([Chunk(16, 112)], 16, 16).ptr == 96
    ensures Reserved(16, 16) == 56 && Malloc([Chunk(16, 112)], 56).ptr == 72 && HeaderSize(72, 16) == 8
  {
    hide FreeList.Free, FreeHeader, Malloc, HeaderSize, IsPowerOfTwo, WellFormed;
    SixteenAligned();
    OverrunFit();
    assert Round(Oversize(16, 16)) == 56;
  }

  /** A reachable heap that shows it: with one live block at 128, a request for 16 bytes
      aligned to 16 returns 96 and puts all of the live block on the free list. */
  lemma AlignOverrunExample()
    ensures LegalRun(Heap(InitialList(16, 128), map[]), [Alloc(16)]) && IsPowerOfTwo(16)
    ensures var h := Run(Heap(InitialList(16, 128), map[]), [Alloc(16)]);
      && h.live == map[128 := 16]
      && MallocAlign(h.free, 16, 16).ptr == 96
      && Range(128, h.live[128]) <= Bytes(MallocAlign(h.free, 16, 16).free)
  {
    hide MallocAlign, Malloc, Run, LegalRun, InitialList;
    OneBlock();
    OverrunAddress();
    AlignOverrun([Chunk(16, 112)], 16, 16);
  }

  // -------------------------------------------------------------- conservation

  function TotalSize(L: seq<Chunk>): int {
    if L == [] then 0 else L[0].size + TotalSize(L[1..])
  }

  lemma {:induction false} RangeCardinality(a: int, n: int)
    requires 0 <= n
    ensures |Range(a, n)| == n
    decreases n
  {
    if n > 0 {
      RangeCardinality(a + 1, n - 1);
    }
  }

  /** The sizes `__malloc_info` adds up count the free bytes. */
  lemma {:induction false} TotalSizeCounts(L: seq<Chunk>)
    requires WellFormed(L)
    ensures TotalSize(L) == |Bytes(L)|
  {
    if L != [] {
      TailBytes(L);
      TotalSizeCounts(L[1..]);
      RangeCardinality(L[0].addr, L[0].size);
    }
  }
}
