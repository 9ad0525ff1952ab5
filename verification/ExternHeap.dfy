/**
 The allocator of libc/malloc/malloc_external.c: the same free list, with the
 chunk descriptors held outside the managed memory. Descriptors come from the L2
 heap, so freeing a block can fail for want of one.
 */
module ExternHeap {
  import opened FreeList
  import opened FreeListProofs
  import opened HeapRuns

  class Descriptor {
    var size: int
    var next: Descriptor?
    var addr: int
  }

  // The field that leads to a list of nodes, which ends by pointing to `last`.
  ghost function First(nodes: seq<Descriptor>, last: Descriptor?): Descriptor? {
    if nodes == [] then last else nodes[0]
  }

  ghost predicate Distinct(nodes: seq<Descriptor>) {
    forall i, j :: 0 <= i < j < |nodes| ==> nodes[i] != nodes[j]
  }

  ghost function NodeSet(nodes: seq<Descriptor>): set<Descriptor> {
    set d | d in nodes
  }

  // The nodes describe the chunks of L and are linked, the last one to `last`.
  ghost predicate Described(nodes: seq<Descriptor>, L: seq<Chunk>, last: Descriptor?)
    reads nodes
  {
    |nodes| == |L| && forall i :: 0 <= i < |nodes| ==> NodeAt(nodes, L, last, i)
  }

  // What `Described` says of node `i`.
  ghost predicate NodeAt(nodes: seq<Descriptor>, L: seq<Chunk>, last: Descriptor?, i: nat)
    requires i < |nodes| && |nodes| == |L|
    reads nodes
  {
    && nodes[i].addr == L[i].addr && nodes[i].size == L[i].size
    && nodes[i].next == if i + 1 < |nodes| then nodes[i + 1] else last
  }

  lemma DescribedSplit(N: seq<Descriptor>, M: seq<Descriptor>, A: seq<Chunk>, B: seq<Chunk>, last: Descriptor?)
    requires |N| == |A|
    ensures Described(N + M, A + B, last) <==> Described(N, A, First(M, last)) && Described(M, B, last)
  {
    if |M| == |B| {
      forall i | 0 <= i < |N| + |M|
        ensures NodeAt(N + M, A + B, last, i) <==>
                if i < |N| then NodeAt(N, A, First(M, last), i) else NodeAt(M, B, last, i - |N|)
      {
      }
      if Described(N + M, A + B, last) {
        forall i | 0 <= i < |N| ensures NodeAt(N, A, First(M, last), i) {
          assert NodeAt(N + M, A + B, last, i);
        }
        forall i | 0 <= i < |M| ensures NodeAt(M, B, last, i) {
          assert NodeAt(N + M, A + B, last, |N| + i);
        }
      }
    }
  }

  lemma DescribedOne(d: Descriptor, c: Chunk, last: Descriptor?)
    ensures Described([d], [c], last) <==> d.addr == c.addr && d.size == c.size && d.next == last
  {
    assert NodeAt([d], [c], last, 0) <==> d.addr == c.addr && d.size == c.size && d.next == last;
  }

  // No chunk starts where the freed block ends: a new descriptor is asked for.
  predicate NeedsDescriptor(L: seq<Chunk>, a: int, n: int) {
    var i := Position(L, a);
    !(i < |L| && a + n == L[i].addr)
  }

  /** A release needs a descriptor if and only if the byte behind the freed ones is not free. */
  lemma NeedsExactly(L: seq<Chunk>, a: int, n: int)
    requires WellFormed(L) && 0 < n && Range(a, n) !! Bytes(L)
    ensures NeedsDescriptor(L, a, n) <==> a + n !in Bytes(L)
  {
    hide Bytes, Position;
    var i := Position(L, a);
    FreeGap(L, a, n);
    InBytes(L, a + n);
    if j :| 0 <= j < |L| && L[j].addr <= a + n < L[j].End() {
      assert i <= j && L[i].addr <= L[j].addr;
    }
    assert i < |L| && L[i].addr == a + n ==> L[i].addr <= a + n < L[i].End();
  }

  lemma {:induction false} DistinctCount(nodes: seq<Descriptor>)
    requires Distinct(nodes)
    ensures |NodeSet(nodes)| == |nodes|
  {
    if nodes != [] {
      var front, z := nodes[..|nodes| - 1], nodes[|nodes| - 1];
      DistinctCount(front);
      assert NodeSet(nodes) == NodeSet(front) + {z};
    }
  }

  // Distinct nodes around a place in the list.
  lemma DistinctSplit(N: seq<Descriptor>, M: seq<Descriptor>)
    ensures Distinct(N + M) <==> Distinct(N) && Distinct(M) && NodeSet(N) !! NodeSet(M)
    ensures NodeSet(N + M) == NodeSet(N) + NodeSet(M)
  {
    var K := N + M;
    assert forall i :: 0 <= i < |N| ==> K[i] == N[i];
    assert forall i :: 0 <= i < |M| ==> M[i] == K[|N| + i];
    if NodeSet(N) !! NodeSet(M) {
      forall i, j | 0 <= i < |N| && 0 <= j < |M| ensures N[i] != M[j] {
        assert N[i] in NodeSet(N) && M[j] in NodeSet(M);
      }
    }
    if Distinct(K) {
      forall d | d in N ensures d !in M {
        var i :| 0 <= i < |N| && N[i] == d;
        assert K[i] == d;
        forall j | 0 <= j < |M| ensures M[j] != d {
          assert M[j] == K[|N| + j];
        }
      }
    }
  }

  lemma MallocIndex(L: seq<Chunk>, n: int, i: nat)
    requires i <= |L| && (forall j :: 0 <= j < i ==> L[j].size < n) && (i < |L| ==> n <= L[i].size)
    ensures FreeList.Malloc(L, n) ==
            if i == |L| then Allocation(L, 0)
            else Allocation(TakeEnd(L[..i], L[i], L[i + 1..], n), L[i].End() - n)
  {
    hide TakeEnd;
    FirstFitUnique(L, n, i);
  }

  lemma FreeIndex(L: seq<Chunk>, a: int, n: int, i: nat)
    requires i <= |L| && (forall j :: 0 <= j < i ==> L[j].addr < a) && (i < |L| ==> a <= L[i].addr)
    ensures NeedsDescriptor(L, a, n) == !(i < |L| && a + n == L[i].addr)
    ensures FreeList.Free(L, a, n) ==
            if NeedsDescriptor(L, a, n) then Insert(L[..i], Chunk(a, n), L[i..])
            else Insert(L[..i], Chunk(a, n + L[i].size), L[i + 1..])
  {
    hide Insert;
    PositionUnique(L, a, i);
    if i < |L| {
      assert L[i..][1..] == L[i + 1..];
    }
  }

  lemma DescribedNone(last: Descriptor?)
    ensures Described([], [], last)
  {
  }

  // The last node of a list, apart from the others.
  lemma SplitLast(N: seq<Descriptor>, A: seq<Chunk>, last: Descriptor?)
    requires N != [] && |N| == |A|
    ensures var k := |N| - 1;
      Described(N, A, last) <==>
      && Described(N[..k], A[..k], N[k])
      && N[k].addr == A[k].addr && N[k].size == A[k].size && N[k].next == last
  {
    var k := |N| - 1;
    assert N == N[..k] + [N[k]] && A == A[..k] + [A[k]];
    DescribedSplit(N[..k], [N[k]], A[..k], [A[k]], last);
    DescribedOne(N[k], A[k], last);
  }

  // What a walk finds at node `i`.
  lemma Reached(nodes: seq<Descriptor>, L: seq<Chunk>, i: nat)
    requires Described(nodes, L, null) && i <= |nodes|
    ensures |nodes| == |L|
    ensures i < |nodes| ==> nodes[i].addr == L[i].addr && nodes[i].size == L[i].size && nodes[i].next == First(nodes[i + 1..], null)
    ensures i == |nodes| <==> First(nodes[i..], null) == null
  {
    assert i < |nodes| ==> NodeAt(nodes, L, null, i);
  }

  lemma DescribedLength(N: seq<Descriptor>, A: seq<Chunk>, last: Descriptor?)
    requires Described(N, A, last)
    ensures |N| == |A|
  {
  }

  lemma DistinctOne(d: Descriptor)
    ensures Distinct([d])
  {
  }

  // A node in its place between two lists.
  lemma LinkIn(N: seq<Descriptor>, d: Descriptor, M: seq<Descriptor>, A: seq<Chunk>, c: Chunk, C: seq<Chunk>)
    requires Described(N, A, d) && Described(M, C, null)
    requires d.addr == c.addr && d.size == c.size && d.next == First(M, null)
    ensures Described(N + ([d] + M), A + [c] + C, null)
  {
    DescribedOne(d, c, First(M, null));
    DescribedSplit([d], M, [c], C, null);
    DescribedSplit(N, [d] + M, A, [c] + C, null);
    assert A + [c] + C == A + ([c] + C);
  }

  class ExternAllocator {
    var firstFree: Descriptor?
    ghost var nodes: seq<Descriptor>
    ghost var free: seq<Chunk>
    // Descriptors obtained from the L2 heap and not yet given back.
    ghost var live: set<Descriptor>

    ghost predicate Valid()
      reads this, nodes
    {
      && firstFree == First(nodes, null) && Distinct(nodes) && Described(nodes, free, null)
      && live == NodeSet(nodes)
    }

    /** `__malloc_extern_init`; `available` says whether the L2 heap has a descriptor. The
        descriptors of an earlier initialisation are forgotten, not given back. */
    method Init(chunk: int, size: int, available: bool) returns (status: int)
      requires 0 < chunk
      modifies this
      ensures status == if size != 0 && available then 0 else 1
      ensures size == 0 ==> firstFree == null && live == old(live)
      ensures size != 0 && !available ==> firstFree == old(firstFree) && live == old(live)
      ensures size != 0 && available ==>
        var n := size - (Round(chunk) - chunk);
        && old(live) <= live && |live - old(live)| == 1 && fresh(live - old(live))
        && (0 < n ==> firstFree in live - old(live) && free == InitialList(chunk, size) && (Valid() <==> old(live) == {}))
        && (0 < n ==> Bytes(free) == Region(chunk, size))
        && (n <= 0 ==> firstFree == old(firstFree))
    {
      hide Bytes, Region;
      if size != 0 {
        var start := Round(chunk);
        if !available {
          return 1;
        }
        var d := new Descriptor;
        ghost var before := live;
        live := live + {d};
        assert live - before == {d};
        var n := size - (start - chunk);
        if n > 0 {
          firstFree := d;
          d.size := n - n % 8;
          d.next := null;
          d.addr := start;
          nodes, free := [d], InitialList(chunk, size);
          assert NodeSet(nodes) == {d};
          DescribedOne(d, free[0], null);
          InitialRegion(chunk, size);
        }
      } else {
        firstFree := null;
        return 1;
      }
      return 0;
    }

    /** `__malloc_extern_deinit`: nothing leaks exactly when one chunk is left. */
    method Deinit()
      requires Valid() && firstFree != null
      modifies this
      ensures live == old(live) - {old(firstFree)}
      ensures live == {} <==> |old(free)| == 1
    {
      DistinctCount(nodes);
      assert nodes[0] in NodeSet(nodes);
      assert |live - {firstFree}| == |live| - 1;
      live := live - {firstFree};
    }

    // The walk of `__malloc_extern` to the chunk that fits.
    method FindFit(n: int) returns (prev: Descriptor?, pt: Descriptor?, ghost i: nat)
      requires Valid()
      ensures i <= |nodes| == |free| && (pt == null <==> i == |nodes|) && (pt != null ==> pt == nodes[i] && n <= free[i].size)
      ensures prev == if i == 0 then null else nodes[i - 1]
      ensures forall j :: 0 <= j < i ==> free[j].size < n
    {
      hide Described, Distinct;
      pt, prev := firstFree, null;
      i := 0;
      Reached(nodes, free, i);
      while pt != null && pt.size < n
        invariant i <= |nodes| && pt == First(nodes[i..], null)
        invariant prev == if i == 0 then null else nodes[i - 1]
        invariant forall j :: 0 <= j < i ==> free[j].size < n
        decreases |nodes| - i
      {
        Reached(nodes, free, i);
        prev := pt;
        pt := pt.next;
        i := i + 1;
        Reached(nodes, free, i);
      }
      Reached(nodes, free, i);
    }

    /** `__malloc_extern` */
    method Malloc(size: int) returns (p: int)
      requires Valid()
      modifies this, nodes
      ensures Valid() && |live| == |free|
      ensures Allocation(free, p) == FreeList.Malloc(old(free), Round(size))
      ensures NodeSet(nodes) <= old(NodeSet(nodes))
    {
      hide FreeList.Malloc, TakeEnd, Round, Described, Distinct;
      var n := Round(size);
      ghost var i: nat;
      var prev, pt;
      prev, pt, i := FindFit(n);
      MallocIndex(free, n, i);
      if pt != null {
        p := Take(prev, pt, n, nodes[..i], nodes[i + 1..], free[..i], free[i], free[i + 1..]);
      } else {
        p := 0;
      }
      DistinctCount(nodes);
      DescribedLength(nodes, free, null);
    }

    /** The rest of `__malloc_extern`: the chunk found at `pt` disappears or gives up its
        end. N describes the list A in front of it, M the list C behind. */
    method Take(prev: Descriptor?, pt: Descriptor, n: int, ghost N: seq<Descriptor>, ghost M: seq<Descriptor>,
                ghost A: seq<Chunk>, ghost c: Chunk, ghost C: seq<Chunk>) returns (p: int)
      requires Valid() && nodes == N + [pt] + M && free == A + [c] + C && |N| == |A|
      requires prev == if N == [] then null else N[|N| - 1]
      modifies this, nodes
      ensures Valid() && NodeSet(nodes) <= old(NodeSet(nodes))
      ensures p == c.End() - n && free == TakeEnd(A, c, C, n)
    {
      hide Described, Distinct;
      assert nodes == N + ([pt] + M) && free == A + ([c] + C);
      DescribedSplit(N, [pt] + M, A, [c] + C, null);
      DescribedSplit([pt], M, [c], C, null);
      DescribedOne(pt, c, First(M, null));
      DistinctSplit(N, [pt] + M);
      DistinctSplit([pt], M);
      DistinctSplit(N, M);
      assert NodeSet([pt]) == {pt};
      if pt.size == n {
        if prev != null {
          SplitLast(N, A, pt);
          DistinctSplit(N[..|N| - 1], [prev]);
          assert N == N[..|N| - 1] + [prev] && prev in NodeSet(N);
          prev.next := pt.next;
          SplitLast(N, A, First(M, null));
        } else {
          firstFree := pt.next;
          DescribedNone(First(M, null));
        }
        p := pt.addr;
        live := live - {pt};
        nodes, free := N + M, A + C;
        DescribedSplit(N, M, A, C, null);
      } else {
        p := pt.addr + pt.size - n;
        pt.size := pt.size - n;
        free := A + [Chunk(c.addr, c.size - n)] + C;
        DescribedOne(pt, Chunk(c.addr, c.size - n), First(M, null));
        DescribedSplit([pt], M, [Chunk(c.addr, c.size - n)], C, null);
        assert free == A + ([Chunk(c.addr, c.size - n)] + C);
        DescribedSplit(N, [pt] + M, A, [Chunk(c.addr, c.size - n)] + C, null);
      }
    }

    // The walk of `__malloc_extern_free` to the place of the chunk.
    method FindPlace(chunk: int) returns (prev: Descriptor?, next: Descriptor?, ghost i: nat)
      requires Valid()
      ensures i <= |nodes| == |free| && (next == null <==> i == |nodes|)
      ensures next != null ==> next == nodes[i] && next.addr == free[i].addr && chunk <= free[i].addr
      ensures next == First(nodes[i..], null)
      ensures prev == if i == 0 then null else nodes[i - 1]
      ensures forall j :: 0 <= j < i ==> free[j].addr < chunk
    {
      hide Described, Distinct;
      next, prev := firstFree, null;
      i := 0;
      Reached(nodes, free, i);
      while next != null && next.addr < chunk
        invariant i <= |nodes| && next == First(nodes[i..], null)
        invariant prev == if i == 0 then null else nodes[i - 1]
        invariant forall j :: 0 <= j < i ==> free[j].addr < chunk
        decreases |nodes| - i
      {
        Reached(nodes, free, i);
        prev := next;
        next := next.next;
        i := i + 1;
        Reached(nodes, free, i);
      }
      Reached(nodes, free, i);
    }

    /** `__malloc_extern_free`, up to the descriptor of the freed chunk. It fails exactly
        when a descriptor is needed and none is available, and then changes nothing. */
    method Free(chunk: int, size: int, available: bool) returns (status: int)
      requires Valid() && 0 <= size
      modifies this, nodes
      ensures Valid() && |live| == |free|
      ensures status == if NeedsDescriptor(old(free), chunk, Round(size)) && !available then 1 else 0
      ensures status == 1 ==> free == old(free) && nodes == old(nodes)
      ensures status == 0 ==> free == FreeList.Free(old(free), chunk, Round(size))
      ensures fresh(NodeSet(nodes) - old(NodeSet(nodes)))
    {
      hide FreeList.Free, Insert, Round, NeedsDescriptor, Described, Distinct, First;
      var n := Round(size);
      ghost var i: nat;
      var prev, next;
      prev, next, i := FindPlace(chunk);
      FreeIndex(free, chunk, n, i);
      if next != null && chunk + n == next.addr {
        status := 0;
        JoinNext(prev, next, chunk, n, nodes[..i], nodes[i + 1..], free[..i], free[i], free[i + 1..]);
      } else {
        status := if available then 0 else 1;
        if available {
          NewBefore(prev, next, chunk, n, nodes[..i], nodes[i..], free[..i], free[i..]);
        }
      }
      DistinctCount(nodes);
      DescribedLength(nodes, free, null);
    }

    // The freed bytes join the next chunk, whose descriptor is moved.
    method JoinNext(prev: Descriptor?, next: Descriptor, chunk: int, n: int, ghost N: seq<Descriptor>, ghost M: seq<Descriptor>,
                    ghost A: seq<Chunk>, ghost c: Chunk, ghost C: seq<Chunk>)
      requires Valid() && nodes == N + [next] + M && free == A + [c] + C && |N| == |A|
      requires prev == if N == [] then null else N[|N| - 1]
      modifies this, nodes
      ensures Valid() && free == Insert(A, Chunk(chunk, n + c.size), C)
      ensures NodeSet(nodes) <= old(NodeSet(nodes))
    {
      hide Described, Distinct, Insert;
      assert nodes == N + ([next] + M) && free == A + ([c] + C);
      DescribedSplit(N, [next] + M, A, [c] + C, null);
      DescribedSplit([next], M, [c], C, null);
      DescribedOne(next, c, First(M, null));
      DistinctSplit(N, [next] + M);
      DistinctSplit([next], M);
      assert NodeSet([next]) == {next};
      assert forall i :: 0 <= i < |N| ==> N[i] == nodes[i];
      assert next == nodes[|N|];
      next.size := n + next.size;
      next.addr := chunk;
      Chain(prev, next, N, M, A, C, next);
    }

    // A new descriptor for the freed bytes.
    method NewBefore(prev: Descriptor?, next: Descriptor?, chunk: int, n: int, ghost N: seq<Descriptor>, ghost M: seq<Descriptor>,
                     ghost A: seq<Chunk>, ghost C: seq<Chunk>)
      requires Valid() && nodes == N + M && free == A + C && |N| == |A|
      requires prev == (if N == [] then null else N[|N| - 1]) && next == First(M, null)
      modifies this, nodes
      ensures Valid() && free == Insert(A, Chunk(chunk, n), C)
      ensures fresh(NodeSet(nodes) - old(NodeSet(nodes)))
    {
      hide Described, Distinct, Insert;
      DescribedSplit(N, M, A, C, null);
      DistinctSplit(N, M);
      assert forall i :: 0 <= i < |N| ==> N[i] == nodes[i];
      var d := new Descriptor;
      live := live + {d};
      d.size := n;
      d.next := next;
      d.addr := chunk;
      assert NodeSet([d]) == {d} && d !in NodeSet(nodes);
      DistinctOne(d);
      DistinctSplit([d], M);
      DistinctSplit(N, [d] + M);
      Chain(prev, d, N, M, A, C, next);
    }

    // The chunk `d` describes is to be put behind the list A, which N describes, and in
    // front of the list C, which M describes.
    ghost predicate Ready(prev: Descriptor?, d: Descriptor, N: seq<Descriptor>, M: seq<Descriptor>,
                          A: seq<Chunk>, C: seq<Chunk>, last: Descriptor?)
      reads this, N, M, d
    {
      && Described(N, A, last) && Described(M, C, null) && Distinct(N + ([d] + M))
      && d.next == First(M, null) && (N != [] ==> firstFree == N[0])
      && live == NodeSet(N + ([d] + M)) && prev == if N == [] then null else N[|N| - 1]
    }

    lemma ReadyParts(prev: Descriptor, d: Descriptor, N: seq<Descriptor>, M: seq<Descriptor>,
                     A: seq<Chunk>, C: seq<Chunk>, last: Descriptor?)
      requires Ready(prev, d, N, M, A, C, last)
      ensures |N| == |A| > 0
      ensures var k := |N| - 1;
        && N == N[..k] + [prev] && A == A[..k] + [A[k]]
        && Described(N[..k], A[..k], prev) && prev.addr == A[k].addr && prev.size == A[k].size
        && prev !in NodeSet(N[..k]) && prev !in NodeSet(M) && prev != d
        && d !in NodeSet(N) && d !in NodeSet(M)
        && NodeSet(N + ([d] + M)) == NodeSet(N) + {d} + NodeSet(M) && NodeSet(N + M) == NodeSet(N) + NodeSet(M)
        && Distinct(N + M) && Distinct(N + ([d] + M)) && N[0] == firstFree
    {
      hide Described, Distinct;
      DescribedLength(N, A, last);
      DistinctSplit(N, [d] + M);
      DistinctSplit([d], M);
      DistinctSplit(N, M);
      assert NodeSet([d]) == {d} && NodeSet([prev]) == {prev};
      var k := |N| - 1;
      assert N == N[..k] + [prev];
      SplitLast(N, A, last);
      DistinctSplit(N[..k], [prev]);
      assert prev in NodeSet(N);
    }

    // The previous chunk takes in the one `d` describes, whose descriptor is given back.
    method Absorb(prev: Descriptor, d: Descriptor, ghost N: seq<Descriptor>, ghost M: seq<Descriptor>,
                  ghost A: seq<Chunk>, ghost C: seq<Chunk>, ghost last: Descriptor?)
      requires Ready(prev, d, N, M, A, C, last) && prev.addr + prev.size == d.addr
      modifies this, prev
      ensures Valid() && nodes == N + M
      ensures |A| > 0 && free == A[..|A| - 1] + [Chunk(A[|A| - 1].addr, A[|A| - 1].size + old(d.size))] + C
    {
      hide Described, Distinct, Ready;
      ReadyParts(prev, d, N, M, A, C, last);
      ReadyRest(prev, d, N, M, A, C, last);
      ghost var k := |N| - 1;
      ghost var B := A[..k] + [Chunk(prev.addr, prev.size + d.size)];
      prev.size := prev.size + d.size;
      prev.next := d.next;
      live := live - {d};
      assert B[..k] == A[..k];
      SplitLast(N, B, First(M, null));
      DescribedSplit(N, M, B, C, null);
      nodes, free := N + M, B + C;
    }

    lemma ReadyRest(prev: Descriptor?, d: Descriptor, N: seq<Descriptor>, M: seq<Descriptor>,
                    A: seq<Chunk>, C: seq<Chunk>, last: Descriptor?)
      requires Ready(prev, d, N, M, A, C, last)
      ensures Described(M, C, null) && d.next == First(M, null) && live == NodeSet(N + ([d] + M))
      ensures (prev == null <==> N == []) && (N == [] ==> A == []) && (prev != null ==> prev == N[|N| - 1])
      ensures Distinct(N + ([d] + M))
    {
    }

    // The previous chunk is followed by the one `d` describes.
    method LinkBehind(prev: Descriptor, d: Descriptor, ghost N: seq<Descriptor>, ghost M: seq<Descriptor>,
                      ghost A: seq<Chunk>, ghost C: seq<Chunk>, ghost last: Descriptor?)
      requires Ready(prev, d, N, M, A, C, last)
      modifies this, prev
      ensures Valid() && nodes == N + ([d] + M) && free == A + [old(Chunk(d.addr, d.size))] + C
    {
      hide Described, Distinct, Ready;
      ReadyParts(prev, d, N, M, A, C, last);
      ReadyRest(prev, d, N, M, A, C, last);
      ghost var c := Chunk(d.addr, d.size);
      prev.next := d;
      SplitLast(N, A, d);
      LinkIn(N, d, M, A, c, C);
      nodes, free := N + ([d] + M), A + [c] + C;
    }

    /** The rest of `__malloc_extern_free`: the chunk `d` describes is merged into the
        previous one or linked behind it. N describes the list A in front of it, M the
        list C behind. */
    method Chain(prev: Descriptor?, d: Descriptor, ghost N: seq<Descriptor>, ghost M: seq<Descriptor>,
                 ghost A: seq<Chunk>, ghost C: seq<Chunk>, ghost last: Descriptor?)
      requires Ready(prev, d, N, M, A, C, last)
      modifies this, N, d
      ensures Valid() && free == Insert(A, old(Chunk(d.addr, d.size)), C)
      ensures NodeSet(nodes) <= NodeSet(N + ([d] + M))
    {
      hide Described, Distinct, Ready;
      ReadyRest(prev, d, N, M, A, C, last);
      if prev != null {
        ReadyParts(prev, d, N, M, A, C, last);
        if prev.addr + prev.size == d.addr {
          Absorb(prev, d, N, M, A, C, last);
        } else {
          LinkBehind(prev, d, N, M, A, C, last);
        }
      } else {
        ghost var c := Chunk(d.addr, d.size);
        firstFree := d;
        DescribedNone(d);
        LinkIn(N, d, M, A, c, C);
        nodes, free := N + ([d] + M), A + [c] + C;
      }
    }
  }
}
