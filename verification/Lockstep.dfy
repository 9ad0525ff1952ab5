/**
 Both allocators served the same requests: they hand out the same addresses and
 keep the same free intervals.
 */
module Lockstep {
  import opened FreeList
  import opened HeapRuns
  import opened InBandHeap
  import opened InBandRuns
  import opened ExternHeap

  // Requests both allocators offer: there is no aligned external allocation.
  predicate Common(rs: seq<Request>) {
    forall r :: r in rs ==> !r.AllocAligned?
  }

  // Both allocators hold the free list of `h`, and every word of the heap exists.
  ghost predicate InStep(a: Allocator, x: ExternAllocator, h: Heap, heap: set<int>)
    reads a, x, x.nodes
  {
    && Serves(a, h, heap) && x.Valid() && x.free == h.free
  }

  // ---------------------------------------------------------------- refused releases

  // The L2 heap has no descriptor for this release, and it needs one.
  predicate Refused(h: Heap, r: Request, available: bool)
    requires Legal(h, r)
  {
    r.Release? && !available && NeedsDescriptor(h.free, r.ptr, Round(r.size))
  }

  // A refused release changes nothing.
  function StepWith(h: Heap, r: Request, available: bool): Heap
    requires Legal(h, r)
  {
    if Refused(h, r, available) then h else Step(h, r).0
  }

  // A run with a schedule that says when the L2 heap has a descriptor.
  predicate LegalWith(h: Heap, rs: seq<Request>, available: seq<bool>)
    requires |available| == |rs|
    decreases rs
  {
    rs == [] || (Legal(h, rs[0]) && LegalWith(StepWith(h, rs[0], available[0]), rs[1..], available[1..]))
  }

  function RunWith(h: Heap, rs: seq<Request>, available: seq<bool>): Heap
    requires |available| == |rs| && LegalWith(h, rs, available)
    decreases rs
  {
    if rs == [] then h else RunWith(StepWith(h, rs[0], available[0]), rs[1..], available[1..])
  }

  // The requests that are served.
  function Accepted(h: Heap, rs: seq<Request>, available: seq<bool>): seq<Request>
    requires |available| == |rs| && LegalWith(h, rs, available)
    decreases rs
  {
    if rs == [] then []
    else
      (if Refused(h, rs[0], available[0]) then [] else [rs[0]])
      + Accepted(StepWith(h, rs[0], available[0]), rs[1..], available[1..])
  }

  // The requests that are refused, by position.
  function Refusals(h: Heap, rs: seq<Request>, available: seq<bool>): (s: seq<bool>)
    requires |available| == |rs| && LegalWith(h, rs, available)
    ensures |s| == |rs|
    decreases rs
  {
    if rs == [] then []
    else [Refused(h, rs[0], available[0])] + Refusals(StepWith(h, rs[0], available[0]), rs[1..], available[1..])
  }

  /** A run with refusals is the run of the requests that were served. */
  lemma {:induction false} AcceptedRun(h: Heap, rs: seq<Request>, available: seq<bool>)
    requires |available| == |rs| && LegalWith(h, rs, available)
    ensures LegalRun(h, Accepted(h, rs, available))
    ensures Run(h, Accepted(h, rs, available)) == RunWith(h, rs, available)
    decreases rs
  {
    hide Step, Refused, Legal;
    if rs != [] {
      var g := StepWith(h, rs[0], available[0]);
      var rest := Accepted(g, rs[1..], available[1..]);
      AcceptedRun(g, rs[1..], available[1..]);
      if Refused(h, rs[0], available[0]) {
        assert Accepted(h, rs, available) == rest;
      } else {
        var all := Accepted(h, rs, available);
        assert all == [rs[0]] + rest && all[0] == rs[0] && all[1..] == rest;
      }
    }
  }

  /** While descriptors are available every request is served. */
  lemma {:induction false} AllAvailable(h: Heap, rs: seq<Request>, available: seq<bool>)
    requires |available| == |rs| && forall i :: 0 <= i < |rs| ==> available[i]
    requires LegalRun(h, rs)
    ensures LegalWith(h, rs, available) && RunWith(h, rs, available) == Run(h, rs)
    ensures Accepted(h, rs, available) == rs
    decreases rs
  {
    hide Step, Legal, NeedsDescriptor;
    if rs != [] {
      assert !Refused(h, rs[0], available[0]);
      AllAvailable(Step(h, rs[0]).0, rs[1..], available[1..]);
      assert rs == [rs[0]] + rs[1..];
    }
  }

  // ---------------------------------------------------------------- both allocators

  /** One request with the size its caller passes. The external allocator is asked first, and
      the in-band one only when it did not refuse. */
  method ServeBoth(a: Allocator, x: ExternAllocator, r: Request, available: bool, ghost h: Heap, ghost heap: set<int>)
    returns (refused: bool, p: int, q: int)
    requires InStep(a, x, h, heap) && Legal(h, r) && !r.AllocAligned?
    modifies a, x, x.nodes
    ensures InStep(a, x, StepWith(h, r, available), heap)
    ensures refused == Refused(h, r, available)
    ensures !refused ==> p == Step(h, r).1 && q == p
    ensures refused ==> x.free == old(x.free) && x.nodes == old(x.nodes) && x.live == old(x.live) && a.mem == old(a.mem)
    ensures fresh(NodeSet(x.nodes) - old(NodeSet(x.nodes)))
    ensures a.mem.Keys == old(a.mem).Keys
  {
    hide Inv, FreeList.Malloc, FreeList.Free, HeaderWord, Backed, NeedsDescriptor, Described, Distinct, Round, Kept;
    refused, p, q := false, 0, 0;
    if r.Alloc? {
      FreshAddress(h, heap, r.size);
      q := x.Malloc(r.size);
    } else {
      BlockWritable(h, heap, a.mem.Keys, r.ptr);
      PositiveSize(r.size);
      var status := x.Free(r.ptr, r.size, available);
      refused := status == 1;
    }
    if !refused {
      p := Serve(a, r, h, heap);
    }
  }

  /** A whole run with any schedule of available descriptors. The requests that were served
      get the same addresses from both. */
  method ServeAllBoth(a: Allocator, x: ExternAllocator, rs: seq<Request>, available: seq<bool>,
                      ghost h: Heap, ghost heap: set<int>)
    returns (refusals: seq<bool>, pa: seq<int>, px: seq<int>)
    requires |available| == |rs| && LegalWith(h, rs, available)
    requires InStep(a, x, h, heap) && Common(rs)
    modifies a, x, x.nodes
    ensures InStep(a, x, RunWith(h, rs, available), heap) && |x.live| == |x.free|
    ensures refusals == Refusals(h, rs, available)
    ensures LegalRun(h, Accepted(h, rs, available)) && pa == px == Addresses(h, Accepted(h, rs, available))
    ensures a.mem.Keys == old(a.mem).Keys
    decreases rs
  {
    hide Inv, FreeList.Malloc, FreeList.Free, Backed, Refused, Accepted, Step, LegalRun, Addresses, InStep;
    AcceptedRun(h, rs, available);
    if rs == [] {
      DescriptorCount(a, x, h, heap);
      AcceptedNone(h, rs, available);
      return [], [], [];
    }
    var r := rs[0];
    assert r in rs;
    ghost var g := StepWith(h, r, available[0]);
    var refused, p, q := ServeBoth(a, x, r, available[0], h, heap);
    AcceptedHead(h, rs, available);
    refusals, pa, px := ServeAllBoth(a, x, rs[1..], available[1..], g, heap);
    refusals := [refused] + refusals;
    if !refused {
      pa, px := [p] + pa, [q] + px;
    }
  }

  // The first request is served or skipped.
  lemma AcceptedHead(h: Heap, rs: seq<Request>, available: seq<bool>)
    requires |available| == |rs| && LegalWith(h, rs, available) && rs != []
    requires LegalRun(h, Accepted(h, rs, available))
    ensures var rest := Accepted(StepWith(h, rs[0], available[0]), rs[1..], available[1..]);
      var g := StepWith(h, rs[0], available[0]);
      && LegalRun(g, rest)
      && Addresses(h, Accepted(h, rs, available)) ==
         (if Refused(h, rs[0], available[0]) then [] else [Step(h, rs[0]).1]) + Addresses(g, rest)
  {
    hide Step, Refused, Legal;
    var g := StepWith(h, rs[0], available[0]);
    var rest := Accepted(g, rs[1..], available[1..]);
    AcceptedRun(g, rs[1..], available[1..]);
    var all := Accepted(h, rs, available);
    if Refused(h, rs[0], available[0]) {
      assert all == rest;
      assert [] + Addresses(g, rest) == Addresses(g, rest);
    } else {
      assert all == [rs[0]] + rest && all[0] == rs[0] && all[1..] == rest;
    }
  }

  lemma AcceptedNone(h: Heap, rs: seq<Request>, available: seq<bool>)
    requires rs == [] && available == []
    ensures Accepted(h, rs, available) == [] && Addresses(h, []) == []
  {
  }

  lemma DescriptorCount(a: Allocator, x: ExternAllocator, h: Heap, heap: set<int>)
    requires InStep(a, x, h, heap)
    ensures |x.live| == |x.free|
  {
    DistinctCount(x.nodes);
    DescribedLength(x.nodes, x.free, null);
  }

  // ---------------------------------------------------------------- from init to deinit

  lemma {:induction false} RunAppend(h: Heap, rs: seq<Request>, qs: seq<Request>)
    requires LegalRun(h, rs) && LegalRun(Run(h, rs), qs)
    ensures LegalRun(h, rs + qs) && Run(h, rs + qs) == Run(Run(h, rs), qs)
    decreases rs
  {
    hide FreeList.Malloc, FreeList.Free, FreeList.MallocAlign;
    if rs == [] {
      assert rs + qs == qs;
    } else {
      assert (rs + qs)[0] == rs[0] && (rs + qs)[1..] == rs[1..] + qs;
      RunAppend(Step(h, rs[0]).0, rs[1..], qs);
    }
  }

  lemma {:induction false} ReleasesCommon(ps: seq<int>, ns: seq<int>)
    requires |ps| == |ns|
    ensures Common(Releases(ps, ns))
  {
    if ps != [] {
      ReleasesCommon(ps[1..], ns[1..]);
    }
  }

  lemma CommonAppend(rs: seq<Request>, qs: seq<Request>)
    requires Common(rs) && Common(qs)
    ensures Common(rs + qs)
  {
  }

  /** For instance when, after any run, every live block is released in any order while
      descriptors are available: then no block is live. */
  lemma AllReturned(chunk: int, size: int, rs: seq<Request>, ps: seq<int>, ns: seq<int>)
    requires 0 < chunk && 8 <= size - (Round(chunk) - chunk)
    requires LegalRun(Heap(InitialList(chunk, size), map[]), rs) && Common(rs)
    requires Everything(Run(Heap(InitialList(chunk, size), map[]), rs).live, ps, ns)
    ensures |ps| == |ns|
    ensures var all := rs + Releases(ps, ns);
      var available := seq(|all|, _ => true);
      var start := Heap(InitialList(chunk, size), map[]);
      Common(all) && LegalWith(start, all, available) && RunWith(start, all, available).live == map[]
  {
    hide FreeList.Malloc, FreeList.Free, Bytes, Run, LegalRun, Releases;
    var start := Heap(InitialList(chunk, size), map[]);
    ReleaseAll(chunk, size, rs, ps, ns);
    RunAppend(start, rs, Releases(ps, ns));
    ReleasesCommon(ps, ns);
    CommonAppend(rs, Releases(ps, ns));
    var all := rs + Releases(ps, ns);
    AllAvailable(start, all, seq(|all|, _ => true));
  }

  // The words `__malloc_init` writes exist.
  lemma InitialWords(chunk: int, size: int, words: set<int>)
    requires 0 < chunk && 8 <= size - (Round(chunk) - chunk)
    requires Backed(words, Region(chunk, size))
    ensures Round(chunk) in words && Round(chunk) + 4 in words
  {
    var c := InitialList(chunk, size)[0];
    InitialRegion(chunk, size);
    assert Bytes(InitialList(chunk, size)) == Range(c.addr, c.size) + Bytes([]);
    WordsAt(Region(chunk, size), words, c.addr, c.size, c.addr);
  }

  /** A whole life: both allocators are initialised with the same region and serve any run of
      requests under any schedule of descriptors after which no block is live. The in-band
      list is then the initial one again, and deinitialising the external one leaves no
      descriptor behind. */
  method Lifetime(a: Allocator, x: ExternAllocator, chunk: int, size: int, rs: seq<Request>, available: seq<bool>)
    requires 0 < chunk && 8 <= size - (Round(chunk) - chunk) && x.live == {}
    requires Backed(a.mem.Keys, Region(chunk, size))
    requires |available| == |rs| && LegalWith(Heap(InitialList(chunk, size), map[]), rs, available) && Common(rs)
    requires RunWith(Heap(InitialList(chunk, size), map[]), rs, available).live == map[]
    modifies a, x
    ensures a.Valid() && a.free == InitialList(chunk, size)
    ensures x.live == {}
  {
    hide InStep, FreeList.Malloc, FreeList.Free, Bytes, Region, Backed, RunWith, LegalWith, InitialList;
    ghost var start, heap := Heap(InitialList(chunk, size), map[]), Region(chunk, size);
    Begin(a, x, chunk, size);
    var refusals, pa, px := ServeAllBoth(a, x, rs, available, start, heap);
    InStepParts(a, x, RunWith(start, rs, available), heap);
    NoneLeft(chunk, size, RunWith(start, rs, available));
    OneChunkLeft(x, chunk, size);
    x.Deinit();
  }

  // Both allocators are initialised with the same region.
  method Begin(a: Allocator, x: ExternAllocator, chunk: int, size: int)
    requires 0 < chunk && 8 <= size - (Round(chunk) - chunk) && x.live == {}
    requires Backed(a.mem.Keys, Region(chunk, size))
    modifies a, x
    ensures InStep(a, x, Heap(InitialList(chunk, size), map[]), Region(chunk, size))
    ensures fresh(x.nodes)
  {
    hide Inv, FreeList.Malloc, FreeList.Free, Bytes, Backed, InBandHeap.Linked, Stored, Described, Distinct;
    InitialWords(chunk, size, a.mem.Keys);
    InitialInv(chunk, size);
    InitialRegion(chunk, size);
    a.Init(chunk, size);
    var status := x.Init(chunk, size, true);
    assert forall d :: d in x.nodes ==> d in NodeSet(x.nodes);
  }

  lemma InStepParts(a: Allocator, x: ExternAllocator, h: Heap, heap: set<int>)
    requires InStep(a, x, h, heap)
    ensures a.Valid() && x.Valid() && a.free == x.free == h.free && Inv(h, heap)
  {
  }

  // The list is not empty.
  lemma OneChunkLeft(x: ExternAllocator, chunk: int, size: int)
    requires x.Valid() && x.free == InitialList(chunk, size)
    ensures x.firstFree != null && |x.free| == 1 && InitialList(chunk, size) == x.free
  {
  }
}
