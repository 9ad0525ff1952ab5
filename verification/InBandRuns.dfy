/**
 Runs of the in-band allocator together with its users, who store into their blocks: headers
 and user data share the memory, yet neither disturbs the other.
 */
module InBandRuns {
  import opened FreeList
  import opened FreeListProofs
  import opened AlignProofs
  import opened HeapRuns
  import opened InBandHeap

  // The addresses a run returns.
  function Addresses(h: Heap, rs: seq<Request>): seq<int>
    requires LegalRun(h, rs)
    decreases rs
  {
    if rs == [] then [] else [Step(h, rs[0]).1] + Addresses(Step(h, rs[0]).0, rs[1..])
  }

  // The allocator holds the free list of `h`, and every word of the heap exists.
  ghost predicate Serves(a: Allocator, h: Heap, heap: set<int>)
    reads a
  {
    a.Valid() && a.free == h.free && Inv(h, heap) && Backed(a.mem.Keys, heap)
  }

  /** A header word is never a word of a live block. */
  lemma HeaderNotLive(h: Heap, heap: set<int>, p: int, w: int)
    requires Inv(h, heap) && p in h.live && w in Range(p, h.live[p])
    ensures !HeaderWord(h.free, w)
  {
    hide HeaderWord;
    LiveStaysApart(h, heap, p);
    HeaderWordsFree(h.free);
  }

  // The header of another block is not in this one either.
  lemma BlockNotLive(h: Heap, heap: set<int>, p: int, w: int, q: int)
    requires Inv(h, heap) && p in h.live && w in Range(p, h.live[p]) && q in h.live && q != p
    ensures w != q && w != q + 4
  {
    hide Inv, WellFormed, Bytes;
    LiveStaysApart(h, heap, p);
    LiveHeader(h, heap, q);
  }

  // A live block has room for a header.
  lemma LiveHeader(h: Heap, heap: set<int>, q: int)
    requires Inv(h, heap) && q in h.live
    ensures 0 < q && Whole(q) && 8 <= h.live[q] && Whole(h.live[q])
    ensures q in Range(q, h.live[q]) && q + 4 in Range(q, h.live[q])
  {
    hide WellFormed, LiveApart, LiveBytes, Bytes;
    var n := h.live[q];
    assert 0 < n && n % 8 == 0;
  }

  lemma FreshAddress(h: Heap, heap: set<int>, size: int)
    requires Inv(h, heap) && 0 < size
    ensures Malloc(h.free, Round(size)).ptr !in h.live
    ensures Malloc(h.free, Round(size)).ptr == 0 ==> Malloc(h.free, Round(size)).free == h.free
  {
    hide Malloc;
    MallocNull(h.free, Round(size));
    MallocTakes(h.free, Round(size));
    LiveOwn(h.live);
    var p := Malloc(h.free, Round(size)).ptr;
    assert p != 0 ==> p in Range(p, Round(size));
  }

  // The block a release gives back can carry a chunk header.
  lemma BlockWritable(h: Heap, heap: set<int>, words: set<int>, p: int)
    requires Inv(h, heap) && Backed(words, heap) && p in h.live
    ensures 0 < p && Whole(p) && 0 < h.live[p] && Round(h.live[p]) == h.live[p]
    ensures p in words && p + 4 in words
    ensures forall i :: 0 <= i < |h.free| ==> h.free[i].addr != p
  {
    hide Bytes, WellFormed, LiveWhole, LiveApart, LiveBytes, Backed, Whole;
    LiveHeader(h, heap, p);
    LiveStaysApart(h, heap, p);
    LiveRemove(h.live, p);
    WordsAt(heap, words, p, h.live[p], p);
    NotInList(h.free, p);
  }

  // The words a request may write are none of a block it does not release.
  lemma KeepsClear(h: Heap, heap: set<int>, r: Request)
    requires Inv(h, heap) && Legal(h, r)
    ensures forall b, w :: b in h.live && !Releasing([Ask(r)], b) && w in Range(b, h.live[b]) ==>
      !HeaderWord(h.free, w) && (r.Release? ==> w != r.ptr && w != r.ptr + 4)
  {
    hide HeaderWord, Inv;
    forall b, w | b in h.live && !Releasing([Ask(r)], b) && w in Range(b, h.live[b])
      ensures !HeaderWord(h.free, w) && (r.Release? ==> w != r.ptr && w != r.ptr + 4)
    {
      HeaderNotLive(h, heap, b, w);
      if r.Release? {
        assert Ask(r) in [Ask(r)];
        BlockNotLive(h, heap, b, w, r.ptr);
      }
    }
  }

  // An aligned request stores to free memory only, which no live block shares.
  lemma FreeNotLive(h: Heap, heap: set<int>)
    requires Inv(h, heap)
    ensures WellFormed(h.free) && Bytes(h.free) <= heap
    ensures forall b, w :: b in h.live && w in Range(b, h.live[b]) ==> w !in Bytes(h.free)
  {
    forall b, w | b in h.live && w in Range(b, h.live[b]) ensures w !in Bytes(h.free) {
      LiveStaysApart(h, heap, b);
    }
  }

  lemma BackedPart(words: set<int>, part: set<int>, heap: set<int>)
    requires Backed(words, heap) && part <= heap
    ensures Backed(words, part)
  {
  }

  // ---------------------------------------------------------------- what users do

  // A request, or a store of a user into memory of its own.
  datatype Action = Ask(r: Request) | Store(w: int, v: int)

  ghost predicate Owned(h: Heap, w: int) {
    exists p :: p in h.live && w in Range(p, h.live[p])
  }

  // Users respect the rules for requests and store to words of live blocks only.
  ghost predicate Allowed(h: Heap, x: Action) {
    match x
    case Ask(r) => Legal(h, r)
    case Store(w, v) => w % 4 == 0 && Owned(h, w)
  }

  // Stores leave the heap as it is.
  ghost function After(h: Heap, x: Action): Heap
    requires Allowed(h, x)
  {
    if x.Ask? then Step(h, x.r).0 else h
  }

  ghost predicate AllowedRun(h: Heap, xs: seq<Action>)
    decreases xs
  {
    xs == [] || (Allowed(h, xs[0]) && AllowedRun(After(h, xs[0]), xs[1..]))
  }

  // The heap after the first `i` actions.
  ghost function HeapAt(h: Heap, xs: seq<Action>, i: nat): Heap
    requires AllowedRun(h, xs) && i <= |xs|
    decreases xs
  {
    if i == 0 then h else HeapAt(After(h, xs[0]), xs[1..], i - 1)
  }

  function Requests(xs: seq<Action>): seq<Request> {
    if xs == [] then []
    else (if xs[0].Ask? then [xs[0].r] else []) + Requests(xs[1..])
  }

  /** What users store has no influence on the run of their requests. */
  lemma {:induction false} StoresIgnored(h: Heap, xs: seq<Action>)
    requires AllowedRun(h, xs)
    ensures LegalRun(h, Requests(xs)) && HeapAt(h, xs, |xs|) == Run(h, Requests(xs))
    decreases xs
  {
    hide Step, Legal;
    if xs != [] {
      var rest := Requests(xs[1..]);
      StoresIgnored(After(h, xs[0]), xs[1..]);
      if xs[0].Ask? {
        assert Requests(xs) == [xs[0].r] + rest && Requests(xs)[1..] == rest;
      } else {
        assert Requests(xs) == rest;
      }
    }
  }

  // The block at `p` is given back.
  ghost predicate Releasing(xs: seq<Action>, p: int) {
    exists x :: x in xs && x.Ask? && x.r.Release? && x.r.ptr == p
  }

  // What was stored last at `w`, `v` when nothing was.
  function LastStored(xs: seq<Action>, w: int, v: int): int {
    if xs == [] then v
    else LastStored(xs[1..], w, if xs[0].Store? && xs[0].w == w then xs[0].v else v)
  }

  // Every word of a block that is not given back holds what its user stored last.
  ghost predicate Kept(before: map<int, int>, after: map<int, int>, live: map<int, int>, xs: seq<Action>) {
    forall p, w :: p in live && !Releasing(xs, p) && w in Range(p, live[p]) && w in before && w in after ==>
      after[w] == LastStored(xs, w, before[w])
  }

  lemma KeptOne(before: map<int, int>, after: map<int, int>, live: map<int, int>, r: Request)
    requires forall p, w :: p in live && !Releasing([Ask(r)], p) && w in Range(p, live[p]) && w in before && w in after ==>
      after[w] == before[w]
    ensures Kept(before, after, live, [Ask(r)])
  {
    forall w, v ensures LastStored([Ask(r)], w, v) == v {
      assert [Ask(r)][1..] == [];
    }
  }

  // What rounds to the size of a block is a size.
  lemma PositiveSize(n: int)
    ensures 0 < Round(n) ==> 0 < n
  {
  }

  /** One request with the size its caller passes. */
  method Serve(a: Allocator, r: Request, ghost h: Heap, ghost heap: set<int>) returns (p: int)
    requires Serves(a, h, heap) && Legal(h, r)
    modifies a
    ensures Serves(a, Step(h, r).0, heap) && p == Step(h, r).1
    ensures Kept(old(a.mem), a.mem, h.live, [Ask(r)])
    ensures a.mem.Keys == old(a.mem).Keys
  {
    hide Inv, FreeList.Malloc, FreeList.Free, FreeList.MallocAlign, HeaderWord, Backed, WellFormed, Bytes, Safe, Releasing,
      LastStored, Kept;
    StepInv(h, heap, r);
    match r {
      case Alloc(size) =>
        KeepsClear(h, heap, r);
        FreshAddress(h, heap, size);
        p := a.Malloc(size);
      case AllocAligned(size, align) =>
        FreeNotLive(h, heap);
        BackedPart(a.mem.Keys, Bytes(h.free), heap);
        SafeWhole(h.free, size, align);
        AlignNull(h.free, size, align);
        p := a.MallocAlign(size, align);
      case Release(ptr, size) =>
        KeepsClear(h, heap, r);
        BlockWritable(h, heap, a.mem.Keys, ptr);
        PositiveSize(size);
        a.Free(ptr, size);
        p := 0;
    }
    KeptOne(old(a.mem), a.mem, h.live, r);
  }

  lemma SafeWhole(L: seq<Chunk>, size: int, align: int)
    requires IsPowerOfTwo(align) && Safe(L, size, align)
    ensures align < HEADER_SIZE || Whole(size)
  {
  }

  /** A store of a user to its own block does not disturb the list that shares the memory. */
  method StoreWord(a: Allocator, w: int, v: int, ghost h: Heap, ghost heap: set<int>)
    requires Serves(a, h, heap) && Allowed(h, Store(w, v))
    modifies a`mem
    ensures Serves(a, h, heap) && w in old(a.mem)
    ensures a.mem == old(a.mem)[w := v] && a.mem.Keys == old(a.mem).Keys
    ensures Kept(old(a.mem), a.mem, h.live, [Store(w, v)])
  {
    hide Inv, HeaderWord, Backed, Stored, Owned;
    OwnedWord(h, heap, a.mem.Keys, w);
    StoredFrame(a.mem, h.free, 0, w, v);
    a.mem := a.mem[w := v];
    assert a.mem.Keys == old(a.mem).Keys;
    KeptStore(old(a.mem), h.live, w, v);
  }

  lemma KeptStore(m: map<int, int>, live: map<int, int>, w: int, v: int)
    requires w in m
    ensures Kept(m, m[w := v], live, [Store(w, v)])
  {
    hide Releasing;
    forall u, x ensures LastStored([Store(w, v)], u, x) == if u == w then v else x {
      assert [Store(w, v)][1..] == [];
    }
  }

  lemma OwnedWord(h: Heap, heap: set<int>, words: set<int>, w: int)
    requires Inv(h, heap) && Backed(words, heap) && w % 4 == 0 && Owned(h, w)
    ensures w in words && !HeaderWord(h.free, w)
  {
    hide HeaderWord, WellFormed, LiveWhole, Bytes;
    var p :| p in h.live && w in Range(p, h.live[p]);
    HeaderNotLive(h, heap, p, w);
    LiveRemove(h.live, p);
  }

  /** A whole run of requests, aligned ones included, and of stores in between. The addresses
      are those of the requests alone. At every point of the run, `ms` records the memory: the
      words of all blocks that were live then and were not given back hold in the end what
      their users stored last, and what they held then if nothing was stored. */
  method ServeAll(a: Allocator, xs: seq<Action>, ghost h: Heap, ghost heap: set<int>)
    returns (ps: seq<int>, ghost ms: seq<map<int, int>>)
    requires Serves(a, h, heap) && AllowedRun(h, xs)
    modifies a
    ensures Serves(a, HeapAt(h, xs, |xs|), heap)
    ensures LegalRun(h, Requests(xs)) && ps == Addresses(h, Requests(xs))
    ensures |ms| == |xs| + 1 && ms[0] == old(a.mem) && ms[|xs|] == a.mem
    ensures forall i :: 0 <= i <= |xs| ==> Kept(ms[i], a.mem, HeapAt(h, xs, i).live, xs[i..])
    ensures a.mem.Keys == old(a.mem).Keys
    decreases xs
  {
    hide Inv, FreeList.Malloc, FreeList.Free, FreeList.MallocAlign, Safe, Kept, Step, Legal, Owned, Backed;
    StoresIgnored(h, xs);
    if xs == [] {
      KeptNone(a.mem, h.live);
      return [], [a.mem];
    }
    ghost var start := a.mem;
    ghost var g := After(h, xs[0]);
    var p := 0;
    if xs[0].Ask? {
      p := Serve(a, xs[0].r, h, heap);
    } else {
      StoreWord(a, xs[0].w, xs[0].v, h, heap);
    }
    ghost var mid := a.mem;
    StoresIgnored(g, xs[1..]);
    ps, ms := ServeAll(a, xs[1..], g, heap);
    KeptTwice(start, mid, a.mem, h, heap, xs);
    AddressesHead(h, xs);
    if xs[0].Ask? {
      ps := [p] + ps;
    }
    ms := [start] + ms;
    LaterKept(h, xs, ms, a.mem);
  }

  lemma KeptNone(m: map<int, int>, live: map<int, int>)
    ensures Kept(m, m, live, [])
  {
  }

  lemma AddressesHead(h: Heap, xs: seq<Action>)
    requires AllowedRun(h, xs) && xs != []
    requires LegalRun(h, Requests(xs)) && LegalRun(After(h, xs[0]), Requests(xs[1..]))
    ensures Addresses(h, Requests(xs)) ==
            (if xs[0].Ask? then [Step(h, xs[0].r).1] else []) + Addresses(After(h, xs[0]), Requests(xs[1..]))
  {
    hide Step, Legal;
    var rest := Requests(xs[1..]);
    if xs[0].Ask? {
      assert Requests(xs) == [xs[0].r] + rest && Requests(xs)[0] == xs[0].r && Requests(xs)[1..] == rest;
    } else {
      assert Requests(xs) == rest;
      assert [] + Addresses(h, rest) == Addresses(h, rest);
    }
  }

  // What is kept after the first action, one position further.
  lemma LaterKept(h: Heap, xs: seq<Action>, ms: seq<map<int, int>>, last: map<int, int>)
    requires AllowedRun(h, xs) && xs != [] && |ms| == |xs| + 1
    requires Kept(ms[0], last, h.live, xs)
    requires forall i :: 0 <= i <= |xs| - 1 ==> Kept(ms[1..][i], last, HeapAt(After(h, xs[0]), xs[1..], i).live, xs[1..][i..])
    ensures forall i :: 0 <= i <= |xs| ==> Kept(ms[i], last, HeapAt(h, xs, i).live, xs[i..])
  {
    hide Kept, Step, Legal;
    forall i | 0 <= i <= |xs| ensures Kept(ms[i], last, HeapAt(h, xs, i).live, xs[i..]) {
      if i == 0 {
        assert xs[0..] == xs;
      } else {
        assert xs[1..][i - 1..] == xs[i..] && ms[1..][i - 1] == ms[i];
      }
    }
  }

  // A granted block was not live before.
  lemma GrantedFresh(h: Heap, heap: set<int>, r: Request)
    requires Inv(h, heap) && Legal(h, r)
    ensures !r.Release? && Step(h, r).1 != 0 ==> Step(h, r).1 !in h.live
  {
    hide FreeList.Malloc, FreeList.Free, FreeList.MallocAlign, Safe;
    LiveOwn(h.live);
    match r
    case Alloc(size) => FreshAddress(h, heap, size);
    case AllocAligned(size, align) =>
      var m := FreeList.MallocAlign(h.free, size, align);
      if m.ptr != 0 {
        AlignCorrect(h.free, size, align);
        assert m.ptr in Range(m.ptr, Round(size));
      }
    case Release(_, _) =>
  }

  // A block that is not given back stays live with its size.
  lemma StaysLive(h: Heap, heap: set<int>, x: Action, p: int)
    requires Inv(h, heap) && Allowed(h, x) && p in h.live && !Releasing([x], p)
    ensures var live := After(h, x).live; p in live && live[p] == h.live[p]
  {
    hide FreeList.Malloc, FreeList.Free, FreeList.MallocAlign, Safe, Inv;
    if x.Ask? {
      GrantedFresh(h, heap, x.r);
      assert x in [x];
    }
  }

  lemma KeptTwice(m0: map<int, int>, m1: map<int, int>, m2: map<int, int>, h: Heap, heap: set<int>, xs: seq<Action>)
    requires Inv(h, heap) && xs != [] && Allowed(h, xs[0]) && m0.Keys == m1.Keys == m2.Keys
    requires Kept(m0, m1, h.live, [xs[0]]) && Kept(m1, m2, After(h, xs[0]).live, xs[1..])
    ensures Kept(m0, m2, h.live, xs)
  {
    hide Inv, Allowed, After, LastStored, Releasing;
    var live := After(h, xs[0]).live;
    forall p, w | p in h.live && !Releasing(xs, p) && w in Range(p, h.live[p]) && w in m0 && w in m2
      ensures m2[w] == LastStored(xs, w, m0[w])
    {
      NotReleasing(xs, p);
      StaysLive(h, heap, xs[0], p);
      LastSplit(xs, w, m0[w]);
    }
  }

  lemma NotReleasing(xs: seq<Action>, p: int)
    requires xs != [] && !Releasing(xs, p)
    ensures !Releasing([xs[0]], p) && !Releasing(xs[1..], p)
  {
    assert xs[0] in xs;
  }

  lemma LastSplit(xs: seq<Action>, w: int, v: int)
    requires xs != []
    ensures LastStored(xs, w, v) == LastStored(xs[1..], w, LastStored([xs[0]], w, v))
  {
    assert [xs[0]][1..] == [];
  }
}
