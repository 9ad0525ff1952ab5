/**
 The memory image of scripts/stim_utils.py: a dictionary from the decimal address of a
 word to its value, packed from loadable segments and dumped byte by byte. Words are 8
 bytes wide for the text image and 1 byte wide for the binary one.
 */
module StimImage {
  import opened Decimal
  import opened ByteWords
  import opened StimPieces
  import opened StimKeys

  type Mem = map<string, nat>

  function ByteAt(mem: Mem, width: nat, a: nat): (b: int)
    requires width > 0
    ensures IsByte(b)
  {
    var key := Str(a - a % width);
    Byte(if key in mem then mem[key] else 0, a % width)
  }

  // Bytes written to the word of `base`.
  function Chunk(base: nat, size: nat, width: nat): (n: nat)
    requires GoodWidth(width)
    ensures size > 0 ==> 0 < n <= size && base % width + n <= width
  {
    var room := width - base % width;
    if room > size then size else room
  }

  // The new value of a word.
  function NewWord(v: nat, shift: nat, width: nat, data: seq<int>): nat
    requires AllBytes(data)
  {
    Or(AndNot(v, ShiftBytes(Ones(width), shift)), ShiftBytes(FromBytes(data), shift))
  }

  lemma WordBytes(v: nat, shift: nat, width: nat, data: seq<int>, k: nat)
    requires GoodWidth(width) && AllBytes(data)
    ensures IsByte(Byte(v, k))
    ensures Byte(NewWord(v, shift, width, data), k) ==
            Or(if k != shift then Byte(v, k) else if width == 8 then 0 else Byte(v, k) - Byte(v, k) % 2,
               if shift <= k < shift + |data| then data[k - shift] else 0)
  {
    hide Byte, Or, AndNot, ShiftBytes, FromBytes, Ones;
    var mask, bits := ShiftBytes(Ones(width), shift), ShiftBytes(FromBytes(data), shift);
    OrByte(AndNot(v, mask), bits, k);
    AndNotByte(v, mask, k);
    ShiftByte(Ones(width), shift, k);
    ShiftByte(FromBytes(data), shift, k);
    if k >= shift {
      ByteMask(k - shift);
      FromBytesByte(data, k - shift);
    }
    ClearByte(Byte(v, k));
  }

  /** Storing a chunk in its word merges its bytes and leaves every other byte alone. */
  lemma Stored(mem: Mem, base: nat, width: nat, data: seq<int>, a: nat)
    requires GoodWidth(width) && AllBytes(data) && 0 < |data| && base % width + |data| <= width
    ensures var key := Str(base - base % width);
      var v := if key in mem then mem[key] else 0;
      var after := mem[key := NewWord(v, base % width, width, data)];
      ByteAt(after, width, a) ==
        if base <= a < base + |data| then Merge(ByteAt(mem, width, a), data[a - base], a, base, width)
        else ByteAt(mem, width, a)
  {
    hide Byte, Or, Str, NewWord;
    var key := Str(base - base % width);
    var v := if key in mem then mem[key] else 0;
    var k := a % width;
    IntOfStr(base - base % width);
    IntOfStr(a - a % width);
    SameWord(base, a, width, |data|);
    WordBytes(v, base % width, width, data, k);
    OrZero(Byte(v, k));
  }

  // Positions in the word of `base`, and in others.
  lemma SameWord(base: nat, a: nat, width: nat, n: nat)
    requires GoodWidth(width) && 0 < n && base % width + n <= width
    ensures a - a % width == base - base % width ==>
      && a - base == a % width - base % width
      && (base <= a < base + n <==> base % width <= a % width < base % width + n)
      && (a != base && base <= a ==> a % width != 0)
    ensures a - a % width != base - base % width ==> !(base <= a < base + n)
    ensures width == 1 ==> a % width == 0
  {
  }

  // ---------------------------------------------------------------- segments

  // Addresses of the words the pieces touch.
  function KeysOf(base: nat, size: nat, width: nat): set<string>
    requires width > 0
  {
    set a: nat | base <= a < base + size :: Str(a - a % width)
  }

  function Touched(ps: seq<Piece>, width: nat): set<string>
    requires width > 0
  {
    if ps == [] then {}
    else Touched(ps[..|ps| - 1], width) + KeysOf(ps[|ps| - 1].base, |ps[|ps| - 1].data|, width)
  }

  lemma WordsSplit(base: nat, m: nat, n: nat, width: nat)
    requires width > 0
    ensures KeysOf(base, m + n, width) == KeysOf(base, m, width) + KeysOf(base + m, n, width)
  {
  }

  lemma WordsOne(base: nat, n: nat, width: nat)
    requires GoodWidth(width) && 0 < n && base % width + n <= width
    ensures KeysOf(base, n, width) == {Str(base - base % width)}
  {
    hide Str;
    forall a: nat | base <= a < base + n ensures a - a % width == base - base % width {
      SameWord(base, a, width, n);
    }
    assert Str(base - base % width) in KeysOf(base, n, width);
  }

  // ---------------------------------------------------------------- sections

  // A loadable segment: its bytes in the file and its size in memory.
  datatype Segment = Segment(addr: nat, data: seq<int>, memsz: nat)

  datatype Area = Area(start: int, end: int)

  predicate GoodSegments(segs: seq<Segment>) {
    forall i :: 0 <= i < |segs| ==> AllBytes(segs[i].data)
  }

  predicate Inside(s: Segment, a: Area) {
    a.start <= s.addr && s.addr + |s.data| <= a.end
  }

  // With no areas everything is loaded.
  predicate Loaded(s: Segment, areas: seq<Area>) {
    areas == [] || exists i :: 0 <= i < |areas| && Inside(s, areas[i])
  }

  function Zeros(n: nat): (z: seq<int>)
    ensures |z| == n && AllBytes(z)
  {
    seq(n, i => 0)
  }

  // The bytes from the file, and zeros up to the size in memory.
  function PiecesOf(s: Segment): (ps: seq<Piece>)
    requires AllBytes(s.data)
    ensures GoodPieces(ps)
  {
    [Piece(s.addr, s.data)]
    + if |s.data| < s.memsz then [Piece(s.addr + |s.data|, Zeros(s.memsz - |s.data|))] else []
  }

  function LoadedPieces(segs: seq<Segment>, areas: seq<Area>): (ps: seq<Piece>)
    requires GoodSegments(segs)
    ensures GoodPieces(ps)
  {
    if segs == [] then []
    else
      var last := segs[|segs| - 1];
      LoadedPieces(segs[..|segs| - 1], areas) + if Loaded(last, areas) then PiecesOf(last) else []
  }

  // The byte at `a` once `data` was stored from `base` on.
  function MergedByte(mem: Mem, base: nat, data: seq<int>, width: nat, a: nat): nat
    requires GoodWidth(width) && AllBytes(data)
  {
    if base <= a < base + |data| then Merge(ByteAt(mem, width, a), data[a - base], a, base, width)
    else ByteAt(mem, width, a)
  }

  ghost predicate Merged(before: Mem, after: Mem, base: nat, data: seq<int>, width: nat)
    requires GoodWidth(width) && AllBytes(data)
  {
    forall a: nat :: ByteAt(after, width, a) == MergedByte(before, base, data, width, a)
  }

  // No word is wider than `width` bytes.
  ghost predicate Narrow(mem: Mem, width: nat) {
    forall key, k: nat :: key in mem && width <= k ==> Byte(mem[key], k) == 0
  }

  lemma MergedStep(first: Mem, before: Mem, after: Mem, base: nat, data: seq<int>, n: nat, m: nat, width: nat)
    requires GoodWidth(width) && AllBytes(data) && n + m <= |data| && (n == 0 || (base + n) % width == 0)
    requires Merged(first, before, base, data[..n], width)
    requires Merged(before, after, base + n, data[n..n + m], width)
    ensures Merged(first, after, base, data[..n + m], width)
  {
    hide ByteAt, Or;
    forall a: nat ensures ByteAt(after, width, a) == MergedByte(first, base, data[..n + m], width, a) {
      assert ByteAt(before, width, a) == MergedByte(first, base, data[..n], width, a);
      assert ByteAt(after, width, a) == MergedByte(before, base + n, data[n..n + m], width, a);
    }
  }

  lemma NarrowStep(mem: Mem, base: nat, width: nat, data: seq<int>)
    requires GoodWidth(width) && AllBytes(data) && 0 < |data| && base % width + |data| <= width && Narrow(mem, width)
    ensures var key := Str(base - base % width);
      Narrow(mem[key := NewWord(if key in mem then mem[key] else 0, base % width, width, data)], width)
  {
    hide Str, Byte, Or, NewWord;
    var key := Str(base - base % width);
    var v := if key in mem then mem[key] else 0;
    forall k: nat | width <= k ensures Byte(NewWord(v, base % width, width, data), k) == 0 {
      WordBytes(v, base % width, width, data, k);
      ZeroByte(k);
      OrZero(0);
    }
  }

  lemma {:induction false} NarrowByte(v: nat)
    requires forall k: nat :: 1 <= k ==> Byte(v, k) == 0
    ensures v < 256
  {
    if v >= 256 {
      assert Byte(v, 1) == v / 256 % 256;
      forall k: nat | 1 <= k ensures Byte(v / 256, k) == 0 {
        assert Byte(v, k + 1) == 0;
      }
      NarrowByte(v / 256);
      assert false;
    }
  }

  // The dictionary is the image of these pieces.
  ghost predicate Holds(mem: Mem, ps: seq<Piece>, width: nat)
    requires GoodPieces(ps) && GoodWidth(width)
  {
    mem.Keys == Touched(ps, width) && forall a: nat :: ByteAt(mem, width, a) == Packed(ps, width, a)
  }

  lemma EmptyHolds(width: nat)
    requires GoodWidth(width)
    ensures Holds(map[], [], width) && Numerals({}) && Narrow(map[], width)
  {
    forall a: nat ensures ByteAt(map[], width, a) == 0 {
      ZeroByte(a % width);
    }
  }

  lemma HoldsMore(before: Mem, after: Mem, ps: seq<Piece>, p: Piece, width: nat)
    requires GoodPieces(ps) && AllBytes(p.data) && GoodWidth(width) && Holds(before, ps, width)
    requires Merged(before, after, p.base, p.data, width)
    requires after.Keys == before.Keys + KeysOf(p.base, |p.data|, width)
    ensures Holds(after, ps + [p], width)
  {
    hide ByteAt, KeysOf, Merge;
    assert (ps + [p])[..|ps|] == ps;
    forall a: nat ensures ByteAt(after, width, a) == Packed(ps + [p], width, a) {
      assert ByteAt(after, width, a) == MergedByte(before, p.base, p.data, width, a);
      assert ByteAt(before, width, a) == Packed(ps, width, a);
    }
  }

  // ---------------------------------------------------------------- dump

  // Every byte from the lowest to the highest address.
  function Flat(mem: Mem, first: nat, n: nat): seq<int> {
    seq(n, i requires 0 <= i < n => ByteAt(mem, 1, first + i))
  }

  // ---------------------------------------------------------------- in terms of segments

  // The address lies in the bytes from the file, and in what must be zero behind them.
  predicate InFile(s: Segment, a: nat) {
    s.addr <= a < s.addr + |s.data|
  }

  predicate InZeros(s: Segment, a: nat) {
    s.addr + |s.data| <= a < s.addr + s.memsz
  }

  predicate InMemory(s: Segment, a: nat) {
    InFile(s, a) || InZeros(s, a)
  }

  // No address lies in the memory of two loaded segments.
  ghost predicate SegmentsApart(segs: seq<Segment>, areas: seq<Area>) {
    forall i, j, a: nat ::
      0 <= i < j < |segs| && Loaded(segs[i], areas) && Loaded(segs[j], areas) && InMemory(segs[i], a) ==>
        !InMemory(segs[j], a)
  }

  // `b` is the byte at `a` that the segments ask for: the one from the file, 0 behind the file
  // up to the size in memory, and 0 where no loaded segment reaches.
  ghost predicate AskedAt(segs: seq<Segment>, areas: seq<Area>, a: nat, b: int) {
    && (forall i :: 0 <= i < |segs| && Loaded(segs[i], areas) && InFile(segs[i], a) ==> b == segs[i].data[a - segs[i].addr])
    && (forall i :: 0 <= i < |segs| && Loaded(segs[i], areas) && InZeros(segs[i], a) ==> b == 0)
    && ((forall i :: 0 <= i < |segs| && Loaded(segs[i], areas) ==> !InMemory(segs[i], a)) ==> b == 0)
  }

  // Some loaded segment reaches the address.
  ghost predicate Reached(segs: seq<Segment>, areas: seq<Area>, a: nat) {
    exists i :: 0 <= i < |segs| && Loaded(segs[i], areas) && InMemory(segs[i], a)
  }

  lemma PiecesCover(s: Segment, a: nat)
    requires AllBytes(s.data)
    ensures Covered(PiecesOf(s), a) <==> InMemory(s, a)
  {
    var ps := PiecesOf(s);
    assert ps[0] == Piece(s.addr, s.data);
    if |s.data| < s.memsz {
      assert ps[1] == Piece(s.addr + |s.data|, Zeros(s.memsz - |s.data|));
    }
  }

  lemma CoveredBoth(ps: seq<Piece>, qs: seq<Piece>, a: nat)
    ensures Covered(ps + qs, a) <==> Covered(ps, a) || Covered(qs, a)
  {
    if i :| 0 <= i < |ps| && ps[i].Covers(a) {
      assert (ps + qs)[i] == ps[i];
    }
    if i :| 0 <= i < |qs| && qs[i].Covers(a) {
      assert (ps + qs)[|ps| + i] == qs[i];
    }
    if i :| 0 <= i < |ps + qs| && (ps + qs)[i].Covers(a) {
      assert if i < |ps| then ps[i].Covers(a) else qs[i - |ps|].Covers(a);
    }
  }

  /** The pieces cover just the memory of the loaded segments. */
  lemma {:induction false} LoadedCover(segs: seq<Segment>, areas: seq<Area>, a: nat)
    requires GoodSegments(segs)
    ensures Covered(LoadedPieces(segs, areas), a) <==> Reached(segs, areas, a)
  {
    hide Loaded, PiecesOf, Covered;
    if segs == [] {
      NothingCovered(a);
    } else {
      var front, last := segs[..|segs| - 1], segs[|segs| - 1];
      LoadedCover(front, areas, a);
      PiecesCover(last, a);
      NothingCovered(a);
      CoveredBoth(LoadedPieces(front, areas), if Loaded(last, areas) then PiecesOf(last) else [], a);
      ReachedFront(segs, areas, a);
    }
  }

  lemma NothingCovered(a: nat)
    ensures !Covered([], a)
  {
  }

  lemma ReachedFront(segs: seq<Segment>, areas: seq<Area>, a: nat)
    requires segs != []
    ensures var front, last := segs[..|segs| - 1], segs[|segs| - 1];
      Reached(segs, areas, a) <==> Reached(front, areas, a) || (Loaded(last, areas) && InMemory(last, a))
  {
    hide Loaded;
    var front := segs[..|segs| - 1];
    assert forall i :: 0 <= i < |front| ==> front[i] == segs[i];
  }

  // What the last of these pieces stores at an address, when no other segment reaches it, is
  // what the segment asks for.
  lemma {:induction false} SegmentsPacked(segs: seq<Segment>, areas: seq<Area>, width: nat, a: nat)
    requires GoodSegments(segs) && GoodWidth(width) && SegmentsApart(segs, areas)
    ensures AskedAt(segs, areas, a, Packed(LoadedPieces(segs, areas), width, a))
  {
    hide Loaded, PiecesOf, Packed, Covered, AskedAt, SegmentsApart, InFile, InZeros;
    if segs == [] {
      PackedNothing(width, a);
      AskedNothing(areas, a);
    } else {
      var front, last := segs[..|segs| - 1], segs[|segs| - 1];
      var ps := LoadedPieces(front, areas);
      ApartFront(segs, areas, a);
      SegmentsPacked(front, areas, width, a);
      LoadedCover(front, areas, a);
      if Loaded(last, areas) && InMemory(last, a) {
        PackedUncovered(ps, width, a);
        PackedSegment(ps, last, width, a);
        AskedLast(segs, areas, a);
      } else {
        PackedOutside(ps, last, areas, width, a);
        AskedFront(segs, areas, a, Packed(ps, width, a));
      }
    }
  }

  lemma AskedNothing(areas: seq<Area>, a: nat)
    ensures AskedAt([], areas, a, 0)
  {
  }

  lemma ApartFront(segs: seq<Segment>, areas: seq<Area>, a: nat)
    requires segs != [] && SegmentsApart(segs, areas)
    ensures var front, last := segs[..|segs| - 1], segs[|segs| - 1];
      SegmentsApart(front, areas) && (Loaded(last, areas) && InMemory(last, a) ==> !Reached(front, areas, a))
  {
    hide Loaded;
    assert forall i :: 0 <= i < |segs| - 1 ==> segs[..|segs| - 1][i] == segs[i];
  }

  // The last segment alone reaches the address.
  lemma AskedLast(segs: seq<Segment>, areas: seq<Area>, a: nat)
    requires segs != [] && !Reached(segs[..|segs| - 1], areas, a)
    requires var last := segs[|segs| - 1]; Loaded(last, areas) && InMemory(last, a)
    ensures var last := segs[|segs| - 1]; AskedAt(segs, areas, a, if InFile(last, a) then last.data[a - last.addr] else 0)
  {
    hide Loaded;
    var front := segs[..|segs| - 1];
    assert forall i :: 0 <= i < |front| ==> front[i] == segs[i];
  }

  // The last segment does not reach the address.
  lemma AskedFront(segs: seq<Segment>, areas: seq<Area>, a: nat, b: int)
    requires segs != [] && AskedAt(segs[..|segs| - 1], areas, a, b)
    requires var last := segs[|segs| - 1]; !(Loaded(last, areas) && InMemory(last, a))
    ensures AskedAt(segs, areas, a, b)
  {
    hide Loaded;
    var front := segs[..|segs| - 1];
    assert forall i :: 0 <= i < |front| ==> front[i] == segs[i];
  }

  lemma PackedNothing(width: nat, a: nat)
    requires GoodWidth(width)
    ensures Packed([], width, a) == 0
  {
  }

  lemma {:induction false} PackedUncovered(ps: seq<Piece>, width: nat, a: nat)
    requires GoodPieces(ps) && GoodWidth(width) && !Covered(ps, a)
    ensures Packed(ps, width, a) == 0
  {
    if ps != [] {
      var front := ps[..|ps| - 1];
      assert forall i :: 0 <= i < |front| ==> front[i] == ps[i];
      PackedUncovered(front, width, a);
    }
  }

  // The pieces of one segment over an address that holds 0.
  lemma PackedSegment(ps: seq<Piece>, s: Segment, width: nat, a: nat)
    requires GoodPieces(ps) && GoodWidth(width) && AllBytes(s.data) && Packed(ps, width, a) == 0
    requires InMemory(s, a)
    ensures Packed(ps + PiecesOf(s), width, a) == if InFile(s, a) then s.data[a - s.addr] else 0
  {
    hide Packed;
    var p := Piece(s.addr, s.data);
    PackedMore(ps, p, width, a);
    OrZero(if InFile(s, a) then s.data[a - s.addr] else 0);
    if |s.data| < s.memsz {
      var q := Piece(s.addr + |s.data|, Zeros(s.memsz - |s.data|));
      PackedMore(ps + [p], q, width, a);
      assert ps + PiecesOf(s) == ps + [p] + [q];
    } else {
      assert ps + PiecesOf(s) == ps + [p];
    }
  }

  lemma PackedMore(ps: seq<Piece>, p: Piece, width: nat, a: nat)
    requires GoodPieces(ps) && AllBytes(p.data) && GoodWidth(width)
    ensures Packed(ps + [p], width, a) ==
      if p.Covers(a) then Merge(Packed(ps, width, a), p.data[a - p.base], a, p.base, width) else Packed(ps, width, a)
  {
    assert (ps + [p])[..|ps|] == ps;
  }

  lemma PackedOutside(ps: seq<Piece>, s: Segment, areas: seq<Area>, width: nat, a: nat)
    requires GoodPieces(ps) && GoodWidth(width) && AllBytes(s.data)
    requires Loaded(s, areas) ==> !InMemory(s, a)
    ensures Packed(ps + (if Loaded(s, areas) then PiecesOf(s) else []), width, a) == Packed(ps, width, a)
  {
    hide Packed, Loaded;
    if Loaded(s, areas) {
      var p := Piece(s.addr, s.data);
      PackedMore(ps, p, width, a);
      if |s.data| < s.memsz {
        var q := Piece(s.addr + |s.data|, Zeros(s.memsz - |s.data|));
        PackedMore(ps + [p], q, width, a);
        assert ps + PiecesOf(s) == ps + [p] + [q];
      } else {
        assert ps + PiecesOf(s) == ps + [p];
      }
    } else {
      assert ps + [] == ps;
    }
  }

  /** The image shows the segments: when no two loaded ones share an address, every byte is the
      one asked for. */
  lemma HoldsSegments(mem: Mem, segs: seq<Segment>, areas: seq<Area>, width: nat)
    requires GoodSegments(segs) && GoodWidth(width) && SegmentsApart(segs, areas)
    requires Holds(mem, LoadedPieces(segs, areas), width)
    ensures forall a: nat :: AskedAt(segs, areas, a, ByteAt(mem, width, a))
  {
    hide ByteAt, Packed, AskedAt, SegmentsApart;
    forall a: nat ensures AskedAt(segs, areas, a, ByteAt(mem, width, a)) {
      SegmentsPacked(segs, areas, width, a);
    }
  }

  /** And so does the file: it runs from the lowest to the highest address that a loaded segment
      reaches. */
  lemma WrittenSegments(segs: seq<Segment>, areas: seq<Area>, out: seq<int>, first: nat)
    requires GoodSegments(segs) && WrittenFrom(LoadedPieces(segs, areas), out, first)
    ensures forall a: nat :: Reached(segs, areas, a) ==> first <= a < first + |out|
    ensures out != [] ==> Reached(segs, areas, first) && Reached(segs, areas, first + |out| - 1)
    ensures SegmentsApart(segs, areas) ==> forall j :: 0 <= j < |out| ==> AskedAt(segs, areas, first + j, out[j])
  {
    hide Packed, AskedAt, SegmentsApart, Covered, Reached;
    forall a: nat ensures Covered(LoadedPieces(segs, areas), a) <==> Reached(segs, areas, a) {
      LoadedCover(segs, areas, a);
    }
    if SegmentsApart(segs, areas) {
      forall j | 0 <= j < |out| ensures AskedAt(segs, areas, first + j, out[j]) {
        SegmentsPacked(segs, areas, 1, first + j);
      }
    }
  }

  class Stim {
    var mem: Mem
    var areas: seq<Area>

    constructor ()
      ensures mem == map[] && areas == []
    {
      mem, areas := map[], [];
    }

    ghost predicate Valid(width: nat)
      reads this
    {
      Numerals(mem.Keys) && Narrow(mem, width)
    }

    method AddArea(start: int, size: int)
      modifies this`areas
      ensures areas == old(areas) + [Area(start, start + size)]
    {
      areas := areas + [Area(start, start + size)];
    }

    /** `__add_mem_word`: stores what fits into the word of `base`. */
    method AddMemWord(base: nat, size: nat, data: seq<int>, width: nat) returns (iterSize: nat)
      requires GoodWidth(width) && 0 < size <= |data| && AllBytes(data) && Valid(width)
      modifies this`mem
      ensures Valid(width) && iterSize == Chunk(base, size, width)
      ensures mem.Keys == old(mem).Keys + KeysOf(base, iterSize, width)
      ensures Merged(old(mem), mem, base, data[..iterSize], width)
    {
      hide Str, Byte, Or, AndNot, FromBytes, ShiftBytes, Ones, Merge, ByteAt;
      var alignedBase := base - base % width;
      var shift := base - alignedBase;
      iterSize := width - shift;
      if iterSize > size {
        iterSize := size;
      }
      var value := if Str(alignedBase) in mem then mem[Str(alignedBase)] else 0;
      value := AndNot(value, ShiftBytes(Ones(width), shift));
      value := Or(value, ShiftBytes(FromBytes(data[..iterSize]), shift));
      forall a: nat
        ensures ByteAt(mem[Str(alignedBase) := value], width, a) == MergedByte(mem, base, data[..iterSize], width, a)
      {
        Stored(mem, base, width, data[..iterSize], a);
      }
      NarrowStep(mem, base, width, data[..iterSize]);
      WordsOne(base, iterSize, width);
      mem := mem[Str(alignedBase) := value];
    }

    /** `__add_mem`: stores all of the data, word by word. */
    method AddMem(base: nat, data: seq<int>, width: nat)
      requires GoodWidth(width) && AllBytes(data) && Valid(width)
      modifies this`mem
      ensures Valid(width)
      ensures mem.Keys == old(mem).Keys + KeysOf(base, |data|, width)
      ensures Merged(old(mem), mem, base, data, width)
    {
      hide Str, Byte, ByteAt, Merged, Narrow, Numerals, KeysOf;
      var size, at, rest := |data|, base, data;
      ghost var n := 0;
      MergedNothing(mem, base, data, width);
      assert data[..0] == [] && data[..|data|] == data;
      while size > 0
        invariant 0 <= n <= |data| && n == at - base == |data| - size && rest == data[n..]
        invariant size > 0 ==> n == 0 || at % width == 0
        invariant Valid(width) && Merged(old(mem), mem, base, data[..n], width)
        invariant mem.Keys == old(mem).Keys + KeysOf(base, n, width)
        decreases size
      {
        ghost var before := mem;
        var iterSize := AddMemWord(at, size, rest, width);
        assert rest[..iterSize] == data[n..n + iterSize];
        MergedStep(old(mem), before, mem, base, data, n, iterSize, width);
        WordsSplit(base, n, iterSize, width);
        size := size - iterSize;
        at := at + iterSize;
        rest := rest[iterSize..];
        n := n + iterSize;
      }
    }

    // The loop that looks for an area around the segment.
    method IsLoaded(s: Segment) returns (load: bool)
      ensures load == Loaded(s, areas)
    {
      load := true;
      if |areas| != 0 {
        load := false;
        for i := 0 to |areas|
          invariant !load && forall j :: 0 <= j < i ==> !Inside(s, areas[j])
        {
          if s.addr >= areas[i].start && s.addr + |s.data| <= areas[i].end {
            load := true;
            break;
          }
        }
      }
    }

    /** `__parse_binaries` behind the ELF reader: the image of the loaded pieces. */
    method ParseBinaries(segs: seq<Segment>, width: nat)
      requires GoodWidth(width) && GoodSegments(segs)
      modifies this`mem
      ensures Valid(width) && Holds(mem, LoadedPieces(segs, areas), width)
      ensures SegmentsApart(segs, areas) ==> forall a: nat :: AskedAt(segs, areas, a, ByteAt(mem, width, a))
    {
      hide Holds, Narrow, Numerals, Merged, KeysOf, SegmentsApart, AskedAt, ByteAt;
      mem := map[];
      EmptyHolds(width);
      assert mem.Keys == {};
      assert segs[..|segs|] == segs;
      for i := 0 to |segs|
        invariant Valid(width) && Holds(mem, LoadedPieces(segs[..i], areas), width)
      {
        assert segs[..i + 1][..i] == segs[..i];
        ghost var ps := LoadedPieces(segs[..i], areas);
        var s := segs[i];
        var load := IsLoaded(s);
        if load {
          ghost var before := mem;
          AddMem(s.addr, s.data, width);
          HoldsMore(before, mem, ps, Piece(s.addr, s.data), width);
          assert |s.data| >= s.memsz ==> ps + PiecesOf(s) == ps + [Piece(s.addr, s.data)];
          if |s.data| < s.memsz {
            before := mem;
            var zeros := Zeros(s.memsz - |s.data|);
            AddMem(s.addr + |s.data|, zeros, width);
            HoldsMore(before, mem, ps + [Piece(s.addr, s.data)], Piece(s.addr + |s.data|, zeros), width);
            assert ps + PiecesOf(s) == ps + [Piece(s.addr, s.data)] + [Piece(s.addr + |s.data|, zeros)];
          }
        }
        assert LoadedPieces(segs[..i + 1], areas) == if load then ps + PiecesOf(s) else ps;
      }
      if SegmentsApart(segs, areas) {
        HoldsSegments(mem, segs, areas, width);
      }
    }

    /** The dump of `gen_stim_bin`, with the sorted keys given. The gap loop may fill at most
        `budget` bytes: when the keys ascend as numbers a budget exists with which the dump
        finishes, and it wrote every byte from the lowest to the highest address; otherwise
        it finishes with none, the loop never ends. */
    method Dump(keys: seq<string>, budget: nat) returns (finished: bool, out: seq<int>)
      requires Valid(1) && IsSorted(keys, mem.Keys)
      ensures finished <==> Ascending(Addresses(keys)) && Gaps(Addresses(keys)) <= budget
      ensures finished && keys != [] ==>
        var first, last := Int(keys[0]), Int(keys[|keys| - 1]);
        0 <= first <= last && out == Flat(mem, first, last + 1 - first)
      ensures finished && keys == [] ==> out == []
    {
      hide Str, Int, Less, Byte, ByteAt, Narrow, Numerals, Flat, IsSorted, Ascending;
      var i, left, prevAddr := 0, budget, 0;
      out := [];
      ghost var s := Addresses(keys);
      assert s[..|s|] == s;
      NothingAscends();
      while i < |keys|
        invariant 0 <= i <= |keys| && Ascending(s[..i]) && left == budget - Gaps(s[..i]) && 0 <= left
        invariant i > 0 ==> prevAddr == s[i - 1] && s[0] >= 0
        invariant i > 0 && Ascending(s) ==> s[0] <= prevAddr && out == Flat(mem, s[0], prevAddr + 1 - s[0])
        invariant i == 0 ==> out == []
      {
        KeyAddress(mem, keys, i);
        var addr := Int(keys[i]);
        ghost var start := left;
        if i > 0 {
          AscendingNext(s, i);
          while prevAddr != addr - 1
            invariant prevAddr == s[i - 1] + (start - left) && 0 <= left <= start
            invariant s[i - 1] < addr ==> prevAddr < addr
            invariant Ascending(s) ==> s[0] <= prevAddr && out == Flat(mem, s[0], prevAddr + 1 - s[0])
            decreases left
          {
            if left == 0 {
              Unfinished(s, i, prevAddr, budget);
              return false, out;
            }
            if Ascending(s) {
              NoKeyBetween(mem, keys, i, prevAddr + 1);
              FlatMore(mem, s[0], prevAddr + 1 - s[0]);
            }
            out := out + [0];
            prevAddr := prevAddr + 1;
            left := left - 1;
          }
        }
        FlatMore(mem, if i == 0 then addr else s[0], if i == 0 || addr < s[0] then 0 else addr - s[0]);
        AscendingUpTo(s, i);
        prevAddr := addr;
        out := out + [mem[keys[i]]];
        i := i + 1;
      }
      finished := true;
    }

    /** `gen_stim_bin`, from the segments to the bytes of the file. The gap loop may fill at
        most `budget` bytes. It comes to an end with some budget if and only if the covered
        addresses are ordered like their numerals, and then the file holds the image from the
        lowest to the highest covered address. */
    method GenStimBin(segs: seq<Segment>, budget: nat) returns (finished: bool, out: seq<int>, ghost first: nat)
      requires GoodSegments(segs)
      modifies this`mem
      ensures var ps := LoadedPieces(segs, areas);
        && (finished ==> CoverAgrees(ps) && WrittenFrom(ps, out, first))
        && (CoverAgrees(ps) && SpanWithin(ps, budget) ==> finished)
      ensures finished ==>
        && (forall a: nat :: Reached(segs, areas, a) ==> first <= a < first + |out|)
        && (out != [] ==> Reached(segs, areas, first) && Reached(segs, areas, first + |out| - 1))
        && (SegmentsApart(segs, areas) ==> forall j :: 0 <= j < |out| ==> AskedAt(segs, areas, first + j, out[j]))
    {
      hide Holds, Narrow, Numerals, IsSorted, Str, Int, WrittenFrom, CoverAgrees, SpanWithin, SegmentsApart, AskedAt, Reached, ByteAt;
      ParseBinaries(segs, 1);
      ghost var ps := LoadedPieces(segs, areas);
      var keys := Sorted(mem.Keys);
      finished, out := Dump(keys, budget);
      CoverAscends(mem, ps, keys);
      if SpanWithin(ps, budget) {
        SpanGaps(mem, ps, keys, budget);
      }
      first := 0;
      if finished {
        if keys == [] {
          NothingWritten(mem, ps);
        } else {
          first := Int(keys[0]);
          DumpIsImage(mem, ps, keys, out);
        }
        WrittenSegments(segs, areas, out, first);
      }
    }
  }

  lemma KeyAddress(mem: Mem, keys: seq<string>, i: nat)
    requires IsSorted(keys, mem.Keys) && Numerals(mem.Keys) && Narrow(mem, 1) && i < |keys|
    ensures keys[i] in mem && Int(keys[i]) >= 0 && Str(Int(keys[i])) == keys[i]
    ensures ByteAt(mem, 1, Int(keys[i])) == mem[keys[i]]
  {
    hide Str, Int, Less;
    var n: nat :| keys[i] == Str(n);
    IntOfStr(n);
    NarrowByte(mem[keys[i]]);
  }

  // Between two neighbouring addresses there is no key, so the image is 0.
  lemma NoKeyBetween(mem: Mem, keys: seq<string>, i: nat, x: nat)
    requires IsSorted(keys, mem.Keys) && Ascending(Addresses(keys))
    requires 0 < i < |keys| && Int(keys[i - 1]) < x < Int(keys[i])
    ensures ByteAt(mem, 1, x) == 0
  {
    hide Str, Int, Less;
    IntOfStr(x);
    ZeroByte(0);
    if Str(x) in mem {
      KeyIndex(keys, mem.Keys, x);
    }
  }

  lemma FlatMore(mem: Mem, first: nat, n: nat)
    ensures Flat(mem, first, n + 1) == Flat(mem, first, n) + [ByteAt(mem, 1, first + n)]
    ensures Flat(mem, first, 0) == []
  {
  }

  lemma {:induction false} TouchedBytes(ps: seq<Piece>, a: nat)
    ensures Str(a) in Touched(ps, 1) <==> exists i :: 0 <= i < |ps| && ps[i].Covers(a)
  {
    hide Str;
    if ps != [] {
      var p := ps[|ps| - 1];
      TouchedBytes(ps[..|ps| - 1], a);
      WordsByte(p, a);
      if i :| 0 <= i < |ps| && ps[i].Covers(a) {
        if i < |ps| - 1 {
          assert ps[..|ps| - 1][i].Covers(a);
        }
      }
    }
  }

  lemma WordsByte(p: Piece, a: nat)
    ensures Str(a) in KeysOf(p.base, |p.data|, 1) <==> p.Covers(a)
  {
    hide Str;
    if Str(a) in KeysOf(p.base, |p.data|, 1) {
      var b: nat :| p.base <= b < p.base + |p.data| && Str(a) == Str(b - b % 1);
      assert b - b % 1 == b;
      IntOfStr(a);
      IntOfStr(b);
    }
    if p.Covers(a) {
      assert a - a % 1 == a;
    }
  }

  ghost predicate Covered(ps: seq<Piece>, a: nat) {
    exists i :: 0 <= i < |ps| && ps[i].Covers(a)
  }

  // The bytes run from the lowest to the highest covered address; each is that of the image.
  ghost predicate WrittenFrom(ps: seq<Piece>, out: seq<int>, first: nat)
    requires GoodPieces(ps)
  {
    && (out != [] ==> Covered(ps, first) && Covered(ps, first + |out| - 1))
    && (forall a: nat :: Covered(ps, a) ==> first <= a < first + |out|)
    && (forall j :: 0 <= j < |out| ==> out[j] == Packed(ps, 1, first + j))
  }

  lemma KeyCovered(mem: Mem, ps: seq<Piece>, keys: seq<string>, a: nat)
    requires GoodPieces(ps) && Holds(mem, ps, 1) && IsSorted(keys, mem.Keys)
    ensures Covered(ps, a) <==> Str(a) in keys
  {
    hide Str, Less, Touched, Packed, ByteAt;
    TouchedBytes(ps, a);
    assert Str(a) in keys <==> Str(a) in mem.Keys;
  }

  // The bytes of a finished dump, in terms of the pieces.
  lemma DumpIsImage(mem: Mem, ps: seq<Piece>, keys: seq<string>, out: seq<int>)
    requires GoodPieces(ps) && Holds(mem, ps, 1) && Numerals(mem.Keys) && Narrow(mem, 1)
    requires IsSorted(keys, mem.Keys) && Ascending(Addresses(keys)) && keys != []
    requires 0 <= Int(keys[0]) <= Int(keys[|keys| - 1])
    requires out == Flat(mem, Int(keys[0]), Int(keys[|keys| - 1]) + 1 - Int(keys[0]))
    ensures WrittenFrom(ps, out, Int(keys[0]))
  {
    hide Str, Int, Less, Touched, Packed, ByteAt, Covered, Narrow;
    var first, last := Int(keys[0]), Int(keys[|keys| - 1]);
    KeyAddress(mem, keys, 0);
    KeyAddress(mem, keys, |keys| - 1);
    KeyCovered(mem, ps, keys, first);
    KeyCovered(mem, ps, keys, last);
    forall a: nat | Covered(ps, a) ensures first <= a <= last {
      KeyCovered(mem, ps, keys, a);
      KeyIndex(keys, mem.Keys, a);
    }
    assert forall j :: 0 <= j < |out| ==> out[j] == ByteAt(mem, 1, first + j);
  }

  /** Written for disjoint pieces: at every covered address the byte of the piece, 0 in the
      gaps, nothing below the lowest or above the highest covered address. */
  lemma DumpIsOverlay(ps: seq<Piece>, out: seq<int>, first: nat)
    requires GoodPieces(ps) && Disjoint(ps) && WrittenFrom(ps, out, first)
    ensures forall i, a: nat :: 0 <= i < |ps| && ps[i].Covers(a) ==>
      first <= a < first + |out| && out[a - first] == ps[i].data[a - ps[i].base]
    ensures forall j :: 0 <= j < |out| && !Covered(ps, first + j) ==> out[j] == 0
    ensures out != [] ==> Covered(ps, first) && Covered(ps, first + |out| - 1)
  {
    hide Packed;
    forall i, a: nat | 0 <= i < |ps| && ps[i].Covers(a)
      ensures first <= a < first + |out| && out[a - first] == ps[i].data[a - ps[i].base]
    {
      assert Covered(ps, a);
      DisjointPacked(ps, 1, a);
    }
    forall j | 0 <= j < |out| && !Covered(ps, first + j) ensures out[j] == 0 {
      DisjointPacked(ps, 1, first + j);
    }
  }

  /** Whatever the pieces, the file shows the last byte stored at every address if and only if
      no byte of the image is mixed. */
  lemma DumpExactly(ps: seq<Piece>, out: seq<int>, first: nat)
    requires GoodPieces(ps) && WrittenFrom(ps, out, first)
    ensures (forall j :: 0 <= j < |out| ==> out[j] == Overlay(ps, first + j)) <==>
            (forall a: nat :: Unmixed(ps, 1, a))
  {
    hide Packed, Overlay, Unmixed;
    forall a: nat ensures Packed(ps, 1, a) == Overlay(ps, a) <==> Unmixed(ps, 1, a) {
      ByteExactly(ps, 1, a);
    }
    forall a: nat | !Covered(ps, a) ensures Unmixed(ps, 1, a) {
      UncoveredUnmixed(ps, a);
    }
    if forall j :: 0 <= j < |out| ==> out[j] == Overlay(ps, first + j) {
      forall a: nat ensures Unmixed(ps, 1, a) {
        if Covered(ps, a) {
          assert out[a - first] == Overlay(ps, first + (a - first));
        }
      }
    }
  }

  lemma UncoveredUnmixed(ps: seq<Piece>, a: nat)
    requires GoodPieces(ps) && !Covered(ps, a)
    ensures Unmixed(ps, 1, a)
  {
    hide Within;
  }

  // Numeric order agrees with the order of the keys on all covered addresses.
  ghost predicate CoverAgrees(ps: seq<Piece>) {
    forall a: nat, b: nat :: a < b && Covered(ps, a) && Covered(ps, b) ==>
      |Str(a)| <= |Str(b)| && a <= Cut(b, |Str(b)| - |Str(a)|)
  }

  lemma CoverAscends(mem: Mem, ps: seq<Piece>, keys: seq<string>)
    requires GoodPieces(ps) && Holds(mem, ps, 1) && Numerals(mem.Keys) && IsSorted(keys, mem.Keys)
    ensures CoverAgrees(ps) <==> Ascending(Addresses(keys))
  {
    hide Str, Int, Less, Touched, Packed, ByteAt, Covered, Cut, Numerals;
    AscendingExactly(keys, mem.Keys);
    forall a: nat ensures Covered(ps, a) <==> Str(a) in mem.Keys {
      KeyCovered(mem, ps, keys, a);
    }
  }

  // All covered addresses lie within `n` of each other.
  ghost predicate SpanWithin(ps: seq<Piece>, n: int) {
    forall a: nat, b: nat :: Covered(ps, a) && Covered(ps, b) ==> b - a <= n
  }

  lemma SpanGaps(mem: Mem, ps: seq<Piece>, keys: seq<string>, n: nat)
    requires GoodPieces(ps) && Holds(mem, ps, 1) && Numerals(mem.Keys) && Narrow(mem, 1) && IsSorted(keys, mem.Keys)
    requires SpanWithin(ps, n)
    ensures Gaps(Addresses(keys)) <= n
  {
    hide Str, Int, Less, Touched, Packed, ByteAt, Covered, Narrow, Numerals, Holds, IsSorted;
    if keys != [] {
      KeyAddress(mem, keys, 0);
      KeyAddress(mem, keys, |keys| - 1);
      KeyCovered(mem, ps, keys, Int(keys[0]));
      KeyCovered(mem, ps, keys, Int(keys[|keys| - 1]));
    }
  }

  lemma NothingWritten(mem: Mem, ps: seq<Piece>)
    requires GoodPieces(ps) && Holds(mem, ps, 1) && IsSorted([], mem.Keys)
    ensures WrittenFrom(ps, [], 0)
  {
    hide Str, Packed, ByteAt, Touched;
    forall a: nat ensures !Covered(ps, a) {
      KeyCovered(mem, ps, [], a);
    }
  }

  lemma MergedNothing(mem: Mem, base: nat, data: seq<int>, width: nat)
    requires GoodWidth(width) && AllBytes(data)
    ensures Merged(mem, mem, base, data[..0], width) && KeysOf(base, 0, width) == {}
  {
  }
}
