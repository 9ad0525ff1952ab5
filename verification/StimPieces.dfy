/**
 The pieces of data that scripts/stim_utils.py stores into an image, and what the image
 holds at an address after all of them.
 */
module StimPieces {
  import opened ByteWords
  import opened Words

  predicate GoodWidth(width: nat) {
    width == 1 || width == 8
  }

  // What a word keeps of its byte at `a` when data is stored from `base` on: the mask only
  // clears the first byte of an 8-byte word that is written, or bit 0 of a 1-byte word.
  function Kept(was: int, a: nat, base: nat, width: nat): (k: nat)
    requires IsByte(was) && GoodWidth(width)
  {
    if width == 1 then was - was % 2 else if a == base || a % 8 == 0 then 0 else was
  }

  function Merge(was: int, d: int, a: nat, base: nat, width: nat): nat
    requires IsByte(was) && IsByte(d) && GoodWidth(width)
  {
    Or(Kept(was, a, base, width), d)
  }

  // ---------------------------------------------------------------- pieces

  datatype Piece = Piece(base: nat, data: seq<int>) {
    predicate Covers(a: nat) {
      base <= a < base + |data|
    }
  }

  predicate GoodPieces(ps: seq<Piece>) {
    forall i :: 0 <= i < |ps| ==> AllBytes(ps[i].data)
  }

  // The byte the packer leaves at `a` after these pieces.
  function Packed(ps: seq<Piece>, width: nat, a: nat): (b: int)
    requires GoodPieces(ps) && GoodWidth(width)
    ensures IsByte(b)
  {
    if ps == [] then 0
    else
      var p, before := ps[|ps| - 1], Packed(ps[..|ps| - 1], width, a);
      if p.Covers(a) then
        MergeByte(before, p.data[a - p.base], a, p.base, width);
        Merge(before, p.data[a - p.base], a, p.base, width)
      else before
  }

  // The byte of the last piece that covers `a`, 0 when there is none.
  function Overlay(ps: seq<Piece>, a: nat): (b: int)
    requires GoodPieces(ps)
    ensures IsByte(b)
  {
    if ps == [] then 0
    else if ps[|ps| - 1].Covers(a) then ps[|ps| - 1].data[a - ps[|ps| - 1].base]
    else Overlay(ps[..|ps| - 1], a)
  }

  lemma {:induction false} OrBound(x: nat, y: nat, n: nat)
    requires x < Pow2(n) && y < Pow2(n)
    ensures Or(x, y) < Pow2(n)
    decreases n
  {
    if n > 0 {
      OrHalf(x, y);
      OrBound(x / 2, y / 2, n - 1);
    }
  }

  lemma MergeByte(was: int, d: int, a: nat, base: nat, width: nat)
    requires IsByte(was) && IsByte(d) && GoodWidth(width)
    ensures IsByte(Merge(was, d, a, base, width))
  {
    assert Pow2(8) == 256 by {
      assert Pow2(4) == 16;
    }
    OrBound(Kept(was, a, base, width), d, 8);
  }

  // No piece is stored over bits that the mask does not clear and the data does not set.
  ghost predicate CleanLast(ps: seq<Piece>, width: nat)
    requires GoodPieces(ps) && GoodWidth(width) && ps != []
  {
    var p, front := ps[|ps| - 1], ps[..|ps| - 1];
    forall a: nat :: p.Covers(a) ==> Within(Kept(Overlay(front, a), a, p.base, width), p.data[a - p.base])
  }

  ghost predicate Clean(ps: seq<Piece>, width: nat)
    requires GoodPieces(ps) && GoodWidth(width)
  {
    ps == [] || (Clean(ps[..|ps| - 1], width) && CleanLast(ps, width))
  }

  ghost predicate Faithful(ps: seq<Piece>, width: nat)
    requires GoodPieces(ps) && GoodWidth(width)
  {
    forall a: nat :: Packed(ps, width, a) == Overlay(ps, a)
  }

  /** The image is the overlay of the pieces after each of them, not just at the end, exactly
      when no piece is stored over such bits. */
  lemma {:induction false} OverlayExactly(ps: seq<Piece>, width: nat)
    requires GoodPieces(ps) && GoodWidth(width)
    ensures Clean(ps, width) <==> forall i :: 0 <= i <= |ps| ==> Faithful(ps[..i], width)
  {
    assert ps[..|ps|] == ps;
    if ps != [] {
      var front := ps[..|ps| - 1];
      OverlayExactly(front, width);
      assert forall i :: 0 <= i < |ps| ==> ps[..i] == front[..i];
      if Faithful(front, width) {
        FaithfulLast(ps, width);
      } else {
        assert ps[..|ps| - 1] == front;
        assert front[..|front|] == front;
      }
    }
  }

  lemma FaithfulLast(ps: seq<Piece>, width: nat)
    requires GoodPieces(ps) && GoodWidth(width) && ps != [] && Faithful(ps[..|ps| - 1], width)
    ensures CleanLast(ps, width) <==> Faithful(ps, width)
  {
    var p, front := ps[|ps| - 1], ps[..|ps| - 1];
    assert forall a: nat :: Packed(front, width, a) == Overlay(front, a);
    forall a: nat | p.Covers(a)
      ensures Packed(ps, width, a) == Overlay(ps, a) <==>
              Within(Kept(Overlay(front, a), a, p.base, width), p.data[a - p.base])
    {
      OrIs(Kept(Overlay(front, a), a, p.base, width), p.data[a - p.base]);
    }
    assert forall a: nat :: !p.Covers(a) ==> Packed(ps, width, a) == Overlay(ps, a);
  }

  // No two pieces share an address.
  ghost predicate Disjoint(ps: seq<Piece>) {
    forall i, j, a: nat :: 0 <= i < j < |ps| && ps[i].Covers(a) ==> !ps[j].Covers(a)
  }

  lemma {:induction false} Uncovered(ps: seq<Piece>, a: nat)
    requires GoodPieces(ps) && forall i :: 0 <= i < |ps| ==> !ps[i].Covers(a)
    ensures Overlay(ps, a) == 0
  {
    if ps != [] {
      Uncovered(ps[..|ps| - 1], a);
    }
  }

  lemma {:induction false} DisjointClean(ps: seq<Piece>, width: nat)
    requires GoodPieces(ps) && GoodWidth(width) && Disjoint(ps)
    ensures Clean(ps, width)
  {
    if ps != [] {
      var p, front := ps[|ps| - 1], ps[..|ps| - 1];
      DisjointClean(front, width);
      forall a: nat | p.Covers(a)
        ensures Within(Kept(Overlay(front, a), a, p.base, width), p.data[a - p.base])
      {
        assert forall i :: 0 <= i < |front| ==> front[i].Covers(a) ==> !ps[|ps| - 1].Covers(a);
        Uncovered(front, a);
      }
    }
  }

  // The piece that covers an address gives its byte.
  lemma {:induction false} OverlayAt(ps: seq<Piece>, i: nat, a: nat)
    requires GoodPieces(ps) && Disjoint(ps) && i < |ps| && ps[i].Covers(a)
    ensures Overlay(ps, a) == ps[i].data[a - ps[i].base]
    decreases |ps|
  {
    if i < |ps| - 1 {
      assert !ps[|ps| - 1].Covers(a);
      OverlayAt(ps[..|ps| - 1], i, a);
    }
  }

  /** Disjoint pieces at any alignment: the image holds the bytes of every piece, and 0
      where there is none. */
  lemma DisjointPacked(ps: seq<Piece>, width: nat, a: nat)
    requires GoodPieces(ps) && GoodWidth(width) && Disjoint(ps)
    ensures forall i :: 0 <= i < |ps| && ps[i].Covers(a) ==> Packed(ps, width, a) == ps[i].data[a - ps[i].base]
    ensures (forall i :: 0 <= i < |ps| ==> !ps[i].Covers(a)) ==> Packed(ps, width, a) == 0
  {
    DisjointClean(ps, width);
    OverlayExactly(ps, width);
    assert ps[..|ps|] == ps;
    assert Faithful(ps[..|ps|], width);
    forall i | 0 <= i < |ps| && ps[i].Covers(a) ensures Overlay(ps, a) == ps[i].data[a - ps[i].base] {
      OverlayAt(ps, i, a);
    }
    if forall i :: 0 <= i < |ps| ==> !ps[i].Covers(a) {
      Uncovered(ps, a);
    }
  }

  /** Stored twice, the second byte of a word is a mix of both. */
  lemma OverlapExample()
    ensures var ps := [Piece(0, [1, 1]), Piece(0, [2, 2])];
      Packed(ps, 8, 1) == 3 && Overlay(ps, 1) == 2 && Packed(ps, 1, 0) == 2
  {
    var ps := [Piece(0, [1, 1]), Piece(0, [2, 2])];
    assert ps[..1] == [Piece(0, [1, 1])] && ps[..1][..0] == [];
    OrZero(1);
    OrZero(2);
    assert Or(1, 2) == 1 + 2 * Or(0, 1);
  }

  // ---------------------------------------------------------------- the final image

  // Storing this piece clears what was at `a`.
  predicate Clears(p: Piece, a: nat, width: nat) {
    width == 8 && (a == p.base || a % 8 == 0)
  }

  // What is left of a byte when its word is written again without clearing it.
  function Left(x: nat, width: nat): nat {
    if width == 1 then x - x % 2 else x
  }

  // The byte that piece `j` stored at `a` is never cleared afterwards.
  predicate Survives(ps: seq<Piece>, j: nat, a: nat, width: nat)
    requires j < |ps|
  {
    ps[j].Covers(a) && forall k :: j < k < |ps| && ps[k].Covers(a) ==> !Clears(ps[k], a, width)
  }

  // Piece `i` is the last one that covers `a`.
  predicate LastAt(ps: seq<Piece>, i: nat, a: nat)
    requires i < |ps|
  {
    ps[i].Covers(a) && forall k :: i < k < |ps| ==> !ps[k].Covers(a)
  }

  // What earlier bytes leave behind, all of it, is in the last byte stored at `a`.
  ghost predicate Unmixed(ps: seq<Piece>, width: nat, a: nat)
    requires GoodPieces(ps)
  {
    forall i, j :: 0 <= j < i < |ps| && LastAt(ps, i, a) && Survives(ps, j, a, width) ==>
      Within(Left(ps[j].data[a - ps[j].base], width), ps[i].data[a - ps[i].base])
  }

  lemma {:induction false} OrWithin(x: nat, y: nat, d: nat)
    ensures Within(Or(x, y), d) <==> Within(x, d) && Within(y, d)
  {
    if x != 0 || y != 0 {
      OrHalf(x, y);
      OrWithin(x / 2, y / 2, d / 2);
    }
  }

  lemma LeftOr(x: nat, y: nat, width: nat)
    ensures Left(Or(x, y), width) == Or(Left(x, width), Left(y, width))
    ensures Left(Left(x, width), width) == Left(x, width)
  {
    OrHalf(x, y);
    OrHalf(x - x % 2, y - y % 2);
    assert (x - x % 2) / 2 == x / 2 && (y - y % 2) / 2 == y / 2;
  }

  // All bytes that survive at `a` leave only bits of `d`.
  ghost predicate AllWithin(ps: seq<Piece>, width: nat, a: nat, d: nat)
    requires GoodPieces(ps)
  {
    forall j :: 0 <= j < |ps| && Survives(ps, j, a, width) ==> Within(Left(ps[j].data[a - ps[j].base], width), d)
  }

  lemma SurvivesFront(ps: seq<Piece>, j: nat, a: nat, width: nat)
    requires ps != [] && j < |ps|
    ensures var front, p := ps[..|ps| - 1], ps[|ps| - 1];
      Survives(ps, j, a, width) <==>
        if j == |ps| - 1 then p.Covers(a) else Survives(front, j, a, width) && (p.Covers(a) ==> !Clears(p, a, width))
  {
    var front := ps[..|ps| - 1];
    assert forall k :: 0 <= k < |front| ==> front[k] == ps[k];
  }

  lemma AllWithinFront(ps: seq<Piece>, width: nat, a: nat, d: nat)
    requires GoodPieces(ps) && ps != []
    ensures var front, p := ps[..|ps| - 1], ps[|ps| - 1];
      AllWithin(ps, width, a, d) <==>
      && (p.Covers(a) ==> Within(Left(p.data[a - p.base], width), d))
      && ((p.Covers(a) && Clears(p, a, width)) || AllWithin(front, width, a, d))
  {
    hide Survives, Within, Left;
    var front, p, n := ps[..|ps| - 1], ps[|ps| - 1], |ps| - 1;
    forall j | 0 <= j < |ps|
      ensures Survives(ps, j, a, width) <==>
        if j == n then p.Covers(a) else Survives(front, j, a, width) && (p.Covers(a) ==> !Clears(p, a, width))
    {
      SurvivesFront(ps, j, a, width);
    }
    assert forall j :: 0 <= j < n ==> front[j] == ps[j];
  }

  lemma KeptIs(was: int, p: Piece, a: nat, width: nat)
    requires IsByte(was) && GoodWidth(width)
    ensures Kept(was, a, p.base, width) == if Clears(p, a, width) then 0 else Left(was, width)
  {
  }

  // The image at `a` is made of the bytes that survive there.
  lemma {:induction false} PackedWithin(ps: seq<Piece>, width: nat, a: nat, d: nat)
    requires GoodPieces(ps) && GoodWidth(width)
    ensures Within(Left(Packed(ps, width, a), width), d) <==> AllWithin(ps, width, a, d)
  {
    hide AllWithin, Or, Kept, Left;
    if ps == [] {
      NothingWithin(width, a, d);
    } else {
      var front, p := ps[..|ps| - 1], ps[|ps| - 1];
      PackedWithin(front, width, a, d);
      AllWithinFront(ps, width, a, d);
      if p.Covers(a) {
        var was, b := Packed(front, width, a), p.data[a - p.base];
        KeptIs(was, p, a, width);
        LeftOr(Kept(was, a, p.base, width), b, width);
        LeftOr(was, 0, width);
        NothingWithin(width, a, d);
        OrWithin(Left(Kept(was, a, p.base, width), width), Left(b, width), d);
      }
    }
  }

  lemma NothingWithin(width: nat, a: nat, d: nat)
    ensures Left(0, width) == 0 && Within(0, d) && AllWithin([], width, a, d)
  {
  }

  lemma UnmixedFront(ps: seq<Piece>, width: nat, a: nat)
    requires GoodPieces(ps) && ps != []
    ensures var front, p := ps[..|ps| - 1], ps[|ps| - 1];
      Unmixed(ps, width, a) <==>
        if !p.Covers(a) then Unmixed(front, width, a)
        else Clears(p, a, width) || AllWithin(front, width, a, p.data[a - p.base])
  {
    hide Survives, Within, Left, Clears;
    var front, p, n := ps[..|ps| - 1], ps[|ps| - 1], |ps| - 1;
    assert forall j :: 0 <= j < n ==> front[j] == ps[j];
    forall j | 0 <= j < |ps|
      ensures Survives(ps, j, a, width) <==>
        if j == n then p.Covers(a) else Survives(front, j, a, width) && (p.Covers(a) ==> !Clears(p, a, width))
    {
      SurvivesFront(ps, j, a, width);
    }
    if p.Covers(a) {
      assert LastAt(ps, n, a) && forall i :: 0 <= i < n ==> !LastAt(ps, i, a);
    } else {
      assert forall i :: 0 <= i < n ==> LastAt(ps, i, a) == LastAt(front, i, a);
    }
  }

  /** At every address the final image holds the byte of the last piece there if and only if
      that byte has all the bits which earlier ones stored there leave behind, those no later
      piece has cleared. */
  lemma {:induction false} ByteExactly(ps: seq<Piece>, width: nat, a: nat)
    requires GoodPieces(ps) && GoodWidth(width)
    ensures Packed(ps, width, a) == Overlay(ps, a) <==> Unmixed(ps, width, a)
  {
    hide Unmixed, AllWithin, Or, Kept;
    if ps == [] {
      NothingMixed(width, a);
    } else {
      var front, p := ps[..|ps| - 1], ps[|ps| - 1];
      UnmixedFront(ps, width, a);
      if p.Covers(a) {
        var was, d := Packed(front, width, a), p.data[a - p.base];
        OrIs(Kept(was, a, p.base, width), d);
        KeptIs(was, p, a, width);
        PackedWithin(front, width, a, d);
      } else {
        ByteExactly(front, width, a);
      }
    }
  }

  lemma NothingMixed(width: nat, a: nat)
    ensures Unmixed([], width, a)
  {
  }

  /** The final image is the overlay of the pieces if and only if no byte of it is mixed. */
  lemma ImageExactly(ps: seq<Piece>, width: nat)
    requires GoodPieces(ps) && GoodWidth(width)
    ensures Faithful(ps, width) <==> forall a: nat :: Unmixed(ps, width, a)
  {
    hide Unmixed, Packed, Overlay;
    forall a: nat ensures Packed(ps, width, a) == Overlay(ps, a) <==> Unmixed(ps, width, a) {
      ByteExactly(ps, width, a);
    }
  }
}
