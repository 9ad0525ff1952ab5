/**
 Unbounded non-negative integers as rows of bytes, little end first, with the bit
 operations scripts/stim_utils.py uses on them.
 */
module ByteWords {
  import opened Words

  // a | b
  function Or(a: nat, b: nat): nat {
    if a == 0 && b == 0 then 0
    else (if a % 2 == 1 || b % 2 == 1 then 1 else 0) + 2 * Or(a / 2, b / 2)
  }

  // a & ~b
  function AndNot(a: nat, b: nat): nat {
    if a == 0 then 0
    else (if a % 2 == 1 && b % 2 == 0 then 1 else 0) + 2 * AndNot(a / 2, b / 2)
  }

  // x << (8 * n)
  function ShiftBytes(x: nat, n: nat): nat {
    if n == 0 then x else 256 * ShiftBytes(x, n - 1)
  }

  // (1 << n) - 1
  function Ones(n: nat): nat {
    if n == 0 then 0 else 1 + 2 * Ones(n - 1)
  }

  predicate IsByte(b: int) {
    0 <= b < 256
  }

  predicate AllBytes(s: seq<int>) {
    forall i :: 0 <= i < |s| ==> IsByte(s[i])
  }

  // int.from_bytes(s, byteorder='little')
  function FromBytes(s: seq<int>): nat
    requires AllBytes(s)
  {
    if s == [] then 0 else s[0] + 256 * FromBytes(s[1..])
  }

  // Byte `k` of a word.
  function Byte(v: nat, k: nat): (b: int)
    ensures IsByte(b)
  {
    if k == 0 then v % 256 else Byte(v / 256, k - 1)
  }

  // Every bit of x is set in y.
  predicate Within(x: nat, y: nat) {
    x == 0 || (x % 2 <= y % 2 && Within(x / 2, y / 2))
  }

  // ---------------------------------------------------------------- bits

  lemma {:induction false} OrIs(x: nat, y: nat)
    ensures Or(x, y) == y <==> Within(x, y)
  {
    if x != 0 {
      OrIs(x / 2, y / 2);
    } else {
      OrZero(y);
    }
  }

  lemma {:induction false} OrZero(y: nat)
    ensures Or(0, y) == y && Or(y, 0) == y
  {
    if y != 0 {
      OrZero(y / 2);
    }
  }

  lemma {:induction false} AndNotZero(x: nat)
    ensures AndNot(x, 0) == x
  {
    if x != 0 {
      AndNotZero(x / 2);
    }
  }

  lemma OrHalf(a: nat, b: nat)
    ensures Or(a, b) / 2 == Or(a / 2, b / 2)
    ensures Or(a, b) % 2 == if a % 2 == 1 || b % 2 == 1 then 1 else 0
  {
  }

  lemma AndNotHalf(a: nat, b: nat)
    ensures AndNot(a, b) / 2 == AndNot(a / 2, b / 2)
    ensures AndNot(a, b) % 2 == if a % 2 == 1 && b % 2 == 0 then 1 else 0
  {
  }

  // x without its last n bits, and the last n bits of x
  function Drop(x: nat, n: nat): nat {
    if n == 0 then x else Drop(x / 2, n - 1)
  }

  function Keep(x: nat, n: nat): nat {
    if n == 0 then 0 else x % 2 + 2 * Keep(x / 2, n - 1)
  }

  lemma {:induction false} OrParts(a: nat, b: nat, n: nat)
    ensures Drop(Or(a, b), n) == Or(Drop(a, n), Drop(b, n))
    ensures Keep(Or(a, b), n) == Or(Keep(a, n), Keep(b, n))
    decreases n
  {
    if n > 0 {
      OrHalf(a, b);
      OrParts(a / 2, b / 2, n - 1);
      OrHalf(Keep(a, n), Keep(b, n));
    }
  }

  lemma {:induction false} AndNotParts(a: nat, b: nat, n: nat)
    ensures Drop(AndNot(a, b), n) == AndNot(Drop(a, n), Drop(b, n))
    ensures Keep(AndNot(a, b), n) == AndNot(Keep(a, n), Keep(b, n))
    decreases n
  {
    if n > 0 {
      AndNotHalf(a, b);
      AndNotParts(a / 2, b / 2, n - 1);
      AndNotHalf(Keep(a, n), Keep(b, n));
    }
  }

  lemma {:induction false} Parts(x: nat, n: nat)
    ensures x == Drop(x, n) * Pow2(n) + Keep(x, n) && Keep(x, n) < Pow2(n)
    decreases n
  {
    if n > 0 {
      Parts(x / 2, n - 1);
      Twice(Drop(x, n), Pow2(n - 1));
    }
  }

  lemma Twice(d: int, p: int)
    ensures d * (2 * p) == 2 * (d * p)
  {
  }

  lemma Eight(x: nat)
    ensures Drop(x, 8) == x / 256 && Keep(x, 8) == x % 256
  {
    hide Drop, Keep;
    assert Pow2(8) == 256 by {
      assert Pow2(4) == 16;
    }
    Parts(x, 8);
  }

  // ---------------------------------------------------------------- bytes

  lemma {:induction false} OrByte(a: nat, b: nat, k: nat)
    ensures Byte(Or(a, b), k) == Or(Byte(a, k), Byte(b, k))
    decreases k
  {
    OrParts(a, b, 8);
    Eight(a);
    Eight(b);
    Eight(Or(a, b));
    if k > 0 {
      OrByte(a / 256, b / 256, k - 1);
    }
  }

  lemma {:induction false} AndNotByte(a: nat, b: nat, k: nat)
    ensures Byte(AndNot(a, b), k) == AndNot(Byte(a, k), Byte(b, k))
    decreases k
  {
    AndNotParts(a, b, 8);
    Eight(a);
    Eight(b);
    Eight(AndNot(a, b));
    if k > 0 {
      AndNotByte(a / 256, b / 256, k - 1);
    }
  }

  lemma {:induction false} ShiftByte(x: nat, n: nat, k: nat)
    ensures Byte(ShiftBytes(x, n), k) == if k < n then 0 else Byte(x, k - n)
    decreases n
  {
    if n > 0 {
      var y := ShiftBytes(x, n - 1);
      assert 256 * y % 256 == 0 && 256 * y / 256 == y;
      if k > 0 {
        ShiftByte(x, n - 1, k - 1);
      }
    }
  }

  lemma {:induction false} ZeroByte(k: nat)
    ensures Byte(0, k) == 0
  {
    if k > 0 {
      ZeroByte(k - 1);
    }
  }

  lemma {:induction false} FromBytesByte(s: seq<int>, k: nat)
    requires AllBytes(s)
    ensures Byte(FromBytes(s), k) == if k < |s| then s[k] else 0
    decreases |s|
  {
    if s == [] {
      ZeroByte(k);
    } else {
      var v := FromBytes(s[1..]);
      assert (s[0] + 256 * v) % 256 == s[0] && (s[0] + 256 * v) / 256 == v;
      if k > 0 {
        FromBytesByte(s[1..], k - 1);
      }
    }
  }

  lemma ByteMask(k: nat)
    ensures Ones(8) == 255 && Ones(1) == 1
    ensures Byte(255, k) == if k == 0 then 255 else 0
    ensures Byte(1, k) == if k == 0 then 1 else 0
  {
    assert Ones(1) == 1 && Ones(2) == 3 && Ones(3) == 7 && Ones(4) == 15 && Ones(5) == 31;
    if k > 0 {
      ZeroByte(k - 1);
    }
  }

  // Clearing a whole byte, or its lowest bit.
  lemma ClearByte(b: int)
    requires IsByte(b)
    ensures AndNot(b, 255) == 0 && AndNot(b, 1) == b - b % 2 && AndNot(b, 0) == b
  {
    AndNotZero(b);
    AndNotZero(b / 2);
    ClearAll(b, 8);
    ByteMask(0);
  }

  lemma {:induction false} ClearAll(b: nat, n: nat)
    requires b < Pow2(n)
    ensures AndNot(b, Ones(n)) == 0
    decreases n
  {
    if n > 0 && b > 0 {
      ClearAll(b / 2, n - 1);
    }
  }
}
