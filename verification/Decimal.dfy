/**
 Decimal numerals as dictionary keys: `str`, `int` and the order in which strings are
 sorted (scripts/stim_utils.py).
 */
module Decimal {

  function Digit(d: int): char
    requires 0 <= d < 10
  {
    "0123456789"[d]
  }

  // str(n)
  function Str(n: nat): (s: string)
    ensures |s| > 0
  {
    (if n < 10 then [] else Str(n / 10)) + [Digit(n % 10)]
  }

  // int(s)
  function Int(s: string): int {
    if s == [] then 0 else 10 * Int(s[..|s| - 1]) + (s[|s| - 1] as int - '0' as int)
  }

  /** Reading a numeral back gives its number, so different numbers have different keys. */
  lemma {:induction false} IntOfStr(n: nat)
    ensures Int(Str(n)) == n
  {
    assert Digit(n % 10) as int - '0' as int == n % 10;
    if n >= 10 {
      IntOfStr(n / 10);
      assert Str(n)[..|Str(n)| - 1] == Str(n / 10);
    }
  }

  // The order of strings: s < t
  predicate Less(s: string, t: string) {
    t != [] && (s == [] || s[0] < t[0] || (s[0] == t[0] && Less(s[1..], t[1..])))
  }

  lemma {:induction false} LessAsymmetric(s: string, t: string)
    requires Less(s, t)
    ensures !Less(t, s)
  {
    if s != [] && s[0] == t[0] {
      LessAsymmetric(s[1..], t[1..]);
    }
  }

  lemma {:induction false} LessTotal(s: string, t: string)
    ensures s == t || Less(s, t) || Less(t, s)
  {
    if s != [] && t != [] && s[0] == t[0] {
      LessTotal(s[1..], t[1..]);
      assert s == [s[0]] + s[1..] && t == [t[0]] + t[1..];
    }
  }

  lemma {:induction false} LessTransitive(s: string, t: string, u: string)
    requires Less(s, t) && Less(t, u)
    ensures Less(s, u)
  {
    if s != [] && s[0] == t[0] && t[0] == u[0] {
      LessTransitive(s[1..], t[1..], u[1..]);
    }
  }

  lemma NothingBefore(s: string)
    ensures !Less(s, [])
  {
  }

  // The last character decides only when all others agree.
  lemma {:induction false} LessLast(s: string, t: string, c: char, d: char)
    requires |s| == |t|
    ensures Less(s + [c], t + [d]) <==> Less(s, t) || (s == t && c < d)
  {
    if s != [] {
      LessLast(s[1..], t[1..], c, d);
      assert (s + [c])[1..] == s[1..] + [c] && (t + [d])[1..] == t[1..] + [d];
      assert s == t <==> s[0] == t[0] && s[1..] == t[1..] by {
        assert s == [s[0]] + s[1..] && t == [t[0]] + t[1..];
      }
    }
  }

  // A longer string is compared by its first part; a proper prefix comes first.
  lemma {:induction false} LessPrefix(s: string, t: string, more: string)
    requires |s| == |t|
    ensures Less(s, t + more) <==> Less(s, t) || (s == t && more != [])
  {
    if s != [] {
      LessPrefix(s[1..], t[1..], more);
      assert (t + more)[1..] == t[1..] + more;
      assert s == t <==> s[0] == t[0] && s[1..] == t[1..] by {
        assert s == [s[0]] + s[1..] && t == [t[0]] + t[1..];
      }
    } else {
      assert t + more == more;
    }
  }

  lemma DigitOrder(c: int, d: int)
    requires 0 <= c < 10 && 0 <= d < 10
    ensures Digit(c) < Digit(d) <==> c < d
  {
  }

  /** Numerals of the same length are ordered like their numbers. */
  lemma {:induction false} SameLength(a: nat, b: nat)
    requires |Str(a)| == |Str(b)|
    ensures Less(Str(a), Str(b)) <==> a < b
    decreases a
  {
    hide Less, Digit;
    DigitOrder(a % 10, b % 10);
    var s, t := if a < 10 then [] else Str(a / 10), if b < 10 then [] else Str(b / 10);
    LessLast(s, t, Digit(a % 10), Digit(b % 10));
    if a >= 10 {
      SameLength(a / 10, b / 10);
      IntOfStr(a / 10);
      IntOfStr(b / 10);
    } else {
      NothingBefore(s);
    }
  }

  // b without its last k digits
  function Cut(b: nat, k: nat): nat {
    if k == 0 then b else Cut(b / 10, k - 1)
  }

  lemma {:induction false} StrCut(b: nat, k: nat)
    requires k < |Str(b)|
    ensures Str(b)[..|Str(b)| - k] == Str(Cut(b, k))
    ensures k > 0 ==> Cut(b, k) < b
    decreases k
  {
    if k > 0 {
      assert Str(b) == Str(b / 10) + [Digit(b % 10)];
      StrCut(b / 10, k - 1);
      assert Str(b)[..|Str(b)| - k] == Str(b / 10)[..|Str(b / 10)| - (k - 1)];
    }
  }

  lemma {:induction false} LengthMono(a: nat, b: nat)
    requires a <= b
    ensures |Str(a)| <= |Str(b)|
  {
    if a >= 10 {
      LengthMono(a / 10, b / 10);
    }
  }

  /** Sorting puts the smaller of two numbers first exactly when it is not above the larger
      one cut to the same number of digits: always for numbers of equally many digits. */
  lemma SortedLike(a: nat, b: nat)
    requires a < b
    ensures |Str(a)| <= |Str(b)|
    ensures Less(Str(a), Str(b)) <==> a <= Cut(b, |Str(b)| - |Str(a)|)
  {
    hide Str, Less;
    LengthMono(a, b);
    var k := |Str(b)| - |Str(a)|;
    StrCut(b, k);
    var t, more := Str(b)[..|Str(a)|], Str(b)[|Str(a)|..];
    assert Str(b) == t + more;
    LessPrefix(Str(a), t, more);
    SameLength(a, Cut(b, k));
    IntOfStr(a);
    IntOfStr(Cut(b, k));
  }
}
