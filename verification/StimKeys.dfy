/**
 The dictionary keys of the binary image in the order in which scripts/stim_utils.py dumps
 them, which is the order of strings.
 */
module StimKeys {
  import opened Decimal

  // The order in which the dump takes the keys.
  ghost predicate IsSorted(keys: seq<string>, ks: set<string>) {
    && (forall i, j :: 0 <= i < j < |keys| ==> Less(keys[i], keys[j]))
    && (forall i :: 0 <= i < |keys| ==> keys[i] in ks)
    && (forall k :: k in ks ==> k in keys)
  }

  ghost predicate Numerals(ks: set<string>) {
    forall k :: k in ks ==> exists n: nat :: k == Str(n)
  }

  function Addresses(keys: seq<string>): (s: seq<int>)
    ensures |s| == |keys|
    ensures forall i :: 0 <= i < |keys| ==> s[i] == Int(keys[i])
  {
    seq(|keys|, i requires 0 <= i < |keys| => Int(keys[i]))
  }

  predicate Ascending(s: seq<int>) {
    forall i, j :: 0 <= i < j < |s| ==> s[i] < s[j]
  }

  // Numeric order agrees with the order of the keys: a number of fewer digits is not above
  // the leading digits of a larger one.
  ghost predicate Agrees(ks: set<string>) {
    forall a: nat, b: nat :: a < b && Str(a) in ks && Str(b) in ks ==> |Str(a)| <= |Str(b)| && a <= Cut(b, |Str(b)| - |Str(a)|)
  }

  /** The sorted keys ascend as numbers exactly when every shorter address is bounded by the
      leading digits of every larger one. */
  lemma AscendingExactly(keys: seq<string>, ks: set<string>)
    requires IsSorted(keys, ks) && Numerals(ks)
    ensures Ascending(Addresses(keys)) <==> Agrees(ks)
  {
    hide Str, Int, Less, Cut;
    if Agrees(ks) {
      forall i, j | 0 <= i < j < |keys| ensures Int(keys[i]) < Int(keys[j]) {
        AscendingPair(keys, ks, i, j);
      }
    }
    if Ascending(Addresses(keys)) {
      forall a: nat, b: nat | a < b && Str(a) in ks && Str(b) in ks
        ensures |Str(a)| <= |Str(b)| && a <= Cut(b, |Str(b)| - |Str(a)|)
      {
        AgreeingPair(keys, ks, a, b);
      }
    }
  }

  lemma AscendingPair(keys: seq<string>, ks: set<string>, i: nat, j: nat)
    requires IsSorted(keys, ks) && Numerals(ks) && Agrees(ks) && i < j < |keys|
    ensures Int(keys[i]) < Int(keys[j])
  {
    hide Str, Int, Less, Cut;
    var a: nat :| keys[i] == Str(a);
    var b: nat :| keys[j] == Str(b);
    IntOfStr(a);
    IntOfStr(b);
    LessAsymmetric(keys[i], keys[j]);
    if b < a {
      SortedLike(b, a);
    }
  }

  lemma AgreeingPair(keys: seq<string>, ks: set<string>, a: nat, b: nat)
    requires IsSorted(keys, ks) && Ascending(Addresses(keys)) && a < b && Str(a) in ks && Str(b) in ks
    ensures |Str(a)| <= |Str(b)| && a <= Cut(b, |Str(b)| - |Str(a)|)
  {
    hide Str, Int, Less, Cut;
    var i :| 0 <= i < |keys| && keys[i] == Str(a);
    var j :| 0 <= j < |keys| && keys[j] == Str(b);
    IntOfStr(a);
    IntOfStr(b);
    assert Addresses(keys)[i] < Addresses(keys)[j];
    SortedLike(a, b);
  }

  ghost predicate SameDigits(ks: set<string>) {
    forall a: nat, b: nat :: Str(a) in ks && Str(b) in ks ==> |Str(a)| == |Str(b)|
  }

  /** Addresses of equally many digits always ascend. */
  lemma SameDigitsAscend(keys: seq<string>, ks: set<string>)
    requires IsSorted(keys, ks) && Numerals(ks) && SameDigits(ks)
    ensures Ascending(Addresses(keys))
  {
    hide Str, Less, Int, IsSorted, Numerals;
    AscendingExactly(keys, ks);
  }

  lemma TwoNumerals()
    ensures Str(9) == "9" && Str(10) == "10" && Int("9") == 9 && Int("10") == 10
    ensures Less("10", "9")
  {
    hide Less, Int;
    assert Str(9) == "9" && Str(1) == "1" && Str(10) == "10";
    IntOfStr(9);
    IntOfStr(10);
    FirstDigit("10", "9");
  }

  lemma FirstDigit(s: string, t: string)
    requires s != [] && t != [] && s[0] < t[0]
    ensures Less(s, t)
  {
  }

  /** Addresses 9 and 10 do not: the key of 10 comes first. */
  lemma NineTenExample()
    ensures IsSorted(["10", "9"], {Str(9), Str(10)})
    ensures Addresses(["10", "9"]) == [10, 9] && !Ascending([10, 9])
  {
    hide Str, Int, Less;
    TwoNumerals();
    var keys, s := ["10", "9"], [10, 9];
    assert keys[0] == "10" && keys[1] == "9" && s[0] > s[1];
  }

  // Bytes written by the gap loop once all keys are done.
  function Gaps(s: seq<int>): int {
    if s == [] then 0 else s[|s| - 1] - s[0] + 1 - |s|
  }

  lemma {:induction false} GapsGrow(s: seq<int>, i: nat)
    requires Ascending(s) && 0 < i <= |s|
    ensures 0 <= Gaps(s[..i]) <= Gaps(s)
    decreases |s|
  {
    if i < |s| {
      GapsGrow(s[..|s| - 1], i);
      assert s[..|s| - 1][..i] == s[..i];
      assert s[|s| - 2] < s[|s| - 1];
    } else {
      assert s[..i] == s;
      if i > 1 {
        GapsGrow(s[..i - 1], i - 1);
        assert s[..i - 1][..i - 1] == s[..i - 1];
        assert s[i - 2] < s[i - 1];
      }
    }
  }

  lemma NothingAscends()
    ensures Ascending([])
  {
  }

  // The next address in an ascending sequence.
  lemma AscendingNext(s: seq<int>, i: nat)
    requires 0 < i < |s|
    ensures Ascending(s) ==> s[0] <= s[i - 1] < s[i]
  {
  }

  lemma AscendingUpTo(s: seq<int>, i: nat)
    requires i < |s| && Ascending(s[..i])
    ensures i > 0 && s[i - 1] < s[i] ==>
      Ascending(s[..i + 1]) && Gaps(s[..i + 1]) == Gaps(s[..i]) + s[i] - s[i - 1] - 1
    ensures i == 0 ==> Ascending(s[..1]) && Gaps(s[..1]) == 0
  {
    assert i > 0 ==> s[..i][i - 1] == s[i - 1] && forall j :: 0 <= j < i - 1 ==> s[..i][j] < s[..i][i - 1];
  }

  lemma Unfinished(s: seq<int>, i: nat, prevAddr: int, budget: int)
    requires 0 < i < |s| && Ascending(s[..i]) && prevAddr != s[i] - 1 && (s[i - 1] < s[i] ==> prevAddr < s[i])
    requires prevAddr - s[i - 1] + Gaps(s[..i]) == budget
    ensures !(Ascending(s) && Gaps(s) <= budget)
  {
    hide Gaps;
    if Ascending(s) {
      AscendingNext(s, i);
      AscendingUpTo(s, i);
      GapsGrow(s, i + 1);
    }
  }

  lemma KeyIndex(keys: seq<string>, ks: set<string>, a: nat)
    requires IsSorted(keys, ks) && Str(a) in ks
    ensures exists j :: 0 <= j < |keys| && Addresses(keys)[j] == a
  {
    hide Str, Int, Less;
    var j :| 0 <= j < |keys| && keys[j] == Str(a);
    IntOfStr(a);
    assert Addresses(keys)[j] == a;
  }

  // ---------------------------------------------------------------- sorting

  function InsertKey(keys: seq<string>, k: string): seq<string> {
    if keys == [] then [k]
    else if Less(k, keys[0]) then [k] + keys
    else [keys[0]] + InsertKey(keys[1..], k)
  }

  lemma {:induction false} InsertSorted(keys: seq<string>, ks: set<string>, k: string)
    requires IsSorted(keys, ks) && k !in ks
    ensures IsSorted(InsertKey(keys, k), ks + {k})
    decreases keys
  {
    hide Less;
    if keys == [] {
      assert [k][0] == k;
    } else if Less(k, keys[0]) {
      InsertFirst(keys, ks, k);
    } else {
      SortedTail(keys, ks);
      InsertSorted(keys[1..], ks - {keys[0]}, k);
      LessTotal(k, keys[0]);
      assert ks - {keys[0]} + {k} == ks + {k} - {keys[0]};
      SortedCons(keys[0], InsertKey(keys[1..], k), ks + {k} - {keys[0]});
      assert ks + {k} - {keys[0]} + {keys[0]} == ks + {k};
    }
  }

  lemma InsertFirst(keys: seq<string>, ks: set<string>, k: string)
    requires IsSorted(keys, ks) && k !in ks && keys != [] && Less(k, keys[0])
    ensures IsSorted([k] + keys, ks + {k})
  {
    hide Less;
    forall x | x in ks ensures Less(k, x) {
      var i :| 0 <= i < |keys| && keys[i] == x;
      if i > 0 {
        LessTransitive(k, keys[0], keys[i]);
      }
    }
    SortedCons(k, keys, ks);
  }

  lemma SortedCons(k: string, keys: seq<string>, ks: set<string>)
    requires IsSorted(keys, ks) && forall x :: x in ks ==> Less(k, x)
    ensures IsSorted([k] + keys, ks + {k})
  {
    hide Less;
    var all := [k] + keys;
    assert forall i :: 1 <= i < |all| ==> all[i] == keys[i - 1];
    assert all[0] == k;
  }

  lemma SortedTail(keys: seq<string>, ks: set<string>)
    requires IsSorted(keys, ks) && keys != []
    ensures IsSorted(keys[1..], ks - {keys[0]})
    ensures forall x :: x in ks && x != keys[0] ==> Less(keys[0], x)
  {
    hide Less;
    assert forall i :: 0 <= i < |keys| - 1 ==> keys[1..][i] == keys[i + 1];
    forall x | x in ks && x != keys[0] ensures x in keys[1..] {
      var i :| 0 <= i < |keys| && keys[i] == x;
      assert keys[1..][i - 1] == x;
    }
    forall i | 1 <= i < |keys| ensures keys[i] != keys[0] {
      LessAsymmetric(keys[0], keys[i]);
    }
  }

  /** sorted(ks) */
  method Sorted(ks: set<string>) returns (keys: seq<string>)
    ensures IsSorted(keys, ks)
  {
    hide Less, IsSorted;
    keys := [];
    NothingSorted();
    var rest := ks;
    assert ks - rest == {};
    while rest != {}
      invariant rest <= ks && IsSorted(keys, ks - rest)
      decreases rest
    {
      var k :| k in rest;
      InsertSorted(keys, ks - rest, k);
      assert ks - rest + {k} == ks - (rest - {k});
      keys := InsertKey(keys, k);
      rest := rest - {k};
    }
    assert ks - rest == ks;
  }

  lemma NothingSorted()
    ensures IsSorted([], {})
  {
  }
}
