/**
 Frequency-locked loops (drivers/fll.c) with a reference clock of 2^15 Hz. The output
 frequency is Fref * Mult / 2^(Div - 1), with 16 bits for Mult and 4 bits for Div.
 */
module Fll {
  import opened Words

  const FREF := 32768
  const LOG2_MAXDCO := 29
  const LOG2_REFCLK := 15
  const LOG2_MAXM := LOG2_MAXDCO - LOG2_REFCLK

  // __FL1: the position of the most significant bit.
  function HighestBit(x: nat): (k: nat)
    requires x > 0
    ensures Pow2(k) <= x < Pow2(k + 1)
  {
    if x == 1 then 0 else 1 + HighestBit(x / 2)
  }

  datatype Setting = Undefined | Setting(mult: int, div: int, fres: int)

  // (FLL_LOG2_MAXM - Log2M) >> 1 in unsigned arithmetic, where Log2M is the difference of
  // the highest bits of the frequency and of the reference.
  function Half(highest: int): nat {
    Wrap(LOG2_MAXM - Wrap(highest - LOG2_REFCLK)) / 2
  }

  // Log2 of the divider
  function Divider(freq: nat): (d: nat)
    requires freq > 0
    ensures d > 0
  {
    var half := Half(HighestBit(freq));
    if 1 > half then 1 else half
  }

  function ShiftLeft(x: nat, n: nat): nat {
    Wrap(x * Pow2(n))
  }

  function ShiftRight(x: nat, n: nat): int {
    x / Pow2(n)
  }

  // `fll_get_mult_div_from_frequency`. C defines neither the highest bit of 0 nor a shift
  // by 32 or more.
  function MultDiv(freq: nat): Setting {
    if freq == 0 || Divider(freq) >= 32 then Undefined
    else
      var d := Divider(freq);
      var m := ShiftLeft(freq, d) / FREF;
      Setting(m, d + 1, ShiftRight(Wrap(Wrap(FREF * m) + ShiftLeft(1, d - 1)), d))
  }

  // `fll_get_frequency_from_mult_div`
  function ReadBack(mult: nat, div: nat): int
    requires div <= 32
  {
    if div == 0 then Wrap(FREF * mult) else ShiftRight(Wrap(FREF * mult), div - 1)
  }

  // ---------------------------------------------------------------- arithmetic

  lemma {:induction false} Pow2Add(a: nat, b: nat)
    ensures Pow2(a + b) == Pow2(a) * Pow2(b)
    decreases b
  {
    if b > 0 {
      Pow2Add(a, b - 1);
      assert Pow2(a + b) == 2 * Pow2(a + (b - 1));
    }
  }

  lemma {:induction false} Pow2Mono(a: nat, b: nat)
    requires a <= b
    ensures Pow2(a) <= Pow2(b)
    decreases b
  {
    if a < b {
      Pow2Mono(a, b - 1);
    }
  }

  // 2^k <= x < 2^(k + 1) determines k.
  lemma HighestBitIs(x: nat, k: nat)
    requires Pow2(k) <= x < Pow2(k + 1)
    ensures x > 0 && HighestBit(x) == k
  {
    var h := HighestBit(x);
    if h < k {
      Pow2Mono(h + 1, k);
    } else if k < h {
      Pow2Mono(k + 1, h);
    }
  }

  lemma Thirty()
    ensures Pow2(15) == FREF && Pow2(30) == 0x4000_0000 && Pow2(31) == 0x8000_0000 && Pow2(32) == WORD
  {
    assert Pow2(8) == 256;
    Pow2Add(8, 7);
    assert Pow2(7) == 128;
    Pow2Add(15, 15);
  }

  // The quotient of x * p by p * g, rounded down, is that of x by g.
  lemma CancelFactor(x: nat, p: nat, g: nat)
    requires p > 0 && g > 0
    ensures p * g > 0 && x * p / (p * g) == x / g
  {
    var q, r := x / g, x % g;
    assert x == q * g + r;
    assert x * p == q * (p * g) + r * p;
    assert 0 <= r * p < p * g by {
      assert r * p <= (g - 1) * p;
    }
    Quotient(x * p, p * g, q, r * p);
  }

  // ---------------------------------------------------------------- the setting

  lemma HighestBitBelow(freq: nat, n: nat)
    requires freq > 0
    ensures HighestBit(freq) < n <==> freq < Pow2(n)
  {
    var k := HighestBit(freq);
    if k < n {
      Pow2Mono(k + 1, n);
    } else {
      Pow2Mono(n, k);
    }
  }

  lemma HalfIs(k: int)
    requires 0 <= k < 32
    ensures Half(k) == if k <= 29 then (29 - k) / 2 else 0x7FFF_FFFF
  {
    assert Wrap(k - LOG2_REFCLK) == if k >= 15 then k - 15 else k - 15 + WORD;
    assert Wrap(LOG2_MAXM - Wrap(k - LOG2_REFCLK)) == if k <= 29 then 29 - k else 29 - k + WORD;
  }

  /** The computation is defined for frequencies of 1 Hz up to 2^30 Hz and no others: from
      there on the unsigned difference of logarithms wraps around. */
  lemma DefinedExactly(freq: nat)
    requires freq < WORD
    ensures MultDiv(freq) != Undefined <==> 1 <= freq < 0x4000_0000
  {
    hide Half, HighestBit, Pow2, ShiftLeft, ShiftRight, Wrap;
    if freq > 0 {
      Thirty();
      HighestBitBelow(freq, 30);
      HighestBitBelow(freq, 32);
      HalfIs(HighestBit(freq));
    }
  }

  predicate Settable(freq: nat) {
    1 <= freq < 0x4000_0000
  }

  lemma DividerIs(freq: nat)
    requires Settable(freq)
    ensures var k, d := HighestBit(freq), Divider(freq);
      && 0 <= k <= 29 && 1 <= d <= 14 && 28 <= k + 2 * d && k + d <= 30
      && d == if k >= 28 then 1 else (29 - k) / 2
  {
    hide Half, HighestBit, Pow2, Wrap;
    Thirty();
    HighestBitBelow(freq, 30);
    HalfIs(HighestBit(freq));
  }

  // Frequencies that can be set with the divider for `freq` are multiples of this.
  function Grid(freq: nat): (g: nat)
    requires Settable(freq)
    ensures g > 0
  {
    DividerIs(freq);
    Pow2(15 - Divider(freq))
  }

  lemma GridTimes(freq: nat)
    requires Settable(freq)
    ensures Pow2(Divider(freq)) * Grid(freq) == FREF
  {
    hide Divider, Pow2;
    DividerIs(freq);
    Thirty();
    Pow2Add(Divider(freq), 15 - Divider(freq));
  }

  lemma NoOverflow(freq: nat)
    requires Settable(freq)
    ensures freq * Pow2(Divider(freq)) < 0x8000_0000
  {
    hide Divider, Pow2, HighestBit;
    DividerIs(freq);
    Thirty();
    var k, d := HighestBit(freq), Divider(freq);
    Pow2Add(k + 1, d);
    Pow2Mono(k + 1 + d, 31);
    TimesLess(freq, Pow2(k + 1), Pow2(d));
  }

  lemma TimesLess(x: nat, y: nat, p: nat)
    requires x < y && p > 0
    ensures x * p < y * p
  {
  }

  // Adding half a divider does not change an exact quotient.
  lemma Rounded(p: nat, h: nat, y: nat)
    requires p == 2 * h && h > 0
    ensures (p * y + h) / p == y && p * y / p == y
  {
    Quotient(p * y + h, p, y, h);
    Quotient(p * y, p, y, 0);
  }

  lemma HalfDivider(d: nat)
    requires 1 <= d <= 14
    ensures Pow2(d) == 2 * Pow2(d - 1) && Pow2(d - 1) <= 0x8000
  {
    hide HighestBit;
    Thirty();
    Pow2Mono(d - 1, 15);
  }

  // The multiplier with the wrap-arounds gone.
  lemma MultIs(freq: nat)
    requires Settable(freq)
    ensures ShiftLeft(freq, Divider(freq)) / FREF == freq / Grid(freq) < 0x1_0000
    ensures FREF * (freq / Grid(freq)) == Pow2(Divider(freq)) * (freq / Grid(freq) * Grid(freq)) < 0x8000_0000
  {
    hide Divider, Pow2, Grid;
    GridTimes(freq);
    NoOverflow(freq);
    var p, g := Pow2(Divider(freq)), Grid(freq);
    CancelFactor(freq, p, g);
    assert ShiftLeft(freq, Divider(freq)) == freq * p;
    TimesSwap(p, g, freq / g);
  }

  lemma TimesSwap(p: int, g: int, m: int)
    ensures p * g * m == p * (m * g)
  {
  }

  /** Mult is the requested frequency in units of the grid, rounded down; no step overflows,
      both factors fit their fields, and reading them back gives exactly the predicted
      frequency. */
  lemma Settings(freq: nat)
    requires Settable(freq)
    ensures MultDiv(freq) == Setting(freq / Grid(freq), Divider(freq) + 1, freq / Grid(freq) * Grid(freq))
    ensures 0 <= freq / Grid(freq) < 0x1_0000 && 2 <= Divider(freq) + 1 <= 15
    ensures ReadBack(freq / Grid(freq), Divider(freq) + 1) == freq / Grid(freq) * Grid(freq)
  {
    hide Divider, Pow2, Grid;
    DividerIs(freq);
    MultIs(freq);
    var d, g := Divider(freq), Grid(freq);
    var m := freq / g;
    HalfDivider(d);
    Rounded(Pow2(d), Pow2(d - 1), m * g);
  }

  /** The frequency set is the best from below that this divider allows; it misses the
      request by less than Fref / 2^(Div - 1) and by less than twice its square root. */
  lemma ErrorBound(freq: nat)
    requires Settable(freq)
    ensures var s := MultDiv(freq);
      && s.Setting?
      && 0 <= freq - s.fres < Grid(freq)
      && Pow2(s.div - 1) * Grid(freq) == FREF
      && (forall m: nat :: m * Grid(freq) <= freq ==> m <= s.mult)
      && (freq - s.fres) * (freq - s.fres) < 4 * freq
  {
    hide Divider, Pow2, Grid, MultDiv, ReadBack;
    Settings(freq);
    GridTimes(freq);
    GridSquare(freq);
    RoundDown(freq, Grid(freq));
  }

  lemma RoundDown(x: nat, g: nat)
    requires g > 0
    ensures 0 <= x - x / g * g < g
    ensures (x - x / g * g) * (x - x / g * g) < g * g
    ensures forall m: nat :: m * g <= x ==> m <= x / g
  {
    var e := x % g;
    assert x == x / g * g + e;
    TimesLessBoth(e, g);
    forall m: nat | m * g <= x ensures m <= x / g {
      if m > x / g {
        TimesMono(x / g + 1, m, g);
      }
    }
  }

  lemma OnGrid(x: nat, g: nat)
    requires g > 0
    ensures x / g * g == x <==> x % g == 0
  {
    assert x == x / g * g + x % g;
  }

  lemma TimesLessBoth(e: nat, g: nat)
    requires e < g
    ensures e * e < g * g
  {
  }

  lemma GridSquare(freq: nat)
    requires Settable(freq)
    ensures Grid(freq) * Grid(freq) <= 4 * freq
  {
    hide Divider, Pow2, HighestBit;
    DividerIs(freq);
    var k, d := HighestBit(freq), Divider(freq);
    Pow2Add(15 - d, 15 - d);
    Pow2Mono(15 - d + (15 - d), k + 2);
    Pow2Add(k, 2);
    PowTwo();
  }

  lemma PowTwo()
    ensures Pow2(0) == 1 && Pow2(1) == 2 && Pow2(2) == 4
  {
  }

  /** Programming the frequency that was reached changes nothing any more, except that a
      request for 1 Hz is answered with a stopped clock. */
  lemma Reprogrammed(freq: nat)
    requires Settable(freq)
    ensures MultDiv(freq).Setting? && MultDiv(freq).fres >= 0 && (MultDiv(freq).fres == 0 <==> freq == 1)
    ensures MultDiv(MultDiv(freq).fres) == MultDiv(freq) <==> freq != 1
  {
    hide Divider, Pow2, Grid, ReadBack, HighestBit, MultDiv;
    Settings(freq);
    if freq == 1 {
      OneHertz();
    } else {
      var f := Floor(freq, Grid(freq));
      SameOctave(freq);
      Settings(f);
      Quotient(f, Grid(freq), freq / Grid(freq), 0);
    }
  }

  lemma OneHertz()
    ensures Grid(1) == 2 && MultDiv(0) == Undefined
  {
    DividerIs(1);
    PowTwo();
  }

  // The largest multiple of `g` that is not above `x`.
  function Floor(x: nat, g: nat): (f: nat)
    requires g > 0
    ensures f == x / g * g
  {
    Quotients(x, g);
    x / g * g
  }

  lemma Quotients(x: nat, g: nat)
    requires g > 0
    ensures x / g >= 0 && x / g * g >= 0
  {
  }

  // Rounding down to the grid keeps the highest bit and with it the divider.
  lemma SameOctave(freq: nat)
    requires Settable(freq) && freq > 1
    ensures var f := Floor(freq, Grid(freq));
      Settable(f) && HighestBit(f) == HighestBit(freq) && Divider(f) == Divider(freq) && Grid(f) == Grid(freq)
  {
    hide Pow2, Half, HighestBit;
    FloorOctave(freq);
    var f := Floor(freq, Grid(freq));
    HighestBitIs(f, HighestBit(freq));
  }

  lemma FloorOctave(freq: nat)
    requires Settable(freq) && freq > 1
    ensures Pow2(HighestBit(freq)) <= Floor(freq, Grid(freq)) <= freq < Pow2(HighestBit(freq) + 1)
  {
    hide Pow2, Half, HighestBit, Divider;
    DividerIs(freq);
    HighestBitBelow(freq, 1);
    PowTwo();
    var k, e, g := HighestBit(freq), 15 - Divider(freq), Grid(freq);
    Pow2Add(k - e, e);
    RoundDown(freq, g);
    TimesMono(Pow2(k - e), freq / g, g);
  }

  lemma TimesMono(x: nat, y: nat, g: nat)
    requires x <= y
    ensures x * g <= y * g
  {
  }

  // A word converted to a signed number.
  function Signed(x: int): int {
    if x < 0x8000_0000 then x else x - WORD
  }

  lemma ShiftBetween(x: nat, n: nat)
    ensures var r := ShiftRight(x, n); 0 <= r && r * Pow2(n) <= x < (r + 1) * Pow2(n)
  {
    hide Pow2;
    RoundDown(x, Pow2(n));
    Quotients(x, Pow2(n));
  }

  /** For all values of the fields: FreqOut = Fref * Mult / 2^(Div - 1), rounded down, and
      without a division for Div 0. */
  lemma ReadBackIs(mult: nat, div: nat)
    requires mult < 0x1_0000 && div < 0x10
    ensures var r := ReadBack(mult, div);
      if div == 0 then r == 32768 * mult else 0 <= r && r * Pow2(div - 1) <= 32768 * mult < (r + 1) * Pow2(div - 1)
  {
    hide Pow2, ShiftRight;
    if div > 0 {
      ShiftBetween(32768 * mult, div - 1);
    }
  }

  // Whatever was measured is a word.
  lemma ReadBackWord(mult: nat, div: nat)
    requires div <= 32
    ensures IsWord(ReadBack(mult, div))
  {
    hide Pow2, ShiftRight, Wrap;
    if div > 0 {
      var x := Wrap(FREF * mult);
      ShiftBetween(x, div - 1);
      NotAbove(ShiftRight(x, div - 1), Pow2(div - 1), x);
    }
  }

  lemma NotAbove(r: int, p: int, x: int)
    requires 0 <= r && 1 <= p && r * p <= x
    ensures r <= x
  {
  }

  // ---------------------------------------------------------------- registers

  // Multiplier, DCO input, output divider, lock enable and mode of FLL_CONF1.
  function MultField(reg: int): int { reg % 0x1_0000 }
  function DcoField(reg: int): int { reg / 0x1_0000 % 0x400 }
  function DivField(reg: int): int { reg / 0x400_0000 % 0x10 }
  function HighFields(reg: int): int { reg / 0x4000_0000 }

  // reg & ~MASK | REG_SET(field, v), for both fields
  function WithMult(reg: int, v: int): int {
    reg - MultField(reg) + v % 0x1_0000
  }

  function WithDiv(reg: int, v: int): int {
    reg - DivField(reg) * 0x400_0000 + v % 0x10 * 0x400_0000
  }

  /** The update puts the bits of both factors that fit where they are read back and keeps the
      other fields. */
  lemma RegisterUpdate(reg: int, mult: int, div: int)
    requires IsWord(reg)
    ensures var r := WithDiv(WithMult(reg, mult), div);
      IsWord(r) && MultField(r) == mult % 0x1_0000 && DivField(r) == div % 0x10
      && DcoField(r) == DcoField(reg) && HighFields(r) == HighFields(reg)
  {
    hide MultField, DcoField, DivField, HighFields, Fields, WithMult, WithDiv;
    var low, dco, d, high := MultField(reg), DcoField(reg), DivField(reg), HighFields(reg);
    Decompose(reg);
    WithMultIs(low, dco, d, high, mult);
    WithDivIs(mult % 0x1_0000, dco, d, high, div);
    Compose(mult % 0x1_0000, dco, div % 0x10, high);
  }

  lemma WithMultIs(low: int, dco: int, d: int, high: int, v: int)
    requires 0 <= low < 0x1_0000 && 0 <= dco < 0x400 && 0 <= d < 0x10 && 0 <= high < 4
    ensures WithMult(Fields(low, dco, d, high), v) == Fields(v % 0x1_0000, dco, d, high)
  {
    hide MultField, DcoField, DivField, HighFields;
    Compose(low, dco, d, high);
  }

  lemma WithDivIs(low: int, dco: int, d: int, high: int, v: int)
    requires 0 <= low < 0x1_0000 && 0 <= dco < 0x400 && 0 <= d < 0x10 && 0 <= high < 4
    ensures WithDiv(Fields(low, dco, d, high), v) == Fields(low, dco, v % 0x10, high)
  {
    hide MultField, DcoField, DivField, HighFields;
    Compose(low, dco, d, high);
  }

  function Fields(low: int, dco: int, d: int, high: int): int {
    low + 0x1_0000 * dco + 0x400_0000 * d + 0x4000_0000 * high
  }

  lemma Decompose(reg: int)
    requires IsWord(reg)
    ensures reg == Fields(MultField(reg), DcoField(reg), DivField(reg), HighFields(reg))
    ensures 0 <= MultField(reg) < 0x1_0000 && 0 <= DcoField(reg) < 0x400
    ensures 0 <= DivField(reg) < 0x10 && 0 <= HighFields(reg) < 4
  {
    assert reg / 0x1_0000 / 0x400 == reg / 0x400_0000;
    assert reg / 0x400_0000 / 0x10 == reg / 0x4000_0000;
  }

  lemma Compose(low: int, dco: int, d: int, high: int)
    requires 0 <= low < 0x1_0000 && 0 <= dco < 0x400 && 0 <= d < 0x10 && 0 <= high < 4
    ensures var r := Fields(low, dco, d, high);
      IsWord(r) && MultField(r) == low && DcoField(r) == dco && DivField(r) == d && HighFields(r) == high
  {
    var r := Fields(low, dco, d, high);
    assert r / 0x1_0000 == dco + 0x400 * (d + 0x10 * high);
    assert r / 0x400_0000 == d + 0x10 * high;
  }

  class Flls {
    // FLL_CONF1 and FLL_STATUS of each loop, and the software copy of the frequencies.
    const conf1: array<int>
    const status: array<int>
    const frequency: array<int>

    ghost predicate Valid()
      reads this, conf1, status, frequency
    {
      && conf1.Length == status.Length == frequency.Length
      && conf1 != status && conf1 != frequency && status != frequency
      && (forall i :: 0 <= i < conf1.Length ==> IsWord(conf1[i]) && IsWord(status[i]) && IsWord(frequency[i]))
    }

    constructor (count: nat)
      ensures Valid() && conf1.Length == count && fresh(conf1) && fresh(status) && fresh(frequency)
    {
      conf1 := new int[count](_ => 0);
      status := new int[count](_ => 0);
      frequency := new int[count](_ => 0);
    }

    /** `pi_fll_set_frequency`: programs the nearest setting from below, but returns and
        remembers the frequency asked for. */
    method SetFrequency(which: nat, freq: nat) returns (result: int)
      requires Valid() && which < conf1.Length && Settable(freq)
      modifies conf1, frequency
      ensures Valid() && result == freq
      // the frequency reached is the one returned exactly on the grid of the divider
      ensures MultDiv(freq).Setting? && (result == MultDiv(freq).fres <==> freq % Grid(freq) == 0)
      ensures frequency[..] == old(frequency[..])[which := freq]
      ensures conf1[..] == old(conf1[..])[which := conf1[which]]
      ensures MultDiv(freq).Setting?
      ensures MultField(conf1[which]) == MultDiv(freq).mult && DivField(conf1[which]) == MultDiv(freq).div
      ensures DcoField(conf1[which]) == old(DcoField(conf1[which]))
      ensures HighFields(conf1[which]) == old(HighFields(conf1[which]))
      // once the loop reports the multiplier as reached, what is measured is the setting
      ensures ReadBack(MultField(conf1[which]), DivField(conf1[which])) == MultDiv(freq).fres
    {
      hide MultDiv, ReadBack, WithMult, WithDiv, MultField, DivField, DcoField, HighFields, Grid, Divider;
      Settings(freq);
      OnGrid(freq, Grid(freq));
      var s := MultDiv(freq);
      var reg1 := conf1[which];
      RegisterUpdate(reg1, s.mult, s.div);
      reg1 := WithMult(reg1, s.mult);
      reg1 := WithDiv(reg1, s.div);
      conf1[which] := reg1;
      frequency[which] := freq;
      result := freq;
    }

    /** `pi_fll_get_frequency`: the frequency measured from the reported multiplier, which is
        then remembered, or the one remembered. It is returned as a signed number. */
    method GetFrequency(which: nat, measured: bool) returns (result: int)
      requires Valid() && which < conf1.Length
      modifies frequency
      ensures Valid() && -0x8000_0000 <= result < 0x8000_0000 && (result - frequency[which]) % 0x1_0000_0000 == 0
      ensures frequency[..] == old(frequency[..])[which :=
        if measured then ReadBack(status[which], DivField(conf1[which])) else old(frequency[which])]
    {
      if measured {
        ReadBackWord(status[which], DivField(conf1[which]));
        frequency[which] := ReadBack(status[which], DivField(conf1[which]));
      }
      result := Signed(frequency[which]);
    }
  }
}
