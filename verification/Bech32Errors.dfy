/**
 * Two substitutions in a Bech32 text. The checksum is linear over the field of 32 elements, not
 * only over GF(2): so whether two errors can cancel is read off the run of a single 1.
 */
module Bech32Errors {
  import opened Wrappers
  import opened Bech32

  /** The checksum word n zeros on. */
  function Run(w: bv32, n: nat): bv32 {
    if n == 0 then w else Shift(Run(w, n - 1))
  }

  lemma RunNone(w: bv32)
    ensures Run(w, 0) == w
  {
  }

  lemma RunNext(w: bv32, n: nat)
    ensures Run(w, n + 1) == Shift(Run(w, n))
  {
  }

  lemma {:induction false} RunSum(w: bv32, a: nat, b: nat)
    ensures Run(w, a + b) == Run(Run(w, a), b)
  {
    hide Shift;
    if b > 0 {
      RunSum(w, a, b - 1);
    }
  }

  lemma {:induction false} RunBounded(w: bv32, n: nat)
    requires w < BOUND
    ensures Run(w, n) < BOUND
  {
    hide Shift;
    if n > 0 {
      ShiftBounded(Run(w, n - 1));
    }
  }

  lemma ShiftBounded(w: bv32)
    ensures Shift(w) < BOUND
  {
  }

  // ---- the field ------------------------------------------------------------------------------

  /** The bits that leave their symbols when each symbol is doubled. */
  function High(w: bv32): bv32 {
    (w >> 4) & 0x2108421
  }

  function Doubled(w: bv32): bv32 {
    (w & 0x1ef7bdef) << 1
  }

  function Eightfold(w: bv32): bv32 {
    w << 3
  }

  function Reduced(high: bv32): bv32 {
    Xor(high, Eightfold(high))
  }

  /** Each of the six symbols of a word times the generator of the field, a root of x^5 + x^3 + 1. */
  function Times(w: bv32): bv32 {
    Xor(Doubled(w), Reduced(High(w)))
  }

  function TimesSymbol(x: bv5): bv5 {
    (x << 1) ^ if x & 16 != 0 then 9 else 0
  }

  lemma HighLinear(a: bv32, b: bv32)
    ensures High(Xor(a, b)) == Xor(High(a), High(b))
  {
  }

  lemma DoubledLinear(a: bv32, b: bv32)
    ensures Doubled(Xor(a, b)) == Xor(Doubled(a), Doubled(b))
  {
  }

  lemma EightfoldLinear(a: bv32, b: bv32)
    ensures Eightfold(Xor(a, b)) == Xor(Eightfold(a), Eightfold(b))
  {
  }

  lemma TimesLinear(a: bv32, b: bv32)
    ensures Times(Xor(a, b)) == Xor(Times(a), Times(b))
  {
    hide High, Doubled, Eightfold, Xor;
    HighLinear(a, b);
    DoubledLinear(a, b);
    EightfoldLinear(High(a), High(b));
    XorPairs(High(a), High(b), Eightfold(High(a)), Eightfold(High(b)));
    XorPairs(Doubled(a), Doubled(b), Reduced(High(a)), Reduced(High(b)));
  }

  lemma TimesLow(w: bv32)
    ensures Times(Low(w)) == Low(Times(w))
  {
  }

  lemma TimesTop(w: bv32)
    requires w < BOUND
    ensures Top(Times(w)) == TimesSymbol(Top(w))
  {
  }

  lemma TimesFeedback(x: bv5)
    ensures Times(Feedback(x)) == Feedback(TimesSymbol(x))
  {
  }

  /** One step of the checksum is linear over the field. */
  lemma TimesShift(w: bv32)
    requires w < BOUND
    ensures Times(Shift(w)) == Shift(Times(w))
  {
    hide Times, Low, Top, Feedback, Xor, TimesSymbol;
    TimesLinear(Low(w), Feedback(Top(w)));
    TimesLow(w);
    TimesTop(w);
    TimesFeedback(Top(w));
  }

  lemma TimesSmall(w: bv32)
    requires w < BOUND
    ensures Times(w) < BOUND && (Times(w) < 32 <==> w < 32)
  {
  }

  lemma {:induction false} TimesRun(w: bv32, n: nat)
    requires w < BOUND
    ensures Run(Times(w), n) == Times(Run(w, n))
  {
    hide Times, Shift;
    if n > 0 {
      TimesRun(w, n - 1);
      RunBounded(w, n - 1);
      TimesShift(Run(w, n - 1));
    }
  }

  // ---- the run of a single 1 ------------------------------------------------------------------

  /** From w to end in eight steps, none of them to a word of one symbol. */
  ghost predicate Wide(w: bv32, end: bv32) {
    Run(w, 8) == end && forall d :: 1 <= d <= 8 ==> Run(w, d) >= 32
  }

  lemma EightSteps(a: bv32, b: bv32, c: bv32, d: bv32, e: bv32, f: bv32, g: bv32, h: bv32, i: bv32)
    requires Shift(a) == b && Shift(b) == c && Shift(c) == d && Shift(d) == e
    requires Shift(e) == f && Shift(f) == g && Shift(g) == h && Shift(h) == i
    requires b >= 32 && c >= 32 && d >= 32 && e >= 32 && f >= 32 && g >= 32 && h >= 32 && i >= 32
    ensures Wide(a, i)
  {
    hide Shift, Run;
    RunNone(a);
    RunNext(a, 0);
    RunNext(a, 1);
    RunNext(a, 2);
    RunNext(a, 3);
    RunNext(a, 4);
    RunNext(a, 5);
    RunNext(a, 6);
    RunNext(a, 7);
    forall n | 1 <= n <= 8 ensures Run(a, n) >= 32 {
      assert n == 1 || n == 2 || n == 3 || n == 4 || n == 5 || n == 6 || n == 7 || n == 8;
    }
  }

  /** Every eighth word of the run. */
  const MARKS: seq<bv32> :=
    [0x1, 0x424df38, 0x714461b, 0x3c1fc3a8, 0x1a5588bf, 0x2418480a,
     0x20d4cef0, 0x2b524659, 0x2740d4a7, 0x3ad4dafa, 0x33295b93, 0x145b223e]

  lemma FirstMarks(k: nat)
    requires 0 <= k < 3
    ensures Wide(MARKS[k], MARKS[k + 1])
  {
    hide Wide;
    if k == 0 {
      EightSteps(0x1, 0x20, 0x400, 0x8000, 0x100000,
                 0x2000000, 0x3b6a57b2, 0x1fd7e966, 0x424df38);
    } else if k == 1 {
      EightSteps(0x424df38, 0x22cb696d, 0x81318a1, 0x1cc20dda, 0x1df21f0a,
                 0x3bf0450a, 0xc95be66, 0x2a465b57, 0x714461b);
    } else {
      EightSteps(0x714461b, 0x3fb21abf, 0x228ec6ab, 0xa6e061, 0x14dc0c20,
                 0x9339b0, 0x12673600, 0xacea46f, 0x3c1fc3a8);
    }
  }

  lemma SecondMarks(k: nat)
    requires 3 <= k < 6
    ensures Wide(MARKS[k], MARKS[k + 1])
  {
    hide Wide;
    if k == 3 {
      EightSteps(0x3c1fc3a8, 0x2c5fb3f9, 0x19138a04, 0x1926aa7, 0x324d54e0,
                 0x25969adc, 0x3e97b75e, 0x63b7a8b, 0x1a5588bf);
    } else if k == 4 {
      EightSteps(0x1a5588bf, 0x12386a75, 0x1252acf, 0x24a559e0, 0x18efd0de,
                 0x3e1931e7, 0x17ebadab, 0x1d0d5f62, 0x2418480a);
    } else {
      EightSteps(0x2418480a, 0xf4ded9e, 0x2a2673e5, 0xb11505b, 0x7e14528,
                 0x21127cdf, 0x85bf953, 0x15de339a, 0x20d4cef0);
    }
  }

  lemma ThirdMarks(k: nat)
    requires 6 <= k < 9
    ensures Wide(MARKS[k], MARKS[k + 1])
  {
    hide Wide;
    if k == 6 {
      EightSteps(0x20d4cef0, 0x308dbcb3, 0x6e1c70e, 0x102381f, 0x204703e0,
                 0x22f41eb3, 0xffde361, 0x3c27ac05, 0x2b524659);
    } else if k == 7 {
      EightSteps(0x2b524659, 0x2597e7db, 0x3eb817be, 0x3cf668b, 0x28686d2,
                 0x2bba8df2, 0x388e92bb, 0x18251ff4, 0x2740d4a7);
    } else {
      EightSteps(0x2740d4a7, 0x1f342f8c, 0x185c0278, 0x28636527, 0x38d9dfa9,
                 0x12ccbdb4, 0x1fbfd2ef, 0x923ae18, 0x3ad4dafa);
    }
  }

  lemma LastMarks(k: nat)
    requires 9 <= k < 11
    ensures Wide(MARKS[k], MARKS[k + 1])
  {
    hide Wide;
    if k == 9 {
      EightSteps(0x3ad4dafa, 0x28064066, 0x347d7789, 0x3ea82e23, 0x1c8552b,
                 0x390aa560, 0x28a3e494, 0x20c9e9c9, 0x33295b93);
    } else {
      EightSteps(0x33295b93, 0x91774bc, 0x3c4f8e7a, 0x265609b9, 0x3def8c4c,
                 0x12564f79, 0xce18b4f, 0x24c0fe77, 0x145b223e);
    }
  }

  lemma MarksWide(k: nat)
    requires k < 11
    ensures Wide(MARKS[k], MARKS[k + 1])
  {
    hide Wide;
    if k < 3 {
      FirstMarks(k);
    } else if k < 6 {
      SecondMarks(k);
    } else if k < 9 {
      ThirdMarks(k);
    } else {
      LastMarks(k);
    }
  }

  lemma {:induction false} AtMark(k: nat)
    requires k <= 11
    ensures Run(1, 8 * k) == MARKS[k]
  {
    hide Shift;
    if k > 0 {
      AtMark(k - 1);
      MarksWide(k - 1);
      RunSum(1, 8 * (k - 1), 8);
    }
  }

  lemma OneRunsWide(d: nat)
    requires 1 <= d <= 88
    ensures Run(1, d) >= 32
  {
    hide Shift, Run;
    var k := (d - 1) / 8;
    AtMark(k);
    MarksWide(k);
    RunSum(1, 8 * k, d - 8 * k);
  }

  predicate RunsWide(x: bv32, d: nat) {
    Run(x, d) >= 32
  }

  lemma NextWide(x: bv32, d: nat)
    requires x < BOUND && RunsWide(x, d)
    ensures RunsWide(Times(x), d)
  {
    hide Times, Run, Shift;
    TimesRun(x, d);
    RunBounded(x, d);
    TimesSmall(Run(x, d));
  }

  lemma FirstProducts()
    ensures Times(1) == 2 && Times(2) == 4 && Times(4) == 8 && Times(8) == 16 && Times(16) == 9
    ensures Times(9) == 18 && Times(18) == 13 && Times(13) == 26 && Times(26) == 29 && Times(29) == 19
    ensures Times(19) == 15 && Times(15) == 30 && Times(30) == 21 && Times(21) == 3 && Times(3) == 6
  {
  }

  lemma LastProducts()
    ensures Times(6) == 12 && Times(12) == 24 && Times(24) == 25 && Times(25) == 27 && Times(27) == 31
    ensures Times(31) == 23 && Times(23) == 7 && Times(7) == 14 && Times(14) == 28 && Times(28) == 17
    ensures Times(17) == 11 && Times(11) == 22 && Times(22) == 5 && Times(5) == 10 && Times(10) == 20
  {
  }

  lemma FirstPowers(d: nat)
    requires RunsWide(1, d)
    ensures RunsWide(2, d) && RunsWide(4, d) && RunsWide(8, d) && RunsWide(16, d) && RunsWide(9, d)
    ensures RunsWide(18, d) && RunsWide(13, d) && RunsWide(26, d) && RunsWide(29, d) && RunsWide(19, d)
    ensures RunsWide(15, d) && RunsWide(30, d) && RunsWide(21, d) && RunsWide(3, d) && RunsWide(6, d)
  {
    hide Run, Times, RunsWide;
    FirstProducts();
    NextWide(1, d); NextWide(2, d); NextWide(4, d); NextWide(8, d); NextWide(16, d); NextWide(9, d);
    NextWide(18, d); NextWide(13, d); NextWide(26, d); NextWide(29, d); NextWide(19, d); NextWide(15, d);
    NextWide(30, d); NextWide(21, d); NextWide(3, d);
  }

  lemma LastPowers(d: nat)
    requires RunsWide(6, d)
    ensures RunsWide(12, d) && RunsWide(24, d) && RunsWide(25, d) && RunsWide(27, d) && RunsWide(31, d)
    ensures RunsWide(23, d) && RunsWide(7, d) && RunsWide(14, d) && RunsWide(28, d) && RunsWide(17, d)
    ensures RunsWide(11, d) && RunsWide(22, d) && RunsWide(5, d) && RunsWide(10, d) && RunsWide(20, d)
  {
    hide Run, Times, RunsWide;
    LastProducts();
    NextWide(6, d); NextWide(12, d); NextWide(24, d); NextWide(25, d); NextWide(27, d); NextWide(31, d);
    NextWide(23, d); NextWide(7, d); NextWide(14, d); NextWide(28, d); NextWide(17, d); NextWide(11, d);
    NextWide(22, d); NextWide(5, d); NextWide(10, d);
  }

  /** No error of one symbol is down to one symbol again within 88 steps: each is a power of the generator. */
  lemma SymbolRunsWide(x: bv32, d: nat)
    requires 0 < x < 32 && 1 <= d <= 88
    ensures Run(x, d) >= 32
  {
    hide Run;
    OneRunsWide(d);
    FirstPowers(d);
    LastPowers(d);
  }

  // ---- two errors -----------------------------------------------------------------------------

  /** Two states under the same values differ by the run of their difference. */
  lemma {:induction false} DifferenceRuns(a: bv32, b: bv32, values: seq<bv8>)
    ensures Xor(Polymod(a, values), Polymod(b, values)) == Run(Xor(a, b), |values|)
  {
    hide Shift, Xor, Widen;
    if values != [] {
      var front, v := values[..|values| - 1], values[|values| - 1];
      DifferenceRuns(a, b, front);
      var p, q := Polymod(a, front), Polymod(b, front);
      ShiftLinear(p, q);
      StepDifference(p, q, v, v);
      XorUnits(Widen(v));
      XorUnits(Shift(Xor(p, q)));
    }
  }

  lemma StepDifference(p: bv32, q: bv32, v: bv8, w: bv8)
    ensures Xor(Step(p, v), Step(q, w)) == Xor(Shift(Xor(p, q)), Xor(Widen(v), Widen(w)))
  {
    hide Shift, Xor, Widen;
    ShiftLinear(p, q);
    XorPairs(Shift(p), Widen(v), Shift(q), Widen(w));
  }

  lemma SymbolDifference(x: bv8, y: bv8)
    requires x < 32 && y < 32
    ensures Xor(Widen(x), Widen(y)) < 32 && (Xor(Widen(x), Widen(y)) == 0 ==> x == y)
  {
  }

  lemma XorDiffers(a: bv32, b: bv32)
    ensures a != b ==> Xor(a, b) != 0
  {
  }

  /** Changing two symbols no more than 88 places apart always changes the checksum word. */
  lemma TwoErrorsDetected(before: seq<bv8>, x: bv8, x': bv8, mid: seq<bv8>, y: bv8, y': bv8, after: seq<bv8>)
    requires x < 32 && x' < 32 && y < 32 && y' < 32 && x != x' && |mid| <= 87
    ensures Polymod(1, before + [x] + mid + [y] + after) != Polymod(1, before + [x'] + mid + [y'] + after)
  {
    hide Shift, Xor, Widen, Polymod, Run;
    var state := Polymod(1, before);
    var s, s' := Step(state, x), Step(state, x');
    var m, m' := Polymod(s, mid), Polymod(s', mid);
    var dx, dy := Xor(Widen(x), Widen(x')), Xor(Widen(y), Widen(y'));
    Unrolled(before, x, mid, y, after);
    Unrolled(before, x', mid, y', after);
    StepDifference(state, state, x, x');
    XorUnits(state);
    ShiftZero();
    XorUnits(dx);
    XorCommutes(0, dx);
    DifferenceRuns(s, s', mid);
    StepDifference(m, m', y, y');
    SymbolDifference(x, x');
    SymbolDifference(y, y');
    RunNext(dx, |mid|);
    SymbolRunsWide(dx, |mid| + 1);
    XorDiffers(Run(dx, |mid| + 1), dy);
    XorUnits(Step(m, y));
    StepBounded(m, y);
    StepBounded(m', y');
    PolymodInjective(Step(m, y), Step(m', y'), after);
  }

  lemma ShiftZero()
    ensures Shift(0) == 0
  {
  }

  lemma Unrolled(before: seq<bv8>, x: bv8, mid: seq<bv8>, y: bv8, after: seq<bv8>)
    ensures Polymod(1, before + [x] + mid + [y] + after)
            == Polymod(Step(Polymod(Step(Polymod(1, before), x), mid), y), after)
  {
    hide Step;
    PolymodConcat(1, before + [x] + mid + [y], after);
    PolymodSnoc(1, before + [x] + mid, y);
    PolymodConcat(1, before + [x], mid);
    PolymodSnoc(1, before, x);
  }

  // ---- two substitutions ----------------------------------------------------------------------

  lemma ValuesAround(before: seq<bv8>, s: seq<bv5>, k: nat, l: nat)
    requires k < l < |s|
    ensures before + Values(s)
            == (before + Values(s[..k])) + [Value(s[k])] + Values(s[k + 1..l]) + [Value(s[l])] + Values(s[l + 1..])
  {
  }

  /** The symbols of a text after two replacements. */
  lemma ReplacedIndices(rest: string, k: nat, l: nat, c: char, e: char)
    requires Indices(rest).Some? && k < l < |rest|
    ensures var good, bad := Indices(rest).value, Indices(rest[k := c][l := e]);
            bad.Some? ==>
              && |bad.value| == |good| && CharsetIndex(c) == Some(bad.value[k]) && CharsetIndex(e) == Some(bad.value[l])
              && bad.value[..k] == good[..k] && bad.value[k + 1..l] == good[k + 1..l]
              && bad.value[l + 1..] == good[l + 1..]
  {
    hide CharsetIndex, Indices;
    var other := rest[k := c][l := e];
    var good, bad := Indices(rest).value, Indices(other);
    if bad.Some? {
      assert CharsetIndex(other[k]) == Some(bad.value[k]) && CharsetIndex(other[l]) == Some(bad.value[l]);
      forall j | 0 <= j < |good| && j != k && j != l ensures bad.value[j] == good[j] {
        assert CharsetIndex(other[j]) == CharsetIndex(rest[j]);
      }
    }
  }

  lemma SymbolValue(a: bv5, b: bv5)
    ensures Value(a) < 32 && (Value(a) == Value(b) ==> a == b)
  {
  }

  /** Symbols that differ in two places, no more than 88 apart, never both have a valid checksum. */
  lemma TwoSymbolsDetected(before: seq<bv8>, good: seq<bv5>, bad: seq<bv5>, k: nat, l: nat)
    requires k < l < |good| == |bad| && l - k <= 88 && good[k] != bad[k]
    requires bad[..k] == good[..k] && bad[k + 1..l] == good[k + 1..l] && bad[l + 1..] == good[l + 1..]
    ensures Polymod(1, before + Values(good)) != Polymod(1, before + Values(bad))
  {
    hide Polymod, Value;
    ValuesAround(before, good, k, l);
    ValuesAround(before, bad, k, l);
    SymbolValue(good[k], bad[k]);
    SymbolValue(bad[k], good[k]);
    SymbolValue(good[l], bad[l]);
    SymbolValue(bad[l], good[l]);
    TwoErrorsDetected(before + Values(good[..k]), Value(good[k]), Value(bad[k]), Values(good[k + 1..l]),
                      Value(good[l]), Value(bad[l]), Values(good[l + 1..]));
  }

  /**
   * Replacing two symbols after the separator always makes the text invalid, if they are no more than
   * 88 places apart; a text within the 90 characters of BIP 173 has none further apart.
   */
  lemma TwoSubstitutionsRejected(text: string, i: nat, j: nat, c: char, e: char)
    requires Decode(text).Some? && LastOne(text) < i < j < |text| && j - i <= 88
    requires c != '1' && e != '1' && CharsetIndex(c) != CharsetIndex(text[i])
    ensures Decode(text[i := c][j := e]).None?
  {
    hide Polymod, PrefixValues, CharsetIndex, Value, Values, Indices, LastOne;
    var pos := LastOne(text);
    var other := text[i := c][j := e];
    var rest := text[pos + 1..];
    assert other[pos + 1..] == rest[i - pos - 1 := c][j - pos - 1 := e];
    LastOneIs(other, pos);
    assert other[..pos] == text[..pos];
    var good, bad := Indices(rest).value, Indices(other[pos + 1..]);
    ReplacedIndices(rest, i - pos - 1, j - pos - 1, c, e);
    if bad.Some? {
      assert CharsetIndex(rest[i - pos - 1]) == Some(good[i - pos - 1]);
      TwoSymbolsDetected(PrefixValues(text[..pos]), good, bad.value, i - pos - 1, j - pos - 1);
    }
  }
}
