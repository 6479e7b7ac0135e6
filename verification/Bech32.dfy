/**
 * Bech32 (address_encode.cpp, address_decode.cpp), the format of BIP 173. The checksum word
 * is linear over GF(2): that is what makes six symbols able to drive it to 1, and only them.
 */
module Bech32 {
  import opened Wrappers

  // ---- the checksum -----------------------------------------------------------------------

  function Xor(a: bv32, b: bv32): bv32 {
    a ^ b
  }

  /** A generator word, when the given bit of the top symbol is set. */
  function Tap(top: bv5, bit: bv5, generator: bv32): bv32 {
    if top & bit != 0 then generator else 0
  }

  /** The five generator words selected by the top symbol. */
  function Feedback(top: bv5): bv32 {
    Xor(Xor(Xor(Tap(top, 1, 0x3b6a57b2), Tap(top, 2, 0x26508e6d)),
            Xor(Tap(top, 4, 0x1ea119fa), Tap(top, 8, 0x3d4233dd))), Tap(top, 16, 0x2a1462b3))
  }

  function Low(chk: bv32): bv32 {
    (chk & 0x1ffffff) << 5
  }

  /** The five bits of `chk >> 25` that the generator loop looks at. */
  function Top(chk: bv32): bv5 {
    ((chk >> 25) & 31) as bv5
  }

  function Shift(chk: bv32): bv32 {
    Xor(Low(chk), Feedback(Top(chk)))
  }

  function Widen(value: bv8): bv32 {
    value as bv32
  }

  function Step(chk: bv32, value: bv8): bv32 {
    Xor(Shift(chk), Widen(value))
  }

  function Polymod(chk: bv32, values: seq<bv8>): bv32 {
    if values == [] then chk else Step(Polymod(chk, values[..|values| - 1]), values[|values| - 1])
  }

  const BOUND: bv32 := 0x4000_0000

  lemma StepBounded(a: bv32, v: bv8)
    ensures Step(a, v) < BOUND
  {
  }

  lemma LowLinear(a: bv32, b: bv32)
    ensures Low(Xor(a, b)) == Xor(Low(a), Low(b))
  {
  }

  lemma TopLinear(a: bv32, b: bv32)
    ensures Top(Xor(a, b)) == Top(a) ^ Top(b)
  {
  }

  lemma XorAssoc(a: bv32, b: bv32, c: bv32)
    ensures Xor(Xor(a, b), c) == Xor(a, Xor(b, c))
  {
  }

  lemma XorCommutes(a: bv32, b: bv32)
    ensures Xor(a, b) == Xor(b, a)
  {
  }

  lemma XorUnits(a: bv32)
    ensures Xor(a, a) == 0 && Xor(a, 0) == a
  {
  }

  lemma XorPairs(a: bv32, b: bv32, c: bv32, d: bv32)
    ensures Xor(Xor(a, b), Xor(c, d)) == Xor(Xor(a, c), Xor(b, d))
  {
    hide Xor;
    XorAssoc(a, b, Xor(c, d));
    XorAssoc(b, c, d);
    XorCommutes(b, c);
    XorAssoc(c, b, d);
    XorAssoc(a, c, Xor(b, d));
  }

  lemma XorBounded(a: bv32, b: bv32)
    requires a < BOUND && b < BOUND
    ensures Xor(a, b) < BOUND && (Xor(a, b) == 0 ==> a == b)
  {
  }

  lemma TapLinear(a: bv5, b: bv5, bit: bv5, g: bv32)
    requires bit == 1 || bit == 2 || bit == 4 || bit == 8 || bit == 16
    ensures Tap(a ^ b, bit, g) == Xor(Tap(a, bit, g), Tap(b, bit, g))
  {
    XorUnits(g);
    XorCommutes(0, g);
    XorUnits(0);
    hide Xor;
    assert (a ^ b) & bit == (a & bit) ^ (b & bit);
    assert (a & bit == 0 || a & bit == bit) && (b & bit == 0 || b & bit == bit);
  }

  lemma FeedbackLinear(a: bv5, b: bv5)
    ensures Feedback(a ^ b) == Xor(Feedback(a), Feedback(b))
  {
    hide Tap, Xor;
    var a1, a2, a4, a8, a16 :=
      Tap(a, 1, 0x3b6a57b2), Tap(a, 2, 0x26508e6d), Tap(a, 4, 0x1ea119fa), Tap(a, 8, 0x3d4233dd),
        Tap(a, 16, 0x2a1462b3);
    var b1, b2, b4, b8, b16 :=
      Tap(b, 1, 0x3b6a57b2), Tap(b, 2, 0x26508e6d), Tap(b, 4, 0x1ea119fa), Tap(b, 8, 0x3d4233dd),
        Tap(b, 16, 0x2a1462b3);
    TapLinear(a, b, 1, 0x3b6a57b2);
    TapLinear(a, b, 2, 0x26508e6d);
    TapLinear(a, b, 4, 0x1ea119fa);
    TapLinear(a, b, 8, 0x3d4233dd);
    TapLinear(a, b, 16, 0x2a1462b3);
    XorPairs(a1, b1, a2, b2);
    XorPairs(a4, b4, a8, b8);
    XorPairs(Xor(a1, a2), Xor(b1, b2), Xor(a4, a8), Xor(b4, b8));
    XorPairs(Xor(Xor(a1, a2), Xor(a4, a8)), Xor(Xor(b1, b2), Xor(b4, b8)), a16, b16);
  }

  /** One step of the checksum is linear over GF(2). */
  lemma ShiftLinear(a: bv32, b: bv32)
    ensures Shift(Xor(a, b)) == Xor(Shift(a), Shift(b))
  {
    hide Low, Top, Feedback, Xor;
    FeedbackLinear(Top(a), Top(b));
    LowLinear(a, b);
    TopLinear(a, b);
    XorPairs(Low(a), Low(b), Feedback(Top(a)), Feedback(Top(b)));
  }

  lemma FeedbackKernel(top: bv5)
    requires Feedback(top) & 31 == 0
    ensures top == 0
  {
  }

  lemma LowKernel(a: bv32, f: bv32)
    requires Xor(Low(a), f) == 0
    ensures f & 31 == 0 && (f == 0 && a < BOUND && Top(a) == 0 ==> a == 0)
  {
  }

  lemma FeedbackOfZero()
    ensures Feedback(0) == 0
  {
  }

  lemma ShiftKernel(a: bv32)
    requires a < BOUND && Shift(a) == 0
    ensures a == 0
  {
    hide Low, Top, Feedback, Xor;
    LowKernel(a, Feedback(Top(a)));
    FeedbackKernel(Top(a));
    FeedbackOfZero();
  }

  /** No two different checksum words step to the same word. */
  lemma ShiftInjective(a: bv32, b: bv32)
    requires a < BOUND && b < BOUND && Shift(a) == Shift(b)
    ensures a == b
  {
    hide Shift, Xor;
    ShiftLinear(a, b);
    XorBounded(a, b);
    XorUnits(Shift(a));
    ShiftKernel(Xor(a, b));
  }

  // ---- linearity over whole value strings -------------------------------------------------

  function Zeros(n: nat): (z: seq<bv8>)
    ensures |z| == n
  {
    seq(n, _ => 0)
  }

  lemma {:induction false} PolymodConcat(chk: bv32, a: seq<bv8>, b: seq<bv8>)
    ensures Polymod(chk, a + b) == Polymod(Polymod(chk, a), b)
  {
    if b == [] {
      assert a + b == a;
    } else {
      hide Step;
      PolymodConcat(chk, a, b[..|b| - 1]);
      assert (a + b)[..|a + b| - 1] == a + b[..|b| - 1];
    }
  }

  lemma {:induction false} PolymodBounded(chk: bv32, values: seq<bv8>)
    requires chk < BOUND
    ensures Polymod(chk, values) < BOUND
  {
    if values != [] {
      hide Step;
      StepBounded(Polymod(chk, values[..|values| - 1]), values[|values| - 1]);
    }
  }

  lemma StepOfZero(a: bv32)
    ensures Step(a, 0) == Shift(a)
  {
    hide Shift;
    assert Widen(0) == 0;
    XorUnits(Shift(a));
  }

  /** The state and the values contribute to the checksum word separately. */
  lemma {:induction false} PolymodSplit(chk: bv32, values: seq<bv8>)
    ensures Polymod(chk, values) == Xor(Polymod(chk, Zeros(|values|)), Polymod(0, values))
  {
    if values == [] {
      XorUnits(chk);
    } else {
      hide Shift, Xor, Widen;
      var n := |values| - 1;
      var front, v := values[..n], values[n];
      PolymodSplit(chk, front);
      assert Zeros(n + 1)[..n] == Zeros(n);
      var a, b := Polymod(chk, Zeros(n)), Polymod(0, front);
      StepOfZero(a);
      ShiftLinear(a, b);
      XorAssoc(Shift(a), Shift(b), Widen(v));
    }
  }

  /** Different states never meet again under the same values. */
  lemma {:induction false} PolymodInjective(a: bv32, b: bv32, values: seq<bv8>)
    requires a < BOUND && b < BOUND && a != b
    ensures Polymod(a, values) != Polymod(b, values)
  {
    if values != [] {
      hide Shift, Xor, Widen;
      var front, v := values[..|values| - 1], values[|values| - 1];
      PolymodInjective(a, b, front);
      PolymodBounded(a, front);
      PolymodBounded(b, front);
      var p, q := Polymod(a, front), Polymod(b, front);
      if Shift(p) == Shift(q) {
        ShiftInjective(p, q);
      }
      XorCancels(Shift(p), Shift(q), Widen(v));
    }
  }

  lemma XorCancels(a: bv32, b: bv32, c: bv32)
    ensures Xor(a, c) == Xor(b, c) ==> a == b
  {
    XorAssoc(a, c, c);
    XorAssoc(b, c, c);
    XorUnits(a);
    XorUnits(b);
    XorUnits(c);
    hide Xor;
  }

  // ---- the six checksum symbols -----------------------------------------------------------

  function Value(symbol: bv5): bv8 {
    symbol as bv8
  }

  function Values(symbols: seq<bv5>): (r: seq<bv8>)
    ensures |r| == |symbols|
    ensures forall i :: 0 <= i < |symbols| ==> r[i] == Value(symbols[i])
  {
    seq(|symbols|, i requires 0 <= i < |symbols| => Value(symbols[i]))
  }

  /** The five bits of the checksum word that start `shift` bits up. */
  function Cut(chk: bv32, shift: bv6): bv5
    requires shift <= 25
  {
    ((chk >> shift) & 31) as bv5
  }

  /** The six groups of five bits of a checksum word, most significant first. */
  function Unpack(chk: bv32): (r: seq<bv5>)
    ensures |r| == 6
  {
    [Cut(chk, 25), Cut(chk, 20), Cut(chk, 15), Cut(chk, 10), Cut(chk, 5), Cut(chk, 0)]
  }

  function Append(d: bv32, s: bv5): bv32 {
    (d << 5) | (s as bv32)
  }

  /** While the word has 25 bits at most, a step only appends the symbol. */
  lemma StepAppends(d: bv32, s: bv5)
    requires d < 0x200_0000
    ensures Step(d, Value(s)) == Append(d, s)
  {
    assert Top(d) == 0;
    hide Feedback;
    FeedbackOfZero();
  }

  function Pack(s: seq<bv5>): bv32
    requires |s| == 6
  {
    Append(Append(Append(Append(Append(Append(0, s[0]), s[1]), s[2]), s[3]), s[4]), s[5])
  }

  lemma UnpackPack(a: bv5, b: bv5, c: bv5, d: bv5, e: bv5, f: bv5)
    ensures Unpack(Pack([a, b, c, d, e, f])) == [a, b, c, d, e, f]
  {
  }

  lemma PackUnpack(chk: bv32)
    requires chk < BOUND
    ensures Pack(Unpack(chk)) == chk
  {
  }

  lemma AppendBounded(d: bv32, s: bv5)
    ensures d < 1 ==> Append(d, s) < 0x20
    ensures d < 0x20 ==> Append(d, s) < 0x400
    ensures d < 0x400 ==> Append(d, s) < 0x8000
    ensures d < 0x8000 ==> Append(d, s) < 0x10_0000
    ensures d < 0x10_0000 ==> Append(d, s) < 0x200_0000
  {
  }

  lemma PolymodSnoc(chk: bv32, values: seq<bv8>, v: bv8)
    ensures Polymod(chk, values + [v]) == Step(Polymod(chk, values), v)
  {
    assert (values + [v])[..|values|] == values;
  }

  /** Six symbols alone pack into the checksum word. */
  lemma PolymodPacks(s: seq<bv5>)
    requires |s| == 6
    ensures Polymod(0, Values(s)) == Pack(s)
  {
    hide Step, Append;
    var v := Values(s);
    var d := 0 as bv32;
    for i := 0 to 6
      invariant d == Polymod(0, v[..i])
      invariant d < (if i == 0 then 1 else if i == 1 then 0x20 else if i == 2 then 0x400 else
                     if i == 3 then 0x8000 else if i == 4 then 0x10_0000 else if i == 5 then 0x200_0000 else BOUND)
      invariant i == 1 ==> d == Append(0, s[0])
      invariant i == 2 ==> d == Append(Append(0, s[0]), s[1])
      invariant i == 3 ==> d == Append(Append(Append(0, s[0]), s[1]), s[2])
      invariant i == 4 ==> d == Append(Append(Append(Append(0, s[0]), s[1]), s[2]), s[3])
      invariant i == 5 ==> d == Append(Append(Append(Append(Append(0, s[0]), s[1]), s[2]), s[3]), s[4])
      invariant i == 6 ==> d == Pack(s)
    {
      PolymodSnoc(0, v[..i], v[i]);
      assert v[..i + 1] == v[..i] + [v[i]];
      StepAppends(d, s[i]);
      AppendBounded(d, s[i]);
      StepBounded(d, v[i]);
      d := Step(d, v[i]);
    }
    assert v[..6] == v;
  }

  function Checksum(values: seq<bv8>): (r: seq<bv5>)
    ensures |r| == 6
  {
    Unpack(Xor(Polymod(1, values + Zeros(6)), 1))
  }

  /** Six symbols drive the checksum word to 1 exactly when they are the encoder's. */
  lemma ChecksumExact(values: seq<bv8>, s: seq<bv5>)
    requires |s| == 6
    ensures Polymod(1, values + Values(s)) == 1 <==> s == Checksum(values)
  {
    hide Step, Unpack, Pack, Xor;
    var state := Polymod(1, values);
    var z := Polymod(state, Zeros(6));
    PolymodConcat(1, values, Values(s));
    PolymodConcat(1, values, Zeros(6));
    PolymodSplit(state, Values(s));
    PolymodPacks(s);
    PolymodBounded(1, values + Zeros(6));
    XorBounded(z, 1);
    PackUnpack(Xor(z, 1));
    UnpackPack(s[0], s[1], s[2], s[3], s[4], s[5]);
    assert s == [s[0], s[1], s[2], s[3], s[4], s[5]];
    XorSolve(z, Pack(s), 1);
  }

  lemma XorSolve(a: bv32, b: bv32, c: bv32)
    ensures Xor(a, b) == c <==> b == Xor(a, c)
  {
    hide Xor;
    XorAssoc(a, a, b);
    XorAssoc(a, a, c);
    XorUnits(a);
    XorCommutes(0, b);
    XorCommutes(0, c);
    XorUnits(b);
    XorUnits(c);
  }

  /** Changing a single value always changes the checksum word. */
  lemma OneErrorDetected(before: seq<bv8>, x: bv8, y: bv8, after: seq<bv8>)
    requires x != y
    ensures Polymod(1, before + [x] + after) != Polymod(1, before + [y] + after)
  {
    hide Shift, Xor;
    var state := Polymod(1, before);
    PolymodConcat(1, before + [x], after);
    PolymodConcat(1, before + [y], after);
    PolymodSnoc(1, before, x);
    PolymodSnoc(1, before, y);
    StepBounded(state, x);
    StepBounded(state, y);
    XorCommutes(Shift(state), Widen(x));
    XorCommutes(Shift(state), Widen(y));
    XorCancels(Widen(x), Widen(y), Shift(state));
    assert Widen(x) != Widen(y);
    PolymodInjective(Step(state, x), Step(state, y), after);
  }

  // ---- the text format --------------------------------------------------------------------

  function Letter(symbol: bv5): char {
    match symbol
    case 0 => 'q' case 1 => 'p' case 2 => 'z' case 3 => 'r'
    case 4 => 'y' case 5 => '9' case 6 => 'x' case 7 => '8'
    case 8 => 'g' case 9 => 'f' case 10 => '2' case 11 => 't'
    case 12 => 'v' case 13 => 'd' case 14 => 'w' case 15 => '0'
    case 16 => 's' case 17 => '3' case 18 => 'j' case 19 => 'n'
    case 20 => '5' case 21 => '4' case 22 => 'k' case 23 => 'h'
    case 24 => 'c' case 25 => 'e' case 26 => '6' case 27 => 'm'
    case 28 => 'u' case 29 => 'a' case 30 => '7' case 31 => 'l'
  }

  function Lower(c: char): char {
    if 'A' <= c <= 'Z' then (c as int + 32) as char else c
  }

  function LowerAll(s: string): (r: string)
    ensures |r| == |s|
    ensures forall i :: 0 <= i < |s| ==> r[i] == Lower(s[i])
  {
    seq(|s|, i requires 0 <= i < |s| => Lower(s[i]))
  }

  /** The table search of bech32_charset_index; the table holds each letter once. */
  function TableIndex(c: char): Option<bv5> {
    match c
    case 'q' => Some(0) case 'p' => Some(1) case 'z' => Some(2) case 'r' => Some(3)
    case 'y' => Some(4) case '9' => Some(5) case 'x' => Some(6) case '8' => Some(7)
    case 'g' => Some(8) case 'f' => Some(9) case '2' => Some(10) case 't' => Some(11)
    case 'v' => Some(12) case 'd' => Some(13) case 'w' => Some(14) case '0' => Some(15)
    case 's' => Some(16) case '3' => Some(17) case 'j' => Some(18) case 'n' => Some(19)
    case '5' => Some(20) case '4' => Some(21) case 'k' => Some(22) case 'h' => Some(23)
    case 'c' => Some(24) case 'e' => Some(25) case '6' => Some(26) case 'm' => Some(27)
    case 'u' => Some(28) case 'a' => Some(29) case '7' => Some(30) case 'l' => Some(31)
    case _ => None
  }

  function CharsetIndex(c: char): Option<bv5> {
    TableIndex(Lower(c))
  }

  lemma LetterIndex(symbol: bv5)
    ensures TableIndex(Letter(symbol)) == Some(symbol)
  {
    match symbol
    case 0 => case 1 => case 2 => case 3 => case 4 => case 5 => case 6 => case 7 =>
    case 8 => case 9 => case 10 => case 11 => case 12 => case 13 => case 14 => case 15 =>
    case 16 => case 17 => case 18 => case 19 => case 20 => case 21 => case 22 => case 23 =>
    case 24 => case 25 => case 26 => case 27 => case 28 => case 29 => case 30 => case 31 =>
  }

  lemma IndexLetter(c: char)
    ensures TableIndex(c).Some? ==> Letter(TableIndex(c).value) == c
  {
    match c
    case 'q' => case 'p' => case 'z' => case 'r' => case 'y' => case '9' => case 'x' => case '8' =>
    case 'g' => case 'f' => case '2' => case 't' => case 'v' => case 'd' => case 'w' => case '0' =>
    case 's' => case '3' => case 'j' => case 'n' => case '5' => case '4' => case 'k' => case 'h' =>
    case 'c' => case 'e' => case '6' => case 'm' => case 'u' => case 'a' => case '7' => case 'l' =>
    case _ =>
  }

  lemma LetterIsLower(symbol: bv5)
    ensures Letter(symbol) != '1' && Lower(Letter(symbol)) == Letter(symbol)
  {
  }

  /** A byte of text; std::string holds nothing wider. */
  function Byte(c: char): bv8 {
    (c as int % 256) as bv8
  }

  /** `c >> 5` on a signed char: the sign bit is shifted in. */
  function HighBits(c: char): bv8 {
    (Byte(c) >> 5) | (if Byte(c) & 0x80 != 0 then 0xf8 else 0)
  }

  function LowBits(c: char): bv8 {
    Byte(c) & 31
  }

  /** The prefix as the checksum sees it: high bits, a zero, low bits. */
  function PrefixValues(prefix: string): seq<bv8> {
    seq(|prefix|, i requires 0 <= i < |prefix| => HighBits(prefix[i])) + [0]
    + seq(|prefix|, i requires 0 <= i < |prefix| => LowBits(prefix[i]))
  }

  function Letters(symbols: seq<bv5>): (s: string)
    ensures |s| == |symbols|
    ensures forall i :: 0 <= i < |symbols| ==> s[i] == Letter(symbols[i])
  {
    seq(|symbols|, i requires 0 <= i < |symbols| => Letter(symbols[i]))
  }

  /** The data part of an encoded text: the data and its checksum. */
  function Tail(prefix: string, data: seq<bv5>): seq<bv5> {
    data + Checksum(PrefixValues(prefix) + Values(data))
  }

  function Encode(prefix: string, data: seq<bv5>): string {
    prefix + "1" + Letters(Tail(prefix, data))
  }

  /** The position of the last '1', or |s| when there is none. */
  function LastOne(s: string): (pos: nat)
    ensures pos <= |s|
    ensures pos < |s| ==> s[pos] == '1' && '1' !in s[pos + 1..]
    ensures pos == |s| ==> '1' !in s
  {
    if s == [] then 0
    else if s[|s| - 1] == '1' then |s| - 1
    else
      var pos := LastOne(s[..|s| - 1]);
      if pos == |s| - 1 then |s| else pos
  }

  function Indices(s: string): (r: Option<seq<bv5>>)
    ensures r.Some? ==> |r.value| == |s|
    ensures r.Some? ==> forall i :: 0 <= i < |s| ==> CharsetIndex(s[i]) == Some(r.value[i])
    ensures r.None? ==> exists i :: 0 <= i < |s| && CharsetIndex(s[i]).None?
  {
    if s == [] then Some([])
    else
      var front := Indices(s[..|s| - 1]);
      var last := CharsetIndex(s[|s| - 1]);
      if front.None? || last.None? then None else Some(front.value + [last.value])
  }

  function Decode(text: string): Option<(string, seq<bv5>)> {
    var pos := LastOne(text);
    if pos == |text| || pos + 7 > |text| then None
    else
      var prefix, symbols := text[..pos], Indices(text[pos + 1..]);
      if symbols.None? || |symbols.value| < 6 then None
      else if Polymod(1, PrefixValues(prefix) + Values(symbols.value)) != 1 then None
      else Some((prefix, symbols.value[..|symbols.value| - 6]))
  }

  // ---- the programs -----------------------------------------------------------------------

  lemma FoldTaps(low: bv32, v: bv32, t1: bv32, t2: bv32, t4: bv32, t8: bv32, t16: bv32)
    ensures Xor(Xor(Xor(Xor(Xor(Xor(low, v), t1), t2), t4), t8), t16)
            == Xor(Xor(low, Xor(Xor(Xor(t1, t2), Xor(t4, t8)), t16)), v)
  {
    hide Xor;
    var x := Xor(low, v);
    XorAssoc(x, t1, t2);
    XorAssoc(x, Xor(t1, t2), t4);
    XorAssoc(Xor(t1, t2), t4, t8);
    XorAssoc(x, Xor(Xor(t1, t2), t4), t8);
    var f4 := Xor(Xor(t1, t2), Xor(t4, t8));
    XorAssoc(x, f4, t16);
    var f := Xor(f4, t16);
    XorAssoc(low, v, f);
    XorCommutes(v, f);
    XorAssoc(low, f, v);
  }

  const GENERATORS: seq<bv32> := [0x3b6a57b2, 0x26508e6d, 0x1ea119fa, 0x3d4233dd, 0x2a1462b3]

  const BITS: seq<bv5> := [1, 2, 4, 8, 16]

  /** The word after the first i rounds of the generator loop. */
  function Folded(w: bv32, top: bv5, i: nat): bv32
    requires i <= 5
  {
    if i == 0 then w else Xor(Folded(w, top, i - 1), Tap(top, BITS[i - 1], GENERATORS[i - 1]))
  }

  lemma FoldedNone(w: bv32, top: bv5)
    ensures Folded(w, top, 0) == w
  {
  }

  lemma FoldedNext(w: bv32, top: bv5, i: nat)
    requires i < 5
    ensures Folded(w, top, i + 1) == Xor(Folded(w, top, i), Tap(top, BITS[i], GENERATORS[i]))
  {
  }

  lemma FoldedUnrolled(w: bv32, top: bv5)
    ensures Folded(w, top, 5)
            == Xor(Xor(Xor(Xor(Xor(w, Tap(top, 1, 0x3b6a57b2)), Tap(top, 2, 0x26508e6d)), Tap(top, 4, 0x1ea119fa)),
                       Tap(top, 8, 0x3d4233dd)), Tap(top, 16, 0x2a1462b3))
  {
    hide Xor, Tap, Folded;
    FoldedNone(w, top);
    FoldedNext(w, top, 0);
    FoldedNext(w, top, 1);
    FoldedNext(w, top, 2);
    FoldedNext(w, top, 3);
    FoldedNext(w, top, 4);
  }

  lemma FoldedIsStep(chk: bv32, value: bv8)
    ensures Folded(Xor(Low(chk), Widen(value)), Top(chk), 5) == Step(chk, value)
  {
    hide Folded, Low, Top, Widen, Xor, Tap;
    var top := Top(chk);
    FoldedUnrolled(Xor(Low(chk), Widen(value)), top);
    FoldTaps(Low(chk), Widen(value), Tap(top, 1, 0x3b6a57b2), Tap(top, 2, 0x26508e6d),
             Tap(top, 4, 0x1ea119fa), Tap(top, 8, 0x3d4233dd), Tap(top, 16, 0x2a1462b3));
  }

  /** One value of bech32_polymod: the generators whose bits are set in the top symbol are mixed in. */
  method StepLoop(chk: bv32, value: bv8) returns (next: bv32)
    ensures next == Step(chk, value)
  {
    hide Low, Widen, Xor, Top, Step;
    var top := Top(chk);
    next := Xor(Low(chk), Widen(value));
    for i := 0 to 5
      invariant next == Folded(Xor(Low(chk), Widen(value)), top, i)
    {
      XorUnits(next);
      if top & BITS[i] != 0 {
        next := Xor(next, GENERATORS[i]);
      }
    }
    FoldedIsStep(chk, value);
  }

  method PolymodLoop(values: seq<bv8>) returns (chk: bv32)
    ensures chk == Polymod(1, values)
  {
    hide Step;
    chk := 1;
    for n := 0 to |values|
      invariant chk == Polymod(1, values[..n])
    {
      PolymodSnoc(1, values[..n], values[n]);
      assert values[..n + 1] == values[..n] + [values[n]];
      chk := StepLoop(chk, values[n]);
    }
    assert values[..|values|] == values;
  }

  method AppendLetters(text: string, symbols: seq<bv5>) returns (out: string)
    ensures out == text + Letters(symbols)
  {
    hide Letter;
    out := text;
    for n := 0 to |symbols|
      invariant out == text + Letters(symbols[..n])
    {
      assert Letters(symbols[..n + 1]) == Letters(symbols[..n]) + [Letter(symbols[n])];
      out := out + [Letter(symbols[n])];
    }
    assert symbols[..|symbols|] == symbols;
  }

  lemma LettersConcat(a: seq<bv5>, b: seq<bv5>)
    ensures Letters(a + b) == Letters(a) + Letters(b)
  {
    hide Letter;
  }

  method Bech32Encode(prefix: string, data: seq<bv5>) returns (out: string)
    ensures out == Encode(prefix, data)
  {
    hide Polymod, Xor, Letters, Unpack, PrefixValues, Values;
    var values := PrefixValues(prefix) + Values(data);
    var chk := PolymodLoop(values + Zeros(6));
    var symbols := Unpack(Xor(chk, 1));
    out := AppendLetters(prefix + "1", data);
    out := AppendLetters(out, symbols);
    LettersConcat(data, symbols);
  }

  method Bech32Decode(text: string) returns (out: Option<(string, seq<bv5>)>)
    ensures out == Decode(text)
  {
    hide Polymod, TableIndex;
    var pos := |text|;
    while pos > 0 && text[pos - 1] != '1'
      invariant 0 <= pos <= |text| && '1' !in text[pos..]
    {
      pos := pos - 1;
    }
    if pos == 0 || pos - 1 + 7 > |text| {
      assert pos == 0 ==> text[0..] == text;
      assert pos > 0 ==> LastOne(text) == pos - 1;
      return None;
    }
    pos := pos - 1;
    assert LastOne(text) == pos;
    var prefix, rest := text[..pos], text[pos + 1..];
    var data := [];
    for i := 0 to |rest|
      invariant Indices(rest[..i]) == Some(data)
    {
      assert rest[..i + 1][..i] == rest[..i];
      var v := CharsetIndex(rest[i]);
      if v.None? {
        assert Indices(rest).None?;
        return None;
      }
      data := data + [v.value];
    }
    assert rest[..|rest|] == rest;
    var mod := PolymodLoop(PrefixValues(prefix) + Values(data));
    if mod != 1 {
      return None;
    }
    out := Some((prefix, data[..|data| - 6]));
  }

  // ---- what the decoder accepts -----------------------------------------------------------

  lemma {:induction false} IndicesExact(s: string, symbols: seq<bv5>)
    ensures Indices(s) == Some(symbols) <==> LowerAll(s) == Letters(symbols)
  {
    hide TableIndex, Letter, Lower;
    if Indices(s) == Some(symbols) {
      forall i | 0 <= i < |s| ensures Lower(s[i]) == Letter(symbols[i]) {
        IndexLetter(Lower(s[i]));
        assert TableIndex(Lower(s[i])) == CharsetIndex(s[i]);
      }
      assert LowerAll(s) == Letters(symbols);
    }
    if LowerAll(s) == Letters(symbols) {
      assert |s| == |symbols|;
      forall i | 0 <= i < |s| ensures CharsetIndex(s[i]) == Some(symbols[i]) {
        assert LowerAll(s)[i] == Letters(symbols)[i];
        LetterIndex(symbols[i]);
      }
      assert Indices(s).Some?;
      assert Indices(s).value == symbols;
    }
  }

  lemma {:induction false} LastOneIs(s: string, pos: nat)
    requires pos < |s| && s[pos] == '1' && '1' !in s[pos + 1..]
    ensures LastOne(s) == pos
  {
    var n := |s| - 1;
    if pos < n {
      assert s[pos + 1..][n - pos - 1] == s[n];
      assert s[..n][pos + 1..] == s[pos + 1..][..n - pos - 1];
      LastOneIs(s[..n], pos);
    }
  }

  /** The symbol strings whose checksum holds are the tails of the encoder. */
  lemma TailExact(prefix: string, symbols: seq<bv5>)
    requires |symbols| >= 6
    ensures Polymod(1, PrefixValues(prefix) + Values(symbols)) == 1
            <==> symbols == Tail(prefix, symbols[..|symbols| - 6])
  {
    hide Polymod, PrefixValues, Checksum;
    var n := |symbols| - 6;
    var data, sum := symbols[..n], symbols[n..];
    assert symbols == data + sum;
    assert PrefixValues(prefix) + Values(symbols) == PrefixValues(prefix) + Values(data) + Values(sum);
    ChecksumExact(PrefixValues(prefix) + Values(data), sum);
  }

  /** A text spells `prefix` and `data` when it is the encoder's, up to capitals in the data part. */
  predicate Spells(text: string, prefix: string, data: seq<bv5>) {
    && |text| > |prefix|
    && text[..|prefix| + 1] == prefix + "1"
    && LowerAll(text[|prefix| + 1..]) == Letters(Tail(prefix, data))
  }

  lemma DecodedSpells(text: string)
    requires Decode(text).Some?
    ensures Spells(text, Decode(text).value.0, Decode(text).value.1)
  {
    hide Polymod, PrefixValues, Indices, LowerAll, Letters;
    var pos := LastOne(text);
    var prefix, symbols := text[..pos], Indices(text[pos + 1..]).value;
    TailExact(prefix, symbols);
    IndicesExact(text[pos + 1..], symbols);
    assert text[..pos + 1] == prefix + "1";
  }

  lemma SpelledDecodes(text: string, prefix: string, data: seq<bv5>)
    requires Spells(text, prefix, data)
    ensures Decode(text) == Some((prefix, data))
  {
    hide Polymod, PrefixValues, Letter, Checksum;
    var pos := |prefix|;
    var rest, symbols := text[pos + 1..], Tail(prefix, data);
    IndicesExact(rest, symbols);
    assert text[pos] == (prefix + "1")[pos] == '1';
    if '1' in rest {
      var i :| 0 <= i < |rest| && rest[i] == '1';
      assert LowerAll(rest)[i] == '1';
      LetterIsLower(symbols[i]);
    }
    LastOneIs(text, pos);
    assert text[..pos] == text[..pos + 1][..pos] == prefix;
    assert symbols[..|symbols| - 6] == data;
    TailExact(prefix, symbols);
  }

  /** The decoder accepts exactly the encoder's texts, capitals allowed after the separator. */
  lemma DecodeExact(text: string, prefix: string, data: seq<bv5>)
    ensures Decode(text) == Some((prefix, data)) <==> Spells(text, prefix, data)
  {
    hide Decode, Spells;
    if Decode(text) == Some((prefix, data)) {
      DecodedSpells(text);
    }
    if Spells(text, prefix, data) {
      SpelledDecodes(text, prefix, data);
    }
  }

  lemma RoundTrip(prefix: string, data: seq<bv5>)
    ensures Decode(Encode(prefix, data)) == Some((prefix, data))
  {
    hide Decode, Tail, Letter, Lower;
    var text, tail := Encode(prefix, data), Letters(Tail(prefix, data));
    assert text[|prefix| + 1..] == tail && text[..|prefix| + 1] == prefix + "1";
    forall i | 0 <= i < |tail| ensures Lower(tail[i]) == tail[i] {
      LetterIsLower(Tail(prefix, data)[i]);
    }
    assert LowerAll(tail) == tail;
    SpelledDecodes(text, prefix, data);
  }

  lemma ValuesUpdate(before: seq<bv8>, symbols: seq<bv5>, i: nat, x: bv5)
    requires i < |symbols|
    ensures before + Values(symbols[i := x])
            == (before + Values(symbols[..i])) + [Value(x)] + Values(symbols[i + 1..])
  {
  }

  /** Replacing one symbol after the separator by another symbol always makes the text invalid. */
  lemma OneSubstitutionRejected(text: string, i: nat, c: char)
    requires Decode(text).Some? && LastOne(text) < i < |text|
    requires c != '1' && CharsetIndex(c) != CharsetIndex(text[i])
    ensures Decode(text[i := c]).None?
  {
    hide Polymod, PrefixValues, CharsetIndex, Value;
    var pos := LastOne(text);
    var other := text[i := c];
    var prefix, k := text[..pos], i - pos - 1;
    var rest, rest' := text[pos + 1..], other[pos + 1..];
    assert rest' == rest[k := c];
    LastOneIs(other, pos);
    assert other[..pos] == prefix;
    var good, bad := Indices(rest).value, Indices(rest');
    if bad.Some? {
      assert CharsetIndex(rest'[k]) == Some(bad.value[k]) && CharsetIndex(rest[k]) == Some(good[k]);
      forall j | 0 <= j < |good| && j != k ensures bad.value[j] == good[j] {
        assert CharsetIndex(rest'[j]) == CharsetIndex(rest[j]);
      }
      assert bad.value == good[k := bad.value[k]];
      assert good == good[k := good[k]];
      var before := PrefixValues(prefix);
      ValuesUpdate(before, good, k, good[k]);
      ValuesUpdate(before, good, k, bad.value[k]);
      SameValue(good[k], bad.value[k]);
      OneErrorDetected(before + Values(good[..k]), Value(good[k]), Value(bad.value[k]), Values(good[k + 1..]));
    }
  }

  lemma SameValue(a: bv5, b: bv5)
    ensures Value(a) == Value(b) ==> a == b
  {
  }
}
