/**
 * What the checksum of a Bech32 text covers, in integers, and exactly which texts the encoder
 * writes and the decoder takes.
 */
module Bech32Values {
  import opened Wrappers
  import opened Bech32

  /** The 32 letters of BIP 173. */
  const ALPHABET: string := "qpzry9x8gf2tvdw0s3jn54khce6mua7l"

  // ---- bytes as numbers -------------------------------------------------------------------

  lemma Halves(x: bv8)
    ensures x < 32 <==> x as nat < 32
    ensures x < 64 <==> x as nat < 64
    ensures x < 128 <==> x as nat < 128
    ensures x >= 32 ==> (x - 32) as nat == x as nat - 32
    ensures x >= 64 ==> (x - 64) as nat == x as nat - 64
    ensures x >= 128 ==> (x - 128) as nat == x as nat - 128
  {
  }

  lemma MaskHalves(x: bv8)
    ensures x < 32 ==> x & 31 == x
    ensures x >= 32 ==> (x - 32) & 31 == x & 31
    ensures x >= 64 ==> (x - 64) & 31 == x & 31
    ensures x >= 128 ==> (x - 128) & 31 == x & 31
  {
  }

  lemma MaskIsRemainder(x: bv8)
    ensures (x & 31) as nat == x as nat % 32
    decreases x as nat
  {
    Halves(x);
    MaskHalves(x);
    if x >= 128 {
      MaskIsRemainder(x - 128);
    } else if x >= 64 {
      MaskIsRemainder(x - 64);
    } else if x >= 32 {
      MaskIsRemainder(x - 32);
    }
  }

  lemma ShiftIsQuotient(b: nat)
    requires b < 256
    ensures ((b as bv8) >> 5) as nat == b / 32
  {
  }

  lemma SignBit(b: nat)
    requires b < 256
    ensures (b as bv8) & 0x80 != 0 <==> b >= 128
  {
  }

  lemma SignShiftedIn(x: bv8)
    ensures (x >> 5) | 0 == x >> 5 && (x >> 5) | 0xf8 == (x >> 5) + 248
    ensures ((x >> 5) + 248) as nat == (x >> 5) as nat + 248
  {
  }

  // ---- what the checksum covers -----------------------------------------------------------

  /** A std::string holds bytes. */
  predicate AllBytes(prefix: string) {
    forall i :: 0 <= i < |prefix| ==> prefix[i] as int < 256
  }

  /** `c >> 5` of a signed char, stored in a byte: from 128 up it is negative, and 256 is added. */
  function SignedQuotient(c: char): int {
    if c as int < 128 then c as int / 32 else (c as int - 256) / 32 + 256
  }

  /** The quotients of the prefix by 32, a zero, its remainders, and the symbols. */
  ghost predicate Covers(values: seq<bv8>, prefix: string, symbols: seq<bv5>) {
    var p := |prefix|;
    && |values| == 2 * p + 1 + |symbols|
    && (forall i :: 0 <= i < p ==> values[i] as int == SignedQuotient(prefix[i]))
    && values[p] as int == 0
    && (forall i :: 0 <= i < p ==> values[p + 1 + i] as int == prefix[i] as int % 32)
    && forall i :: 0 <= i < |symbols| ==> values[2 * p + 1 + i] as int == symbols[i] as int
  }

  lemma ByteParts(c: char)
    requires c as int < 256
    ensures HighBits(c) as int == SignedQuotient(c) && LowBits(c) as int == c as int % 32
  {
    hide HighBits, LowBits;
    var b := c as int;
    ByteIs(c);
    ShiftIsQuotient(b);
    SignBit(b);
    SignShiftedIn(b as bv8);
    MaskIsRemainder(b as bv8);
  }

  lemma ByteIs(c: char)
    requires c as int < 256
    ensures Byte(c) == c as int as bv8 && Byte(c) as int == c as int
    ensures HighBits(c) == (Byte(c) >> 5) | (if Byte(c) & 0x80 != 0 then 0xf8 else 0)
    ensures LowBits(c) == Byte(c) & 31
  {
    assert c as int % 256 == c as int;
  }

  lemma SymbolValue(s: bv5)
    ensures Value(s) as int == s as int
  {
  }

  lemma PrefixCovered(prefix: string, symbols: seq<bv5>)
    requires AllBytes(prefix)
    ensures Covers(PrefixValues(prefix) + Values(symbols), prefix, symbols)
  {
    hide HighBits, LowBits, Value;
    forall i | 0 <= i < |prefix| { ByteParts(prefix[i]); }
    forall i | 0 <= i < |symbols| { SymbolValue(symbols[i]); }
  }

  lemma SameByte(a: bv8, b: bv8)
    requires a as int == b as int
    ensures a == b
  {
    assert a as int as bv8 == b as int as bv8;
  }

  lemma RemainderAt(values: seq<bv8>, prefix: string, symbols: seq<bv5>, k: nat)
    requires Covers(values, prefix, symbols) && k < |prefix|
    ensures values[|prefix| + 1 + k] as int == prefix[k] as int % 32
  {
    hide SignedQuotient;
  }

  lemma SymbolAt(values: seq<bv8>, prefix: string, symbols: seq<bv5>, k: nat)
    requires Covers(values, prefix, symbols) && k < |symbols|
    ensures values[2 * |prefix| + 1 + k] as int == symbols[k] as int
  {
    hide SignedQuotient;
  }

  /** No other values are covered. */
  lemma CoversOne(a: seq<bv8>, b: seq<bv8>, prefix: string, symbols: seq<bv5>)
    requires Covers(a, prefix, symbols) && Covers(b, prefix, symbols)
    ensures a == b
  {
    hide SignedQuotient;
    var p := |prefix|;
    forall i | 0 <= i < |a| ensures a[i] == b[i] {
      if i < p || i == p {
        SameByte(a[i], b[i]);
      } else if i <= 2 * p {
        RemainderAt(a, prefix, symbols, i - p - 1);
        RemainderAt(b, prefix, symbols, i - p - 1);
        SameByte(a[i], b[i]);
      } else {
        SymbolAt(a, prefix, symbols, i - 2 * p - 1);
        SymbolAt(b, prefix, symbols, i - 2 * p - 1);
        SameByte(a[i], b[i]);
      }
    }
  }

  /** The values that a prefix and symbols stand for have the checksum word 1. */
  ghost predicate Checked(prefix: string, symbols: seq<bv5>) {
    |symbols| >= 6 && exists values :: Covers(values, prefix, symbols) && Polymod(1, values) == 1
  }

  /** The symbols with a valid checksum are those the encoder makes. */
  lemma CheckedExact(prefix: string, symbols: seq<bv5>)
    requires AllBytes(prefix) && |symbols| >= 6
    ensures Checked(prefix, symbols) <==> symbols == Tail(prefix, symbols[..|symbols| - 6])
  {
    hide Polymod, PrefixValues, Values, Tail, Covers;
    PrefixCovered(prefix, symbols);
    TailExact(prefix, symbols);
    if Checked(prefix, symbols) {
      var values :| Covers(values, prefix, symbols) && Polymod(1, values) == 1;
      CoversOne(values, PrefixValues(prefix) + Values(symbols), prefix, symbols);
    }
  }

  // ---- the texts --------------------------------------------------------------------------

  /** The encoder's and the decoder's letter table are the alphabet. */
  lemma AlphabetExact(symbol: bv5)
    ensures symbol as nat < 32 && Letter(symbol) == ALPHABET[symbol as nat]
  {
    match symbol
    case 0 => case 1 => case 2 => case 3 => case 4 => case 5 => case 6 => case 7 =>
    case 8 => case 9 => case 10 => case 11 => case 12 => case 13 => case 14 => case 15 =>
    case 16 => case 17 => case 18 => case 19 => case 20 => case 21 => case 22 => case 23 =>
    case 24 => case 25 => case 26 => case 27 => case 28 => case 29 => case 30 => case 31 =>
  }

  lemma SymbolBound(symbol: bv5)
    ensures symbol as nat < 32 == |ALPHABET|
  {
  }

  /** The letter of a symbol, in capitals too. */
  predicate Shows(c: char, symbol: bv5, capitals: bool) {
    SymbolBound(symbol);
    var letter := ALPHABET[symbol as nat];
    c == letter || (capitals && 'A' <= c <= 'Z' && c as int + 32 == letter as int)
  }

  /** The prefix, a one, and the letters of the symbols. */
  ghost predicate Written(text: string, prefix: string, symbols: seq<bv5>, capitals: bool) {
    && |text| == |prefix| + 1 + |symbols|
    && text[..|prefix|] == prefix && text[|prefix|] == '1'
    && forall i :: 0 <= i < |symbols| ==> Shows(text[|prefix| + 1 + i], symbols[i], capitals)
  }

  lemma ShowsLetter(c: char, symbol: bv5)
    ensures Shows(c, symbol, false) <==> c == Letter(symbol)
    ensures Shows(c, symbol, true) <==> Lower(c) == Letter(symbol)
  {
    hide Letter;
    SymbolBound(symbol);
    AlphabetExact(symbol);
    NoCapital(symbol as nat);
  }

  lemma NoCapital(k: nat)
    requires k < |ALPHABET|
    ensures !('A' <= ALPHABET[k] <= 'Z')
  {
  }

  lemma FrontParts(text: string, prefix: string)
    requires |text| > |prefix|
    ensures text[..|prefix|] == prefix && text[|prefix|] == '1' <==> text[..|prefix| + 1] == prefix + "1"
    ensures text == text[..|prefix| + 1] + text[|prefix| + 1..]
  {
    var p := |prefix|;
    assert text[..p + 1] == text[..p] + [text[p]] && (prefix + "1")[..p] == prefix && (prefix + "1")[p] == '1';
  }

  lemma RestShows(rest: string, symbols: seq<bv5>)
    requires |rest| == |symbols|
    ensures (forall i :: 0 <= i < |rest| ==> Shows(rest[i], symbols[i], false)) <==> rest == Letters(symbols)
    ensures (forall i :: 0 <= i < |rest| ==> Shows(rest[i], symbols[i], true)) <==> LowerAll(rest) == Letters(symbols)
  {
    hide Letter, Lower, Shows;
    forall i | 0 <= i < |rest| { ShowsLetter(rest[i], symbols[i]); }
    assert rest == Letters(symbols) <==> forall i :: 0 <= i < |rest| ==> rest[i] == Letters(symbols)[i];
    assert LowerAll(rest) == Letters(symbols)
      <==> forall i :: 0 <= i < |rest| ==> LowerAll(rest)[i] == Letters(symbols)[i];
  }

  lemma SplitAt(text: string, front: string, rest: string)
    ensures text == front + rest
            <==> |text| >= |front| && text[..|front|] == front && text[|front|..] == rest
  {
  }

  /** What Written says of the text cut behind the separator. */
  lemma WrittenParts(text: string, prefix: string, symbols: seq<bv5>, capitals: bool)
    ensures Written(text, prefix, symbols, capitals)
            <==> |text| == |prefix| + 1 + |symbols| && text[..|prefix| + 1] == prefix + "1"
                 && forall i :: 0 <= i < |symbols| ==> Shows(text[|prefix| + 1..][i], symbols[i], capitals)
  {
    hide Shows;
    if |text| == |prefix| + 1 + |symbols| {
      FrontParts(text, prefix);
      var rest := text[|prefix| + 1..];
      assert forall i :: 0 <= i < |symbols| ==> rest[i] == text[|prefix| + 1 + i];
    }
  }

  lemma WrittenLetters(text: string, prefix: string, symbols: seq<bv5>)
    ensures Written(text, prefix, symbols, false) <==> text == prefix + "1" + Letters(symbols)
    ensures Written(text, prefix, symbols, true)
            <==> |text| > |prefix| && text[..|prefix| + 1] == prefix + "1"
                 && LowerAll(text[|prefix| + 1..]) == Letters(symbols)
  {
    hide Letters, LowerAll, Shows, Written;
    WrittenParts(text, prefix, symbols, false);
    WrittenParts(text, prefix, symbols, true);
    SplitAt(text, prefix + "1", Letters(symbols));
    if |text| == |prefix| + 1 + |symbols| {
      RestShows(text[|prefix| + 1..], symbols);
    }
  }

  /** Data and six symbols more that make the checksum valid. */
  ghost predicate Completes(symbols: seq<bv5>, prefix: string, data: seq<bv5>) {
    |symbols| == |data| + 6 && symbols[..|data|] == data && Checked(prefix, symbols)
  }

  lemma CompletesExact(symbols: seq<bv5>, prefix: string, data: seq<bv5>)
    requires AllBytes(prefix)
    ensures Completes(symbols, prefix, data) <==> symbols == Tail(prefix, data)
  {
    hide Checked, Checksum, AllBytes;
    if |symbols| == |data| + 6 {
      CheckedExact(prefix, symbols);
    }
    assert Tail(prefix, data)[..|data|] == data;
  }

  /** The encoder writes exactly the letters of the data and of six symbols that complete it. */
  lemma EncodeExact(prefix: string, data: seq<bv5>, text: string)
    requires AllBytes(prefix)
    ensures text == Encode(prefix, data)
            <==> exists symbols :: Completes(symbols, prefix, data) && Written(text, prefix, symbols, false)
  {
    hide Completes, Written, Letters, Tail, AllBytes;
    CompletesExact(Tail(prefix, data), prefix, data);
    WrittenLetters(text, prefix, Tail(prefix, data));
    if symbols :| Completes(symbols, prefix, data) && Written(text, prefix, symbols, false) {
      CompletesExact(symbols, prefix, data);
    }
  }

  /** The decoder takes exactly such texts, capitals allowed after the separator. */
  lemma DecodeChecked(text: string, prefix: string, data: seq<bv5>)
    requires AllBytes(prefix)
    ensures Decode(text) == Some((prefix, data))
            <==> exists symbols :: Completes(symbols, prefix, data) && Written(text, prefix, symbols, true)
  {
    hide Completes, Written, Letters, Tail, AllBytes, Decode, LowerAll;
    DecodeExact(text, prefix, data);
    CompletesExact(Tail(prefix, data), prefix, data);
    WrittenLetters(text, prefix, Tail(prefix, data));
    if symbols :| Completes(symbols, prefix, data) && Written(text, prefix, symbols, true) {
      CompletesExact(symbols, prefix, data);
    }
  }

  // ---- a known text -----------------------------------------------------------------------

  const KNOWN_VALUES: seq<bv8> := [3, 0, 1, 0, 0, 0, 0, 0, 0]

  const KNOWN_WORDS: seq<bv32> :=
    [1, 0x23, 0x460, 0x8c01, 0x118020, 0x2300400, 0x3d6ad7b2, 0x2fd30b9, 0x24cc4092, 0x15ccfe9e]

  lemma KnownSteps()
    ensures forall i :: 0 <= i < 9 ==> Step(KNOWN_WORDS[i], KNOWN_VALUES[i]) == KNOWN_WORDS[i + 1]
  {
  }

  lemma {:induction false} KnownWord(n: nat)
    requires n <= 9
    ensures Polymod(1, KNOWN_VALUES[..n]) == KNOWN_WORDS[n]
  {
    hide Step;
    if n > 0 {
      KnownWord(n - 1);
      KnownSteps();
      assert KNOWN_VALUES[..n] == KNOWN_VALUES[..n - 1] + [KNOWN_VALUES[n - 1]];
      PolymodSnoc(1, KNOWN_VALUES[..n - 1], KNOWN_VALUES[n - 1]);
    }
  }

  lemma KnownValues()
    ensures PrefixValues("a") + Values([]) == [3, 0, 1]
  {
    assert HighBits('a') == 3 && LowBits('a') == 1;
    hide HighBits, LowBits;
    assert PrefixValues("a") == [3, 0, 1];
  }

  lemma KnownSum()
    ensures Checksum([3, 0, 1]) == [10, 28, 25, 31, 20, 31]
  {
    hide Polymod;
    KnownWord(9);
    assert [3, 0, 1] + Zeros(6) == KNOWN_VALUES[..9];
  }

  lemma KnownLetters()
    ensures Letters([10, 28, 25, 31, 20, 31]) == "2uel5l"
  {
    assert Letter(10) == '2' && Letter(28) == 'u' && Letter(25) == 'e' && Letter(31) == 'l' && Letter(20) == '5';
    hide Letter;
  }

  /** A test vector of BIP 173. */
  lemma KnownText()
    ensures Encode("a", []) == "a12uel5l"
  {
    hide Checksum, PrefixValues, Values, Letters;
    KnownValues();
    KnownSum();
    KnownLetters();
    var none: seq<bv5> := [];
    assert none + [10, 28, 25, 31, 20, 31] == [10, 28, 25, 31, 20, 31];
  }
}
