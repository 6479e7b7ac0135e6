/**
 * Base58 (address_encode.cpp, address_decode.cpp). Encoder and decoder run the same
 * in-place carry loop on a little-endian digit vector, the one from base 256 to base 58,
 * the other from base 58 to base 256.
 */
module Base58 {
  import opened Wrappers
  import opened Positional

  /** The 58 letters: digits without 0, capitals without I and O, small letters without l. */
  function Letter(i: nat): (c: char)
    requires i < 58
    ensures c != '\0' && (c == '1' <==> i == 0)
  {
    if i < 9 then (i + '1' as int) as char
    else if i < 17 then (i - 9 + 'A' as int) as char
    else if i < 22 then (i - 17 + 'J' as int) as char
    else if i < 33 then (i - 22 + 'P' as int) as char
    else if i < 44 then (i - 33 + 'a' as int) as char
    else (i - 44 + 'm' as int) as char
  }

  // ---- the carry loop, as a function -----------------------------------------------------

  /** The digits pushed while the carry is positive. */
  function Push(carry: nat, to: nat): (r: seq<nat>)
    requires to > 1
    ensures Digits(r, to)
    ensures carry > 0 <==> r != []
    ensures r != [] ==> Trimmed(r)
  {
    if carry == 0 then []
    else
      DivFacts(carry, to);
      [carry % to] + Push(carry / to, to)
  }

  /** One pass of the carry loop: multiply the numeral by `from` and add `carry`. */
  function MulAdd(ds: seq<nat>, from: nat, carry: nat, to: nat): (r: seq<nat>)
    requires to > 1
    ensures Digits(r, to)
    ensures |r| >= |ds|
  {
    if ds == [] then Push(carry, to)
    else
      var sum := carry + ds[0] * from;
      DivFacts(sum, to);
      [sum % to] + MulAdd(ds[1..], from, sum / to, to)
  }

  /** The digit vector after the whole input: it starts as a single zero. */
  function Rebase(input: seq<nat>, from: nat, to: nat): (r: seq<nat>)
    requires to > 1
    ensures Digits(r, to) && r != []
  {
    if input == [] then [0]
    else MulAdd(Rebase(input[..|input| - 1], from, to), from, input[|input| - 1], to)
  }

  lemma {:induction false} PushValue(carry: nat, to: nat)
    requires to > 1
    ensures Little(Push(carry, to), to) == carry
  {
    if carry > 0 {
      DivFacts(carry, to);
      PushValue(carry / to, to);
      assert Push(carry, to)[1..] == Push(carry / to, to);
    }
  }

  lemma CarryStep(d: nat, rest: nat, from: nat, carry: nat, to: nat)
    requires to > 0
    ensures var sum := carry + d * from;
            sum % to + to * (rest * from + sum / to) == (d + to * rest) * from + carry
  {
    var sum := carry + d * from;
    assert sum == to * (sum / to) + sum % to;
    assert to * (rest * from + sum / to) == to * (rest * from) + to * (sum / to);
    assert (d + to * rest) * from == d * from + to * rest * from;
    assert to * rest * from == to * (rest * from);
  }

  /** The carry loop multiplies the number by `from` and adds the incoming digit. */
  lemma {:induction false} MulAddValue(ds: seq<nat>, from: nat, carry: nat, to: nat)
    requires to > 1
    ensures Little(MulAdd(ds, from, carry, to), to) == Little(ds, to) * from + carry
  {
    if ds == [] {
      PushValue(carry, to);
    } else {
      var sum := carry + ds[0] * from;
      var tail := MulAdd(ds[1..], from, sum / to, to);
      MulAddValue(ds[1..], from, sum / to, to);
      assert MulAdd(ds, from, carry, to) == [sum % to] + tail;
      assert MulAdd(ds, from, carry, to)[1..] == tail;
      CarryStep(ds[0], Little(ds[1..], to), from, carry, to);
    }
  }

  /** Re-basing keeps the number the input denotes. */
  lemma {:induction false} RebaseValue(input: seq<nat>, from: nat, to: nat)
    requires to > 1
    ensures Little(Rebase(input, from, to), to) == Big(input, from)
  {
    if input != [] {
      var front := input[..|input| - 1];
      RebaseValue(front, from, to);
      MulAddValue(Rebase(front, from, to), from, input[|input| - 1], to);
    }
  }

  lemma Positive(d: nat, from: nat)
    requires d > 0 && from > 0
    ensures d * from > 0
  {
  }

  lemma {:induction false} PushTrimmed(n: nat, to: nat)
    requires to > 1 && n > 0
    ensures Trimmed([n % to] + Push(n / to, to))
  {
    DivFacts(n, to);
    if n / to > 0 {
      PushTrimmed(n / to, to);
    }
  }

  /** A nonzero top digit stays nonzero: its product either fits the digit or is carried. */
  lemma {:induction false} MulAddKeepsTop(ds: seq<nat>, from: nat, carry: nat, to: nat)
    requires to > 1 && from > 0 && Trimmed(ds)
    ensures Trimmed(MulAdd(ds, from, carry, to))
  {
    var sum := carry + ds[0] * from;
    DivFacts(sum, to);
    if |ds| == 1 {
      Positive(ds[0], from);
      assert MulAdd(ds[1..], from, sum / to, to) == Push(sum / to, to);
      PushTrimmed(sum, to);
    } else {
      MulAddKeepsTop(ds[1..], from, sum / to, to);
    }
  }

  predicate AllZero(input: seq<nat>) {
    forall i :: 0 <= i < |input| ==> input[i] == 0
  }

  lemma OneDigit(d: nat, sum: nat, from: nat, carry: nat, to: nat)
    requires to > 1 && sum == carry + d * from
    ensures MulAdd([d], from, carry, to) == [sum % to] + Push(sum / to, to)
  {
    var ds := [d];
    assert ds[0] == d && ds[1..] == [];
    assert MulAdd(ds[1..], from, sum / to, to) == Push(sum / to, to);
  }

  lemma NoDigit(to: nat)
    requires to > 1
    ensures 0 % to == 0 && Push(0 / to, to) == []
  {
  }

  /** Before the first nonzero byte the digit vector is a single zero. */
  lemma FirstByte(from: nat, byte: nat, to: nat)
    requires to > 1
    ensures MulAdd([0], from, byte, to) == [byte % to] + Push(byte / to, to)
    ensures byte == 0 ==> MulAdd([0], from, byte, to) == [0]
  {
    hide MulAdd, Push;
    OneDigit(0, byte, from, byte, to);
    NoDigit(to);
  }

  /** The digit vector has no leading zero exactly when some input digit is not zero. */
  lemma {:induction false} RebaseShape(input: seq<nat>, from: nat, to: nat)
    requires to > 1 && from > 0
    ensures AllZero(input) ==> Rebase(input, from, to) == [0]
    ensures !AllZero(input) ==> Trimmed(Rebase(input, from, to))
  {
    hide MulAdd, Push, Trimmed;
    if input != [] {
      var front, last := input[..|input| - 1], input[|input| - 1];
      RebaseShape(front, from, to);
      if !AllZero(front) {
        MulAddKeepsTop(Rebase(front, from, to), from, last, to);
      } else {
        FirstByte(from, last, to);
        if last > 0 {
          PushTrimmed(last, to);
        }
      }
    }
  }

  // ---- the two programs -------------------------------------------------------------------

  predicate Bytes(data: seq<nat>) {
    Digits(data, 256)
  }

  function LeadingZeros(data: seq<nat>): (k: nat)
    ensures k <= |data|
    ensures forall i :: 0 <= i < k ==> data[i] == 0
    ensures k < |data| ==> data[k] != 0
  {
    if data == [] || data[0] != 0 then 0 else 1 + LeadingZeros(data[1..])
  }

  function Spell(ds: seq<nat>): (s: string)
    requires Digits(ds, 58)
    ensures |s| == |ds|
  {
    seq(|ds|, i requires 0 <= i < |ds| => Letter(ds[i]))
  }

  function Encode(data: seq<nat>): string {
    Repeat('1', LeadingZeros(data)) + Spell(Reverse(Rebase(data, 256, 58)))
  }

  /** strchr also finds the terminator, so a NUL character has index 58. */
  function CharIndex(c: char): Option<nat> {
    if c == '\0' then Some(58) else FindFrom(c, 0)
  }

  function FindFrom(c: char, i: nat): (r: Option<nat>)
    requires i <= 58
    ensures r.Some? ==> i <= r.value < 58 && Letter(r.value) == c
    ensures r.None? ==> forall k :: i <= k < 58 ==> Letter(k) != c
    decreases 58 - i
  {
    if i == 58 then None
    else if Letter(i) == c then Some(i)
    else FindFrom(c, i + 1)
  }

  /** The digit values of a text, or None when it holds a character outside the alphabet. */
  function Indices(s: string): (r: Option<seq<nat>>)
    ensures r.Some? ==> |r.value| == |s|
    ensures r.Some? ==> forall i :: 0 <= i < |s| ==> CharIndex(s[i]) == Some(r.value[i])
    ensures r.None? ==> exists i :: 0 <= i < |s| && CharIndex(s[i]).None?
  {
    if s == [] then Some([])
    else
      var front := Indices(s[..|s| - 1]);
      var last := CharIndex(s[|s| - 1]);
      if front.None? || last.None? then None
      else Some(front.value + [last.value])
  }

  function LeadingOnes(s: string): (k: nat)
    ensures k <= |s|
    ensures forall i :: 0 <= i < k ==> s[i] == '1'
    ensures k < |s| ==> s[k] != '1'
  {
    if s == [] || s[0] != '1' then 0 else 1 + LeadingOnes(s[1..])
  }

  function Decode(s: string): Option<seq<nat>> {
    var ds := Indices(s);
    if ds.None? then None
    else Some(Repeat(0, LeadingOnes(s)) + Reverse(Rebase(ds.value, 58, 256)))
  }

  lemma CarryLoopStep(r: seq<nat>, i: nat, from: nat, carry: nat, to: nat)
    requires to > 1 && i < |r|
    ensures var sum := carry + r[i] * from;
            && sum / to >= 0 && sum % to >= 0
            && r[..i] + MulAdd(r[i..], from, carry, to)
               == r[i := sum % to][..i + 1] + MulAdd(r[i + 1..], from, sum / to, to)
  {
    var sum := carry + r[i] * from;
    DivFacts(sum, to);
    assert r[i..][0] == r[i] && r[i..][1..] == r[i + 1..];
    assert r[i := sum % to][..i + 1] == r[..i] + [sum % to];
  }

  /** One byte of the encoder or one character of the decoder, on the digit vector in place. */
  method CarryLoop(digits: seq<nat>, from: nat, digit: nat, to: nat) returns (r: seq<nat>)
    requires to > 1
    ensures r == MulAdd(digits, from, digit, to)
  {
    r := digits;
    var carry: nat := digit;
    var i := 0;
    while i < |r|
      invariant 0 <= i <= |r| == |digits|
      invariant r[i..] == digits[i..]
      invariant r[..i] + MulAdd(r[i..], from, carry, to) == MulAdd(digits, from, digit, to)
    {
      CarryLoopStep(r, i, from, carry, to);
      carry := carry + r[i] * from;
      r := r[i := carry % to];
      carry := carry / to;
      i := i + 1;
    }
    assert r[i..] == [] && r[..i] == r;
    while carry > 0
      decreases carry
      invariant r + Push(carry, to) == MulAdd(digits, from, digit, to)
    {
      DivFacts(carry, to);
      hide MulAdd;
      assert r + Push(carry, to) == (r + [carry % to]) + Push(carry / to, to);
      r := r + [carry % to];
      carry := carry / to;
    }
  }

  /** The encoder's outer loop: one carry pass per byte. */
  method EncodeDigits(data: seq<nat>) returns (digits: seq<nat>)
    requires Bytes(data)
    ensures digits == Rebase(data, 256, 58)
  {
    digits := [0];
    for n := 0 to |data|
      invariant digits == Rebase(data[..n], 256, 58)
    {
      assert data[..n + 1][..n] == data[..n];
      digits := CarryLoop(digits, 256, data[n], 58);
    }
    assert data[..|data|] == data;
  }

  /** Walking the vector from its end copies it in reverse. */
  method CopyReversed(ds: seq<nat>) returns (r: seq<nat>)
    ensures r == Reverse(ds)
  {
    r := [];
    var j := |ds|;
    while j > 0
      invariant 0 <= j <= |ds|
      invariant r == Reverse(ds)[..|ds| - j]
    {
      j := j - 1;
      r := r + [ds[j]];
    }
  }

  method Base58Encode(data: seq<nat>) returns (out: string)
    requires Bytes(data)
    ensures out == Encode(data)
  {
    var digits := EncodeDigits(data);
    out := "";
    var k := 0;
    while k < |data| && data[k] == 0
      invariant 0 <= k <= LeadingZeros(data)
      invariant out == Repeat('1', k)
    {
      out := out + [Letter(0)];
      assert out == Repeat('1', k + 1);
      k := k + 1;
    }
    var spelled := CopyReversed(digits);
    out := out + Spell(spelled);
  }

  /** The decoder's outer loop: stops at the first character outside the alphabet. */
  method DecodeBytes(input: string) returns (bytes: Option<seq<nat>>)
    ensures bytes.None? <==> Indices(input).None?
    ensures bytes.Some? ==> bytes.value == Rebase(Indices(input).value, 58, 256)
  {
    var out: seq<nat> := [0];
    for n := 0 to |input|
      invariant Indices(input[..n]).Some?
      invariant out == Rebase(Indices(input[..n]).value, 58, 256)
    {
      assert input[..n + 1][..n] == input[..n];
      var index := CharIndex(input[n]);
      if index.None? {
        assert Indices(input).None?;
        return None;
      }
      assert Indices(input[..n + 1]).value[..n] == Indices(input[..n]).value;
      out := CarryLoop(out, 58, index.value, 256);
    }
    assert input[..|input|] == input;
    bytes := Some(out);
  }

  method Base58Decode(input: string) returns (out: Option<seq<nat>>)
    ensures out == Decode(input)
  {
    var bytes := DecodeBytes(input);
    if bytes.None? {
      return None;
    }
    var zeros := 0;
    while zeros < |input| && input[zeros] == Letter(0)
      invariant 0 <= zeros <= LeadingOnes(input)
    {
      zeros := zeros + 1;
    }
    var reversed := CopyReversed(bytes.value);
    out := Some(Repeat(0, zeros) + reversed);
  }

  // ---- round trips ------------------------------------------------------------------------

  lemma {:induction false} FindLetter(i: nat, j: nat)
    requires j <= i < 58
    ensures FindFrom(Letter(i), j) == Some(i)
    decreases i - j
  {
    if j < i {
      assert Letter(j) != Letter(i);
      FindLetter(i, j + 1);
    }
  }

  lemma {:induction false} IndicesOfSpelling(ds: seq<nat>)
    requires Digits(ds, 58)
    ensures Indices(Spell(ds)) == Some(ds)
  {
    if ds != [] {
      var front := ds[..|ds| - 1];
      IndicesOfSpelling(front);
      assert Spell(ds)[..|ds| - 1] == Spell(front);
      FindLetter(ds[|ds| - 1], 0);
      assert front + [ds[|ds| - 1]] == ds;
    }
  }

  lemma {:induction false} LeadingOnesOfSpelling(ds: seq<nat>)
    requires Digits(ds, 58)
    ensures LeadingOnes(Spell(ds)) == LeadingZeros(ds)
  {
    if ds != [] && ds[0] == 0 {
      LeadingOnesOfSpelling(ds[1..]);
      assert Spell(ds)[1..] == Spell(ds[1..]);
    }
  }

  lemma {:induction false} LeadingZerosSplit(zeros: nat, ds: seq<nat>)
    ensures LeadingZeros(Repeat(0, zeros) + ds) == zeros + LeadingZeros(ds)
  {
    hide Repeat;
    var all := Repeat(0, zeros) + ds;
    if zeros == 0 {
      assert all == ds;
    } else {
      LeadingZerosSplit(zeros - 1, ds);
      assert all[0] == 0;
      assert all[1..] == Repeat(0, zeros - 1) + ds;
    }
  }

  /** Re-basing a numeral, leading zeros skipped, keeps its value and gives no leading zero. */
  lemma RebaseNumeral(zeros: nat, ds: seq<nat>, from: nat, to: nat)
    requires from > 0 && to > 1 && ds != [] && ds[0] != 0
    ensures var r := Reverse(Rebase(Repeat(0, zeros) + ds, from, to));
            Digits(r, to) && r != [] && r[0] != 0 && Big(r, to) == Big(ds, from)
  {
    var all := Repeat(0, zeros) + ds;
    var r := Rebase(all, from, to);
    assert all[zeros] == ds[0];
    RebaseShape(all, from, to);
    RebaseValue(all, from, to);
    BigIsLittleReversed(r, to);
    BigDropsLeadingZeros(zeros, ds, from);
  }

  /** Re-basing there and back returns the numeral. */
  lemma RebaseInverse(zeros: nat, ds: seq<nat>, from: nat, to: nat)
    requires from > 1 && to > 1 && Digits(ds, from) && ds != [] && ds[0] != 0
    ensures var r := Reverse(Rebase(Repeat(0, zeros) + ds, from, to));
            Reverse(Rebase(Repeat(0, zeros) + r, to, from)) == ds
  {
    var r := Reverse(Rebase(Repeat(0, zeros) + ds, from, to));
    RebaseNumeral(zeros, ds, from, to);
    RebaseNumeral(zeros, r, to, from);
    BigUnique(Reverse(Rebase(Repeat(0, zeros) + r, to, from)), ds, from);
  }

  /** The encoder's text spells the leading zeros and the re-based digits. */
  lemma EncodeSpells(data: seq<nat>)
    ensures Encode(data) == Spell(Repeat(0, LeadingZeros(data)) + Reverse(Rebase(data, 256, 58)))
  {
  }

  /** What the decoder makes of a text of letters. */
  lemma DecodeOfSpelling(ds: seq<nat>)
    requires Digits(ds, 58)
    ensures Decode(Spell(ds)) == Some(Repeat(0, LeadingZeros(ds)) + Reverse(Rebase(ds, 58, 256)))
  {
    IndicesOfSpelling(ds);
    LeadingOnesOfSpelling(ds);
  }

  lemma RoundTripNonzero(data: seq<nat>)
    requires Bytes(data) && !AllZero(data)
    ensures Decode(Encode(data)) == Some(data)
  {
    hide Rebase, Reverse, Encode, Decode, Spell, Repeat, LeadingZeros;
    var z := LeadingZeros(data);
    var rest := data[z..];
    assert data == Repeat(0, z) + rest;
    var ds := Reverse(Rebase(data, 256, 58));
    RebaseNumeral(z, rest, 256, 58);
    EncodeSpells(data);
    DecodeOfSpelling(Repeat(0, z) + ds);
    LeadingZerosSplit(z, ds);
    RebaseInverse(z, rest, 256, 58);
  }

  /** Zero bytes alone come back with two bytes too many: the digit vector of zero is not empty. */
  lemma RoundTripAllZero(data: seq<nat>)
    requires AllZero(data)
    ensures Decode(Encode(data)) == Some(Repeat<nat>(0, |data| + 2))
  {
    hide Rebase, Reverse, Encode, Decode, Spell, Repeat, LeadingZeros;
    var n := |data|;
    var zero: seq<nat> := [0];
    RebaseShape(data, 256, 58);
    EncodeSpells(data);
    var all: seq<nat> := Repeat(0, n) + Reverse(zero);
    assert LeadingZeros(data) == n && Reverse(zero) == zero;
    assert all == Repeat<nat>(0, n + 1) && AllZero(all);
    assert Encode(data) == Spell(all);
    DecodeOfSpelling(all);
    RebaseShape(all, 58, 256);
    assert LeadingZeros(all) == n + 1;
    assert Repeat<nat>(0, n + 1) + zero == Repeat<nat>(0, n + 2);
    assert Decode(Spell(all)) == Some(Repeat<nat>(0, n + 1) + zero);
  }

  /** Decoding undoes encoding exactly on the byte strings that hold a nonzero byte. */
  lemma RoundTrip(data: seq<nat>)
    requires Bytes(data)
    ensures Decode(Encode(data)) == Some(data) <==> !AllZero(data)
  {
    if AllZero(data) {
      RoundTripAllZero(data);
    } else {
      RoundTripNonzero(data);
    }
  }

  lemma DecodeThenEncodeNonzero(ds: seq<nat>)
    requires Digits(ds, 58) && !AllZero(ds)
    ensures Decode(Spell(ds)).Some? && Bytes(Decode(Spell(ds)).value)
    ensures Encode(Decode(Spell(ds)).value) == Spell(ds)
  {
    hide Rebase, Reverse, Encode, Decode, Spell, Repeat, LeadingZeros;
    var z := LeadingZeros(ds);
    var rest := ds[z..];
    assert ds == Repeat(0, z) + rest;
    var bytes := Reverse(Rebase(ds, 58, 256));
    RebaseNumeral(z, rest, 58, 256);
    DecodeOfSpelling(ds);
    LeadingZerosSplit(z, bytes);
    EncodeSpells(Repeat(0, z) + bytes);
    RebaseInverse(z, rest, 58, 256);
  }

  /** Ones alone are spelled again with two more. */
  lemma DecodeThenEncodeZero(ds: seq<nat>)
    requires Digits(ds, 58) && AllZero(ds)
    ensures Decode(Spell(ds)) == Some(Repeat<nat>(0, |ds| + 1))
    ensures Encode(Repeat<nat>(0, |ds| + 1)) == Spell(Repeat<nat>(0, |ds| + 2))
  {
    hide Rebase, Reverse, Encode, Decode, Spell, Repeat, LeadingZeros;
    var n := |ds|;
    var zero: seq<nat> := [0];
    var bytes := Repeat<nat>(0, n + 1);
    DecodeOfSpelling(ds);
    RebaseShape(ds, 58, 256);
    ReverseOne(0);
    assert LeadingZeros(ds) == n && Repeat<nat>(0, n) + zero == bytes;
    EncodeSpells(bytes);
    RebaseShape(bytes, 256, 58);
    assert LeadingZeros(bytes) == n + 1 && bytes + zero == Repeat<nat>(0, n + 2);
  }

  lemma ReverseOne(d: nat)
    ensures Reverse([d]) == [d]
  {
  }

  /** Encoding undoes decoding exactly on the texts of letters that are not ones alone. */
  lemma DecodeThenEncode(ds: seq<nat>)
    requires Digits(ds, 58)
    ensures Decode(Spell(ds)).Some?
    ensures Encode(Decode(Spell(ds)).value) == Spell(ds) <==> !AllZero(ds)
  {
    hide Encode, Decode, Repeat;
    if AllZero(ds) {
      DecodeThenEncodeZero(ds);
    } else {
      DecodeThenEncodeNonzero(ds);
    }
  }
}
