/** Which texts the decoder reads as an address of one of the two legacy families. */
module LegacyTexts {
  import opened Wrappers
  import opened Positional
  import opened Base58
  import opened AddressCodec

  // ---- Base58 texts of given bytes --------------------------------------------------------

  /**
   * The text is a Base58 numeral of the bytes, with a leading one for each leading zero byte. Its
   * digits are looked up as the decoder does: NUL is one too, of value 58.
   */
  predicate Denotes(text: string, data: seq<nat>) {
    var ds := Indices(text);
    && ds.Some?
    && if AllZero(data) then data != [] && text == Repeat('1', |data| - 1)
       else LeadingOnes(text) == LeadingZeros(data) && Big(ds.value, 58) == Big(data, 256)
  }

  lemma ZeroIndex(c: char)
    ensures CharIndex(c) == Some(0) <==> c == '1'
  {
    assert Letter(0) == '1';
  }

  lemma {:induction false} LeadingOnesAreZeros(text: string, ds: seq<nat>)
    requires |ds| == |text| && forall i :: 0 <= i < |text| ==> CharIndex(text[i]) == Some(ds[i])
    ensures LeadingOnes(text) == LeadingZeros(ds)
  {
    hide CharIndex;
    if text != [] {
      ZeroIndex(text[0]);
      LeadingOnesAreZeros(text[1..], ds[1..]);
    }
  }

  lemma {:induction false} LeadingAll(ds: seq<nat>)
    ensures AllZero(ds) <==> LeadingZeros(ds) == |ds|
  {
    if ds != [] {
      LeadingAll(ds[1..]);
      assert ds == [ds[0]] + ds[1..];
    }
  }

  lemma OnesOnly(text: string, ds: seq<nat>)
    requires Indices(text) == Some(ds)
    ensures LeadingOnes(text) == LeadingZeros(ds)
    ensures AllZero(ds) <==> text == Repeat('1', |text|)
  {
    hide CharIndex;
    LeadingOnesAreZeros(text, ds);
    LeadingAll(ds);
    if AllZero(ds) {
      assert forall i :: 0 <= i < |text| ==> text[i] == Repeat('1', |text|)[i];
    } else {
      assert text[LeadingOnes(text)] != '1';
    }
  }

  /** A nonzero string is its leading zeros and a numeral without any. */
  lemma SplitZeros(ds: seq<nat>, base: nat)
    requires !AllZero(ds)
    ensures var z := LeadingZeros(ds);
            && z < |ds| && ds == Repeat(0, z) + ds[z..] && ds[z] != 0
            && Big(ds, base) == Big(ds[z..], base)
  {
    hide Big;
    LeadingAll(ds);
    var z := LeadingZeros(ds);
    assert ds == Repeat(0, z) + ds[z..];
    BigDropsLeadingZeros(z, ds[z..], base);
  }

  lemma DecodeNonzero(text: string, ds: seq<nat>, data: seq<nat>)
    requires Indices(text) == Some(ds) && !AllZero(ds) && Bytes(data)
    ensures Decode(text) == Some(data) <==> Denotes(text, data)
  {
    hide Rebase, Big, Indices, Reverse;
    OnesOnly(text, ds);
    SplitZeros(ds, 58);
    var z := LeadingZeros(ds);
    var r := Reverse(Rebase(ds, 58, 256));
    RebaseNumeral(z, ds[z..], 58, 256);
    assert Decode(text) == Some(Repeat(0, z) + r);
    if AllZero(data) {
      assert (Repeat(0, z) + r)[z] != 0;
    } else {
      SplitZeros(data, 256);
      LeadingZerosSplit(z, r);
      assert LeadingZeros(r) == 0;
      if LeadingZeros(data) == z && Big(ds, 58) == Big(data, 256) {
        BigUnique(r, data[z..], 256);
      }
    }
  }

  lemma DecodeOnes(text: string, ds: seq<nat>, data: seq<nat>)
    requires Indices(text) == Some(ds) && AllZero(ds)
    ensures Decode(text) == Some(data) <==> Denotes(text, data)
  {
    hide Rebase, Big, Indices;
    OnesOnly(text, ds);
    LeadingAll(ds);
    RebaseShape(ds, 58, 256);
    ReverseOne(0);
    var zero: seq<nat> := [0];
    assert Decode(text) == Some(Repeat<nat>(0, |text|) + zero);
    if AllZero(data) {
      assert |data| == |text| + 1 ==> data == Repeat<nat>(0, |text|) + zero;
    } else {
      ZeroBig(ds, 58);
      SplitZeros(data, 256);
      PositiveBig(data[LeadingZeros(data)..], 256);
    }
  }

  lemma {:induction false} ZeroBig(ds: seq<nat>, base: nat)
    requires AllZero(ds)
    ensures Big(ds, base) == 0
  {
    if ds != [] {
      ZeroBig(ds[..|ds| - 1], base);
    }
  }

  lemma {:induction false} PositiveBig(ds: seq<nat>, base: nat)
    requires ds != [] && ds[0] != 0 && base > 0
    ensures Big(ds, base) > 0
  {
    if |ds| > 1 {
      PositiveBig(ds[..|ds| - 1], base);
    }
  }

  /** Exactly the texts that decode to given bytes. */
  lemma DecodeExact(text: string, data: seq<nat>)
    requires Bytes(data)
    ensures Decode(text) == Some(data) <==> Denotes(text, data)
  {
    hide Decode;
    var ds := Indices(text);
    if ds.Some? {
      if AllZero(ds.value) {
        DecodeOnes(text, ds.value, data);
      } else {
        DecodeNonzero(text, ds.value, data);
      }
    } else {
      assert Decode(text).None? by { NoIndices(text); }
    }
  }

  lemma NoIndices(text: string)
    requires Indices(text).None?
    ensures Decode(text).None?
  {
  }

  // ---- addresses --------------------------------------------------------------------------

  function Version(family: Family): nat {
    if family.Bip49? then 5 else 0
  }

  /** The 25 bytes of a legacy address. */
  function FullBytes(hashes: Hashes, family: Family, h: seq<nat>): seq<nat>
    requires |hashes.sha256(hashes.sha256([Version(family)] + h))| >= 4
  {
    [Version(family)] + h + CheckBytes(hashes, [Version(family)] + h)
  }

  lemma Decodes(hashes: Hashes, text: string, family: Family, h: seq<nat>)
    requires Digests(hashes) && Hash160(h) && !family.Bip84?
    ensures LookupKey(hashes, text) == Some(Key(family, h))
            <==> !("bc1" <= text) && Decode(text) == Some(FullBytes(hashes, family, h))
  {
    hide Decode, Indices, Bech32.Decode, ConvertBits.ConvertChecked;
    var payload := [Version(family)] + h;
    var full := FullBytes(hashes, family, h);
    assert full[..21] == payload && full[21..] == CheckBytes(hashes, payload);
    assert payload[1..] == h;
    if CheckDecode(hashes, text).Some? && |CheckDecode(hashes, text).value| == 21 {
      var found, raw := CheckDecode(hashes, text).value, Decode(text).value;
      assert raw == found + CheckBytes(hashes, found) && found == [found[0]] + found[1..];
    }
  }

  /**
   * Exactly the texts that give a legacy key: those that do not begin like a witness address and
   * denote version, hash and checksum.
   */
  lemma LegacyExact(hashes: Hashes, text: string, family: Family, h: seq<nat>)
    requires Digests(hashes) && Hash160(h) && !family.Bip84?
    ensures LookupKey(hashes, text) == Some(Key(family, h))
            <==> !("bc1" <= text) && Denotes(text, FullBytes(hashes, family, h))
  {
    hide Decode, Denotes, LookupKey;
    Decodes(hashes, text, family, h);
    DecodeExact(text, FullBytes(hashes, family, h));
  }

  lemma LettersSpell(text: string, ds: seq<nat>)
    requires '\0' !in text && Indices(text) == Some(ds)
    ensures Digits(ds, 58) && text == Spell(ds)
  {
    forall i | 0 <= i < |text| ensures ds[i] < 58 && text[i] == Letter(ds[i]) {
      assert text[i] in text && CharIndex(text[i]) == Some(ds[i]);
    }
  }

  lemma LettersDecode(text: string, data: seq<nat>)
    requires '\0' !in text && Bytes(data) && data != []
    ensures Decode(text) == Some(data) <==> text == if AllZero(data) then Repeat('1', |data| - 1) else Encode(data)
  {
    hide Encode, Decode, Big, Rebase, Indices;
    DecodeExact(text, data);
    if Decode(text) == Some(data) && !AllZero(data) {
      var ds := Indices(text).value;
      LettersSpell(text, ds);
      if AllZero(ds) {
        ZeroBig(ds, 58);
        SplitZeros(data, 256);
        PositiveBig(data[LeadingZeros(data)..], 256);
      } else {
        DecodeThenEncodeNonzero(ds);
      }
    }
    if AllZero(data) {
      var ds := Repeat<nat>(0, |data| - 1);
      assert Spell(ds) == Repeat('1', |data| - 1) by { assert Letter(0) == '1'; }
      IndicesOfSpelling(ds);
    } else {
      RoundTripNonzero(data);
    }
  }

  /** Of the texts without NUL that is the address itself, and ones alone for bytes that are all zero. */
  lemma LegacyLettersExact(hashes: Hashes, text: string, family: Family, h: seq<nat>)
    requires Digests(hashes) && Hash160(h) && !family.Bip84? && '\0' !in text
    ensures var full := FullBytes(hashes, family, h);
            LookupKey(hashes, text) == Some(Key(family, h))
            <==> text == if AllZero(full) then Repeat('1', 24) else Encode(full)
  {
    hide Encode, Decode, LookupKey;
    var full := FullBytes(hashes, family, h);
    assert full[0] == Version(family);
    Decodes(hashes, text, family, h);
    LettersDecode(text, full);
    FirstLetter(full);
  }
}
