/**
 * Addresses as text (encode_address, address_to_lookup_key): the hash functions are
 * parameters, everything between the hash and the text is modelled.
 */
module AddressCodec {
  import opened Wrappers
  import opened Positional
  import Base58
  import Bech32
  import ConvertBits
  import WitnessGroups

  datatype Family = Bip44 | Bip49 | Bip84

  datatype Key = Key(family: Family, key20: seq<nat>)

  datatype Hashes = Hashes(sha256: seq<nat> -> seq<nat>, ripemd160: seq<nat> -> seq<nat>)

  /** All that is known of the hash functions: their digests are 32 and 20 bytes long. */
  ghost predicate Digests(hashes: Hashes) {
    && (forall x :: |hashes.sha256(x)| == 32 && Digits(hashes.sha256(x), 256))
    && (forall x :: |hashes.ripemd160(x)| == 20 && Digits(hashes.ripemd160(x), 256))
  }

  // ---- Base58Check ------------------------------------------------------------------------

  function CheckBytes(hashes: Hashes, payload: seq<nat>): seq<nat>
    requires |hashes.sha256(hashes.sha256(payload))| >= 4
  {
    hashes.sha256(hashes.sha256(payload))[..4]
  }

  function CheckEncode(hashes: Hashes, payload: seq<nat>): string
    requires |hashes.sha256(hashes.sha256(payload))| >= 4
  {
    Base58.Encode(payload + CheckBytes(hashes, payload))
  }

  ghost function CheckDecode(hashes: Hashes, text: string): Option<seq<nat>>
    requires Digests(hashes)
  {
    var raw := Base58.Decode(text);
    if raw.None? || |raw.value| < 5 then None
    else
      var n := |raw.value| - 4;
      if raw.value[n..] != CheckBytes(hashes, raw.value[..n]) then None else Some(raw.value[..n])
  }

  lemma CheckRoundTrip(hashes: Hashes, payload: seq<nat>)
    requires Digests(hashes) && Digits(payload, 256)
    requires payload != [] && !Base58.AllZero(payload + CheckBytes(hashes, payload))
    ensures CheckDecode(hashes, CheckEncode(hashes, payload)) == Some(payload)
  {
    hide Base58.Encode, Base58.Decode;
    var full := payload + CheckBytes(hashes, payload);
    Base58.RoundTripNonzero(full);
    assert full[..|payload|] == payload && full[|payload|..] == CheckBytes(hashes, payload);
  }

  // ---- five-bit groups --------------------------------------------------------------------

  function Narrow(ds: seq<nat>): (r: seq<bv5>)
    requires Digits(ds, 32)
    ensures |r| == |ds|
  {
    seq(|ds|, i requires 0 <= i < |ds| => ds[i] as bv5)
  }

  function Wide(symbols: seq<bv5>): (r: seq<nat>)
    ensures |r| == |symbols|
  {
    seq(|symbols|, i requires 0 <= i < |symbols| => symbols[i] as nat)
  }

  lemma NarrowOne(n: nat)
    requires n < 32
    ensures (n as bv5) as nat == n
  {
  }

  lemma WideNarrow(ds: seq<nat>)
    requires Digits(ds, 32)
    ensures Wide(Narrow(ds)) == ds
  {
    forall i | 0 <= i < |ds| ensures Wide(Narrow(ds))[i] == ds[i] {
      NarrowOne(ds[i]);
    }
  }

  // ---- whole addresses --------------------------------------------------------------------

  predicate Hash160(h: seq<nat>) {
    |h| == 20 && Digits(h, 256)
  }

  /** The script hash of a Bip49 address: of the witness program 00 14 <h>. */
  function ScriptHash(hashes: Hashes, h: seq<nat>): seq<nat> {
    hashes.ripemd160(hashes.sha256([0x00, 0x14] + h))
  }

  /** The twenty bytes an address of the family stands for. */
  function KeyBytes(hashes: Hashes, family: Family, h: seq<nat>): seq<nat> {
    if family.Bip49? then ScriptHash(hashes, h) else h
  }

  ghost function EncodeAddress(hashes: Hashes, family: Family, h: seq<nat>): string
    requires Digests(hashes) && Hash160(h)
  {
    match family
    case Bip84 =>
      GroupsFit(h);
      Bech32.Encode("bc", [0] + Narrow(ConvertBits.Convert(h, 8, 5, true)))
    case Bip49 => CheckEncode(hashes, [0x05] + ScriptHash(hashes, h))
    case Bip44 => CheckEncode(hashes, [0x00] + h)
  }

  /** Only a text that begins with bc1 is read as Bech32; everything else as Base58Check. */
  ghost function LookupKey(hashes: Hashes, text: string): Option<Key>
    requires Digests(hashes)
  {
    if "bc1" <= text then
      var decoded := Bech32.Decode(text);
      if decoded.None? then None
      else
        var (prefix, data) := decoded.value;
        if prefix != "bc" || data == [] || data[0] != 0 then None
        else
          var bytes := ConvertBits.ConvertChecked(Wide(data[1..]), 5, 8, false);
          if |bytes| != 20 then None else Some(Key(Bip84, bytes))
    else
      var payload := CheckDecode(hashes, text);
      if payload.None? || |payload.value| != 21 then None
      else if payload.value[0] == 0x00 then Some(Key(Bip44, payload.value[1..]))
      else if payload.value[0] == 0x05 then Some(Key(Bip49, payload.value[1..]))
      else None
  }

  lemma GroupsFit(h: seq<nat>)
    requires Digits(h, 256)
    ensures Digits(ConvertBits.Convert(h, 8, 5, true), 32)
  {
    ConvertBits.PowWord();
    hide Pow, ConvertBits.Convert;
    var _ := ConvertBits.PaddedValue(h, 8, 5);
  }

  lemma SegwitRoundTrip(hashes: Hashes, h: seq<nat>)
    requires Digests(hashes) && Hash160(h)
    ensures LookupKey(hashes, EncodeAddress(hashes, Bip84, h)) == Some(Key(Bip84, h))
  {
    ConvertBits.PowWord();
    hide Pow, ConvertBits.Convert, Bech32.Decode, Bech32.Tail, Narrow, Wide;
    GroupsFit(h);
    var groups := ConvertBits.Convert(h, 8, 5, true);
    var data := [0 as bv5] + Narrow(groups);
    var text := Bech32.Encode("bc", data);
    Bech32.RoundTrip("bc", data);
    assert text[..3] == "bc1";
    assert data[1..] == Narrow(groups);
    WideNarrow(groups);
    ConvertBits.RoundTrip(h, 8, 5);
  }

  lemma NarrowWide(symbols: seq<bv5>)
    ensures Digits(Wide(symbols), 32) && Narrow(Wide(symbols)) == symbols
  {
  }

  lemma WidePrefix(symbols: seq<bv5>, groups: seq<nat>)
    requires Digits(groups, 32)
    ensures |symbols| >= |groups| ==> (Wide(symbols)[..|groups|] == groups <==> symbols[..|groups|] == Narrow(groups))
  {
    if |symbols| >= |groups| {
      var front := symbols[..|groups|];
      assert Wide(symbols)[..|groups|] == Wide(front);
      WideNarrow(groups);
      NarrowWide(front);
    }
  }

  /** The symbols of a witness address: the version, the 32 groups of the hash, and perhaps one more. */
  ghost predicate WitnessOf(data: seq<bv5>, h: seq<nat>)
    requires Hash160(h)
  {
    GroupsFit(h);
    var groups := ConvertBits.Convert(h, 8, 5, true);
    && (|data| == 33 || |data| == 34) && |groups| == 32
    && data[0] == 0 && data[1..33] == Narrow(groups)
  }

  lemma WitnessBytes(data: seq<bv5>, h: seq<nat>)
    requires Hash160(h) && data != []
    ensures data[0] == 0 && ConvertBits.ConvertChecked(Wide(data[1..]), 5, 8, false) == h <==> WitnessOf(data, h)
  {
    ConvertBits.PowWord();
    hide Pow, ConvertBits.Convert, Narrow, Wide;
    GroupsFit(h);
    var groups, symbols := ConvertBits.Convert(h, 8, 5, true), data[1..];
    var zeros := ConvertBits.PaddedValue(h, 8, 5);
    assert |groups| == 32;
    NarrowWide(symbols);
    WitnessGroups.TwentyBytes(Wide(symbols), h);
    WidePrefix(symbols, groups);
    if |data| >= 33 {
      assert symbols[..32] == data[1..33];
    }
  }

  /**
   * Exactly the texts that give a witness key: those that spell its symbols. The decoder's regrouping
   * drops bits, so one more group of any value is let through, although BIP 173 forbids it.
   */
  lemma WitnessExact(hashes: Hashes, text: string, h: seq<nat>)
    requires Digests(hashes) && Hash160(h)
    ensures LookupKey(hashes, text) == Some(Key(Bip84, h))
            <==> exists data :: WitnessOf(data, h) && Bech32.Spells(text, "bc", data)
  {
    hide WitnessOf, Bech32.Spells, Bech32.Decode, ConvertBits.ConvertChecked, CheckDecode, Wide;
    if LookupKey(hashes, text) == Some(Key(Bip84, h)) {
      var data := Bech32.Decode(text).value.1;
      assert Bech32.Decode(text) == Some(("bc", data));
      Bech32.DecodeExact(text, "bc", data);
      WitnessBytes(data, h);
    }
    if data :| WitnessOf(data, h) && Bech32.Spells(text, "bc", data) {
      Bech32.DecodeExact(text, "bc", data);
      SpellsPrefix(text, data);
      WitnessNonempty(data, h);
      WitnessBytes(data, h);
    }
  }

  lemma WitnessNonempty(data: seq<bv5>, h: seq<nat>)
    requires Hash160(h)
    ensures WitnessOf(data, h) ==> data != []
  {
  }

  lemma SpellsPrefix(text: string, data: seq<bv5>)
    requires Bech32.Spells(text, "bc", data)
    ensures "bc1" <= text
  {
    assert text[..3] == "bc1";
  }

  /** A text with a needless 33rd group gives the key as well. */
  lemma ExtraGroupAccepted(hashes: Hashes, h: seq<nat>, x: bv5)
    requires Digests(hashes) && Hash160(h)
    ensures Digits(ConvertBits.Convert(h, 8, 5, true), 32)
    ensures LookupKey(hashes, Bech32.Encode("bc", [0] + Narrow(ConvertBits.Convert(h, 8, 5, true)) + [x]))
            == Some(Key(Bip84, h))
  {
    hide LookupKey, Bech32.Spells, Bech32.Decode, Bech32.Encode, ConvertBits.Convert, Narrow;
    GroupsFit(h);
    var groups := ConvertBits.Convert(h, 8, 5, true);
    var data := [0 as bv5] + Narrow(groups) + [x];
    ConvertBits.PowWord();
    var zeros := ConvertBits.PaddedValue(h, 8, 5);
    assert |groups| == 32 && data[1..33] == Narrow(groups);
    Bech32.RoundTrip("bc", data);
    Bech32.DecodeExact(Bech32.Encode("bc", data), "bc", data);
    WitnessExact(hashes, Bech32.Encode("bc", data), h);
  }

  // ---- the first letter of a Base58Check address --------------------------------------------

  lemma {:induction false} PowMonotone(base: nat, a: nat, b: nat)
    requires base > 0 && a <= b
    ensures Pow(base, a) <= Pow(base, b)
  {
    PowSum(base, b - a, a);
    MulMonotone(1, Pow(base, b - a), Pow(base, a));
  }

  lemma Pow256()
    ensures Pow(256, 24) == 6277101735386680763835789423207666416102355444464034512896
  {
    assert Pow(256, 8) == 18446744073709551616;
    PowSum(256, 8, 8);
    PowSum(256, 16, 8);
  }

  lemma Pow58()
    ensures Pow(58, 33) == 15599970876632771988160814054146447252125923204784443097088
    ensures Pow(58, 33) == 58 * Pow(58, 32)
  {
    assert Pow(58, 8) == 128063081718016;
    PowSum(58, 8, 8);
    PowSum(58, 16, 16);
  }

  /** A 25-byte number with leading byte 5 has no Base58 numeral with leading digit 34, the letter b. */
  lemma LeadingDigit(full: seq<nat>, ds: seq<nat>)
    requires |full| == 25 && Digits(full, 256) && full[0] == 5
    requires ds != [] && Digits(ds, 58) && Big(ds, 58) == Big(full, 256)
    ensures ds[0] != 34
  {
    hide Pow, Big;
    BigRange(full, 256);
    BigRange(ds, 58);
    Pow256();
    Pow58();
    var n := |ds| - 1;
    if n <= 32 {
      PowMonotone(58, n, 32);
    } else {
      PowMonotone(58, 33, n);
    }
  }

  lemma FirstLetter(full: seq<nat>)
    requires |full| == 25 && Digits(full, 256) && (full[0] == 0 || full[0] == 5)
    ensures !("bc1" <= Base58.Encode(full))
  {
    hide Base58.Rebase, Reverse, Big, Pow;
    Base58.EncodeSpells(full);
    var text := Base58.Encode(full);
    var zeros := Base58.LeadingZeros(full);
    if full[0] == 0 {
      assert text[0] == '1';
    } else {
      var ds := Reverse(Base58.Rebase(full, 256, 58));
      assert Repeat(0, 0) + full == full;
      Base58.RebaseNumeral(0, full, 256, 58);
      LeadingDigit(full, ds);
      assert text[0] == Base58.Letter(ds[0]);
    }
  }

  lemma LegacyRoundTrip(hashes: Hashes, version: nat, key20: seq<nat>)
    requires Digests(hashes) && Hash160(key20) && (version == 0 || version == 5)
    requires version == 5 || !Base58.AllZero([version] + key20 + CheckBytes(hashes, [version] + key20))
    ensures LookupKey(hashes, CheckEncode(hashes, [version] + key20))
            == Some(Key(if version == 0 then Bip44 else Bip49, key20))
  {
    hide Base58.Encode, Base58.Decode;
    var payload := [version] + key20;
    var full := payload + CheckBytes(hashes, payload);
    assert full[0] == version;
    FirstLetter(full);
    CheckRoundTrip(hashes, payload);
    assert payload[1..] == key20;
  }

  /** The one input Base58 loses: version, hash and checksum bytes all zero. */
  predicate AllBytesZero(hashes: Hashes, family: Family, h: seq<nat>)
    requires |hashes.sha256(hashes.sha256([0x00] + h))| >= 4
  {
    family.Bip44? && Base58.AllZero([0x00] + h + CheckBytes(hashes, [0x00] + h))
  }

  lemma ZeroAddressIsLost(hashes: Hashes, h: seq<nat>)
    requires Digests(hashes) && Hash160(h) && AllBytesZero(hashes, Bip44, h)
    ensures LookupKey(hashes, EncodeAddress(hashes, Bip44, h)).None?
  {
    hide Base58.Encode, Base58.Decode;
    var full := [0x00] + h + CheckBytes(hashes, [0x00] + h);
    assert full[0] == 0;
    FirstLetter(full);
    Base58.RoundTripAllZero(full);
  }

  /** Looking an address up gives back its family and bytes, unless every encoded byte is zero. */
  lemma AddressRoundTrip(hashes: Hashes, family: Family, h: seq<nat>)
    requires Digests(hashes) && Hash160(h)
    ensures LookupKey(hashes, EncodeAddress(hashes, family, h)) == Some(Key(family, KeyBytes(hashes, family, h)))
            <==> !AllBytesZero(hashes, family, h)
  {
    hide LookupKey, CheckEncode;
    match family
    case Bip84 => SegwitRoundTrip(hashes, h);
    case Bip49 => LegacyRoundTrip(hashes, 5, ScriptHash(hashes, h));
    case Bip44 =>
      if AllBytesZero(hashes, family, h) {
        ZeroAddressIsLost(hashes, h);
      } else {
        LegacyRoundTrip(hashes, 0, h);
      }
  }
}
