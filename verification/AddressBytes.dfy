/** What an address text holds: version, hash and checksum bytes, or the groups of the hash. */
module AddressBytes {
  import opened Wrappers
  import opened Positional
  import Base58
  import Bech32
  import Bech32Values
  import ConvertBits
  import opened AddressCodec

  /** The 58 letters, in the order of their values. */
  const ALPHABET: string :=
    "123456789" + "ABCDEFGH" + "JKLMN" + "PQRSTUVWXYZ" + "abcdefghijk" + "mnopqrstuvwxyz"

  /** Characters that follow one another. */
  predicate Follows(part: string) {
    forall k :: 0 <= k < |part| ==> part[k] as int == part[0] as int + k
  }

  lemma PartsFollow()
    ensures Follows("123456789") && Follows("ABCDEFGH") && Follows("JKLMN") && Follows("PQRSTUVWXYZ")
    ensures Follows("abcdefghijk") && Follows("mnopqrstuvwxyz")
  {
  }

  lemma AlphabetExact(i: nat)
    requires i < 58
    ensures |ALPHABET| == 58 && Base58.Letter(i) == ALPHABET[i]
  {
    PartsFollow();
  }

  /** A public key hash address: version 0, the hash, and the first bytes of the double SHA-256 of both. */
  lemma KeyHashBytes(hashes: Hashes, h: seq<nat>)
    requires Digests(hashes) && Hash160(h)
    ensures var payload := [0x00] + h;
            var full := payload + hashes.sha256(hashes.sha256(payload))[..4];
            Base58.Decode(EncodeAddress(hashes, Bip44, h)) == Some(full)
            <==> exists i :: 0 <= i < |full| && full[i] != 0
  {
    hide Base58.Encode, Base58.Decode;
    var full := [0x00] + h + CheckBytes(hashes, [0x00] + h);
    Base58.RoundTrip(full);
  }

  /** A script hash address: version 5, the hash of the witness program of the key, and its checksum. */
  lemma ScriptHashBytes(hashes: Hashes, h: seq<nat>)
    requires Digests(hashes) && Hash160(h)
    ensures var payload := [0x05] + hashes.ripemd160(hashes.sha256([0x00, 0x14] + h));
            Base58.Decode(EncodeAddress(hashes, Bip49, h))
            == Some(payload + hashes.sha256(hashes.sha256(payload))[..4])
  {
    hide Base58.Encode, Base58.Decode;
    var payload := [0x05] + ScriptHash(hashes, h);
    assert (payload + CheckBytes(hashes, payload))[0] == 5;
    Base58.RoundTripNonzero(payload + CheckBytes(hashes, payload));
  }

  /** Version 0 and 32 groups of five bits that have the value of the hash. */
  ghost predicate HoldsHash(data: seq<bv5>, h: seq<nat>) {
    |data| == 33 && data[0] == 0 && Big(Wide(data[1..]), 32) == Big(h, 256)
  }

  /** A witness address spells, behind bc1, symbols that hold the hash, and six that complete them. */
  lemma WitnessSymbols(hashes: Hashes, h: seq<nat>)
    requires Digests(hashes) && Hash160(h)
    ensures exists data, symbols ::
              && HoldsHash(data, h) && Bech32Values.Completes(symbols, "bc", data)
              && Bech32Values.Written(EncodeAddress(hashes, Bip84, h), "bc", symbols, false)
  {
    ConvertBits.PowWord();
    hide Pow, ConvertBits.Convert, Bech32.Encode, Narrow, Wide, Bech32Values.Completes, Bech32Values.Written, Big;
    GroupsFit(h);
    var groups := ConvertBits.Convert(h, 8, 5, true);
    var zeros := ConvertBits.PaddedValue(h, 8, 5);
    ConvertBits.PowZero();
    assert zeros == 0;
    WideNarrow(groups);
    var data := [0 as bv5] + Narrow(groups);
    assert data[1..] == Narrow(groups);
    assert HoldsHash(data, h);
    Bech32Values.EncodeExact("bc", data, EncodeAddress(hashes, Bip84, h));
  }
}
