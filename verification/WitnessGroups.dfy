/** The five-bit groups that give twenty bytes (convert_bits in address_decode.cpp). */
module WitnessGroups {
  import opened ConvertBits
  import opened Positional

  /** Without padding, a last group that fills no byte is dropped. */
  lemma DropsTail(d: seq<nat>)
    requires Digits(d, 32) && |d| == 33
    ensures Convert(d, 5, 8, false) == Convert(d[..32], 5, 8, false)
  {
    PowWord();
    hide Pow, Big;
    AbsorbKeepsBits(d[..32], 5, 8);
    var r := Absorb(d[..32], 5, 8);
    assert d[..|d| - 1] == d[..32];
    assert r.bits == 0;
  }

  lemma CountBytes(d: seq<nat>)
    requires Digits(d, 32)
    ensures var n := |Convert(d, 5, 8, false)|; n * 8 <= |d| * 5 < n * 8 + 8
  {
    PowWord();
    hide Pow, Big, Emit;
    AbsorbKeepsBits(d, 5, 8);
  }

  lemma ThirtyTwo(d: seq<nat>, h: seq<nat>)
    requires Digits(d, 32) && Digits(h, 256) && |h| == 20 && |d| == 32
    ensures Convert(d, 5, 8, false) == h <==> d == Convert(h, 8, 5, true)
  {
    PowWord();
    PowZero();
    hide Pow, Big, Absorb, Emit;
    AbsorbKeepsBits(d, 5, 8);
    var r := Absorb(d, 5, 8);
    var zeros := PaddedValue(h, 8, 5);
    var g := Convert(h, 8, 5, true);
    assert r.bits == 0 && |r.out| == 20 && zeros == 0 && |g| == 32;
    if Big(d, 32) == Big(g, 32) {
      BigUnique(d, g, 32);
      BigUnique(r.out, h, 256);
    }
  }

  /** Twenty bytes come from their 32 groups, or from those and any one more. */
  lemma TwentyBytes(d: seq<nat>, h: seq<nat>)
    requires Digits(d, 32) && Digits(h, 256) && |h| == 20
    ensures Convert(d, 5, 8, false) == h <==> (|d| == 32 || |d| == 33) && d[..32] == Convert(h, 8, 5, true)
  {
    PowWord();
    hide Pow, Big, Absorb, Emit, Convert;
    if |d| == 33 {
      DropsTail(d);
      ThirtyTwo(d[..32], h);
    } else if |d| == 32 {
      assert d[..32] == d;
      ThirtyTwo(d, h);
    } else {
      CountBytes(d);
    }
  }
}
