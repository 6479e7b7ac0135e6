/**
 * convert_bits (address_encode.cpp, address_decode.cpp): regrouping a bit string through a
 * 32-bit accumulator that wraps. Read as numbers, most significant group first, the pending
 * low bits of the accumulator are all that the input has and the output lacks.
 */
module ConvertBits {
  import opened Positional

  const WORD: nat := 0x1_0000_0000

  predicate Widths(from: nat, to: nat) {
    1 <= from <= 8 && 1 <= to <= 8
  }

  /** The loop's variables. */
  datatype Registers = Registers(out: seq<nat>, acc: nat, bits: nat)

  /** The inner loop: emit groups while enough bits are pending. */
  function Emit(r: Registers, to: nat): (e: Registers)
    requires to > 0
    ensures e.bits < to
    decreases r.bits
  {
    if r.bits < to then r
    else
      var bits := r.bits - to;
      Emit(Registers(r.out + [(r.acc / Pow(2, bits)) % Pow(2, to)], r.acc, bits), to)
  }

  /** The outer loop: `acc << from | value`, cut to 32 bits, for a value below 2^from. */
  function Absorb(input: seq<nat>, from: nat, to: nat): (r: Registers)
    requires to > 0
    ensures r.bits < to
  {
    if input == [] then Registers([], 0, 0)
    else
      var r := Absorb(input[..|input| - 1], from, to);
      var acc := (r.acc * Pow(2, from) + input[|input| - 1]) % WORD;
      Emit(Registers(r.out, acc, r.bits + from), to)
  }

  function Convert(input: seq<nat>, from: nat, to: nat, pad: bool): seq<nat>
    requires to > 0
  {
    var r := Absorb(input, from, to);
    if pad && r.bits > 0 then r.out + [r.acc * Pow(2, to - r.bits) % WORD % Pow(2, to)] else r.out
  }

  /** What the loop has read, emitted and still holds in the low `bits` bits of `acc`. */
  ghost predicate Pending(read: seq<nat>, from: nat, r: Registers, to: nat) {
    && Digits(r.out, Pow(2, to))
    && |read| * from == |r.out| * to + r.bits
    && Big(read, Pow(2, from)) == Big(r.out, Pow(2, to)) * Pow(2, r.bits) + r.acc % Pow(2, r.bits)
  }

  // ---- the programs -----------------------------------------------------------------------

  method EmitGroups(out0: seq<nat>, acc: nat, bits0: nat, to: nat) returns (out: seq<nat>, bits: nat)
    requires to > 0
    ensures Registers(out, acc, bits) == Emit(Registers(out0, acc, bits0), to)
  {
    out, bits := out0, bits0;
    while bits >= to
      invariant Emit(Registers(out, acc, bits), to) == Emit(Registers(out0, acc, bits0), to)
    {
      bits := bits - to;
      out := out + [(acc / Pow(2, bits)) % Pow(2, to)];
    }
  }

  /** The encoder's convert_bits; its callers pass values of `from` bits. */
  method EncoderConvertBits(input: seq<nat>, from: nat, to: nat, pad: bool) returns (out: seq<nat>)
    requires Widths(from, to) && Digits(input, Pow(2, from))
    ensures out == Convert(input, from, to, pad)
  {
    var acc: nat, bits: nat := 0, 0;
    out := [];
    for n := 0 to |input|
      invariant Registers(out, acc, bits) == Absorb(input[..n], from, to)
    {
      assert input[..n + 1][..n] == input[..n];
      acc := (acc * Pow(2, from) + input[n]) % WORD;
      bits := bits + from;
      out, bits := EmitGroups(out, acc, bits, to);
    }
    assert input[..|input|] == input;
    if pad && bits > 0 {
      out := out + [acc * Pow(2, to - bits) % WORD % Pow(2, to)];
    }
  }

  /** The decoder's convert_bits answers a value of more than `from` bits with no bytes at all. */
  function ConvertChecked(input: seq<nat>, from: nat, to: nat, pad: bool): seq<nat>
    requires to > 0
  {
    if Digits(input, Pow(2, from)) then Convert(input, from, to, pad) else []
  }

  method DecoderConvertBits(input: seq<nat>, from: nat, to: nat, pad: bool) returns (out: seq<nat>)
    requires Widths(from, to)
    ensures out == ConvertChecked(input, from, to, pad)
  {
    hide Pow;
    var acc: nat, bits: nat := 0, 0;
    out := [];
    for n := 0 to |input|
      invariant Digits(input[..n], Pow(2, from))
      invariant Registers(out, acc, bits) == Absorb(input[..n], from, to)
    {
      if input[n] >= Pow(2, from) {
        return [];
      }
      assert input[..n + 1][..n] == input[..n];
      acc := (acc * Pow(2, from) + input[n]) % WORD;
      bits := bits + from;
      out, bits := EmitGroups(out, acc, bits, to);
    }
    assert input[..|input|] == input;
    if pad && bits > 0 {
      out := out + [acc * Pow(2, to - bits) % WORD % Pow(2, to)];
    }
  }

  // ---- powers of two ----------------------------------------------------------------------

  lemma ModUnique(n: nat, q: nat, r: nat, m: nat)
    requires r < m && n == m * q + r
    ensures n % m == r && n / m == q
  {
    SplitDigit(n % m, n / m, r, q, m);
  }

  lemma Expand(a: nat, b: nat, t: nat, h: nat, r: nat)
    ensures b * (a * t + h) + r == a * b * t + (h * b + r)
  {
    Positional.MulAssociates(b, a, t);
    assert b * (a * t + h) == b * (a * t) + b * h;
  }

  lemma BelowProduct(a: nat, b: nat, h: nat, r: nat)
    requires h < a && r < b
    ensures h * b + r < a * b
  {
    MulMonotone(h + 1, a, b);
    assert (h + 1) * b == h * b + b;
  }

  lemma ModOfParts(n: nat, a: nat, b: nat, q: nat, r: nat, t: nat, h: nat)
    requires n == b * q + r && q == a * t + h && h < a && r < b
    ensures a * b > 0 && n % (a * b) == h * b + r
  {
    Expand(a, b, t, h, r);
    BelowProduct(a, b, h, r);
    ModUnique(n, t, h * b + r, a * b);
  }

  lemma Divided(n: nat, d: nat)
    requires d > 0
    ensures n == d * (n / d) + n % d && n % d < d
  {
  }

  /** Splitting a number at `b`, then its quotient at `a`. */
  lemma ModProduct(n: nat, a: nat, b: nat)
    requires a > 0 && b > 0
    ensures a * b > 0 && n % (a * b) == (n / b) % a * b + n % b
  {
    var q, r := n / b, n % b;
    Divided(n, b);
    Divided(q, a);
    ModOfParts(n, a, b, q, r, q / a, q % a);
  }

  /** The wrap to 32 bits leaves the low bits alone. */
  lemma WrapKeepsLowBits(n: nat, bits: nat)
    requires bits <= 32
    ensures n % WORD % Pow(2, bits) == n % Pow(2, bits)
  {
    hide Pow;
    var a, b := Pow(2, 32 - bits), Pow(2, bits);
    PowSum(2, 32 - bits, bits);
    PowWord();
    ModProduct(n, a, b);
    ModUnique(n % WORD, (n / b) % a, n % b, b);
  }

  lemma PowZero()
    ensures Pow(2, 0) == 1
  {
  }

  lemma PowTwo()
    ensures Pow(2, 1) == 2
  {
  }

  lemma PowWord()
    ensures Pow(2, 5) == 32 && Pow(2, 8) == 256 && Pow(2, 32) == WORD
  {
    PowSum(2, 8, 8);
    PowSum(2, 16, 16);
  }

  /** Shifting a value into the accumulator appends it below the pending bits. */
  lemma ShiftIn(acc: nat, bits: nat, value: nat, from: nat)
    requires value < Pow(2, from) && bits + from <= 32
    ensures (acc * Pow(2, from) + value) % WORD % Pow(2, bits + from)
            == acc % Pow(2, bits) * Pow(2, from) + value
  {
    hide Pow;
    var n, a, b := acc * Pow(2, from) + value, Pow(2, bits), Pow(2, from);
    WrapKeepsLowBits(n, bits + from);
    PowSum(2, bits, from);
    ModProduct(n, a, b);
    ModUnique(n, acc, value, b);
  }

  // ---- the loop keeps every bit -----------------------------------------------------------

  lemma BigSnoc(ds: seq<nat>, d: nat, base: nat)
    ensures Big(ds + [d], base) == Big(ds, base) * base + d
  {
    assert (ds + [d])[..|ds|] == ds;
  }

  lemma Regroup(v: nat, a: nat, b: nat, d: nat)
    ensures (v * a + d) * b == v * (a * b) + d * b
  {
    Positional.MulAssociates(v, a, b);
    assert (v * a + d) * b == v * a * b + d * b;
  }

  lemma OneMore(n: nat, width: nat)
    ensures (n + 1) * width == n * width + width
  {
  }

  /** Moving one group of pending bits to the output changes no value. */
  lemma EmitOne(read: seq<nat>, from: nat, r: Registers, to: nat)
    requires to > 0 && r.bits >= to && Pending(read, from, r, to)
    ensures var bits := r.bits - to;
            Pending(read, from, Registers(r.out + [(r.acc / Pow(2, bits)) % Pow(2, to)], r.acc, bits), to)
  {
    hide Pow, Big;
    var bits := r.bits - to;
    var a, b, v := Pow(2, to), Pow(2, bits), Big(r.out, Pow(2, to));
    var d := (r.acc / b) % a;
    PowSum(2, to, bits);
    ModProduct(r.acc, a, b);
    BigSnoc(r.out, d, a);
    Regroup(v, a, b, d);
    OneMore(|r.out|, to);
  }

  lemma {:induction false} EmitAll(read: seq<nat>, from: nat, r: Registers, to: nat)
    requires to > 0 && Pending(read, from, r, to)
    ensures Pending(read, from, Emit(r, to), to) && Emit(r, to).bits < to
    decreases r.bits
  {
    if r.bits >= to {
      EmitOne(read, from, r, to);
      var bits := r.bits - to;
      EmitAll(read, from, Registers(r.out + [(r.acc / Pow(2, bits)) % Pow(2, to)], r.acc, bits), to);
    }
  }

  /** Reading one value appends it to the pending bits. */
  lemma AbsorbOne(read: seq<nat>, value: nat, from: nat, r: Registers, to: nat)
    requires value < Pow(2, from) && r.bits + from <= 32 && Pending(read, from, r, to)
    ensures Pending(read + [value], from,
                    Registers(r.out, (r.acc * Pow(2, from) + value) % WORD, r.bits + from), to)
  {
    hide Pow, Big;
    var a, b, v := Pow(2, r.bits), Pow(2, from), Big(r.out, Pow(2, to));
    BigSnoc(read, value, b);
    ShiftIn(r.acc, r.bits, value, from);
    PowSum(2, r.bits, from);
    Regroup(v, a, b, r.acc % a);
    OneMore(|read|, from);
  }

  lemma NothingPending(from: nat, to: nat)
    ensures Pending([], from, Registers([], 0, 0), to)
  {
  }

  /** The accumulator may wrap; its pending bits and the output together still hold the input. */
  lemma {:induction false} AbsorbKeepsBits(input: seq<nat>, from: nat, to: nat)
    requires Widths(from, to) && Digits(input, Pow(2, from))
    ensures Pending(input, from, Absorb(input, from, to), to) && Absorb(input, from, to).bits < to
  {
    hide Pow, Big, Pending, Emit;
    if input == [] {
      NothingPending(from, to);
    } else {
      var front, v := input[..|input| - 1], input[|input| - 1];
      AbsorbKeepsBits(front, from, to);
      var r := Absorb(front, from, to);
      AbsorbOne(front, v, from, r, to);
      assert front + [v] == input;
      EmitAll(input, from, Registers(r.out, (r.acc * Pow(2, from) + v) % WORD, r.bits + from), to);
    }
  }

  /** Padding shifts the pending bits to the top of one last group. */
  lemma PadOne(read: seq<nat>, from: nat, r: Registers, to: nat)
    requires 0 < r.bits < to <= 8 && Pending(read, from, r, to)
    ensures var zeros := to - r.bits;
            var out := r.out + [r.acc * Pow(2, zeros) % WORD % Pow(2, to)];
            && Digits(out, Pow(2, to)) && |out| * to == |read| * from + zeros
            && Big(out, Pow(2, to)) == Big(read, Pow(2, from)) * Pow(2, zeros)
  {
    hide Pow, Big;
    var zeros := to - r.bits;
    var a, b, v := Pow(2, r.bits), Pow(2, zeros), Big(r.out, Pow(2, to));
    ShiftIn(r.acc, r.bits, 0, zeros);
    PowSum(2, r.bits, zeros);
    BigSnoc(r.out, r.acc % a * b, Pow(2, to));
    Regroup(v, a, b, r.acc % a);
    OneMore(|r.out|, to);
  }

  /** With padding, the output is the input followed by fewer than `to` zero bits. */
  lemma PaddedValue(input: seq<nat>, from: nat, to: nat) returns (zeros: nat)
    requires Widths(from, to) && Digits(input, Pow(2, from))
    ensures zeros < to && Digits(Convert(input, from, to, true), Pow(2, to))
    ensures |Convert(input, from, to, true)| * to == |input| * from + zeros
    ensures Big(Convert(input, from, to, true), Pow(2, to)) == Big(input, Pow(2, from)) * Pow(2, zeros)
  {
    hide Pow, Big, Absorb, Emit;
    AbsorbKeepsBits(input, from, to);
    PowZero();
    var r := Absorb(input, from, to);
    if r.bits == 0 {
      zeros := 0;
    } else {
      zeros := to - r.bits;
      PadOne(input, from, r, to);
    }
  }

  lemma SameCount(x: nat, y: nat, p: nat, r: nat, width: nat)
    requires p < width && r < width && x * width + p == y * width + r
    ensures x == y && p == r
  {
    SplitDigit(p, x, r, y, width);
  }

  /** Regrouping to no wider groups with padding, then back without, returns the input. */
  lemma RoundTrip(input: seq<nat>, from: nat, to: nat)
    requires Widths(from, to) && to <= from && Digits(input, Pow(2, from))
    ensures Convert(Convert(input, from, to, true), to, from, false) == input
  {
    hide Pow, Big, Absorb, Emit;
    var middle := Convert(input, from, to, true);
    var zeros := PaddedValue(input, from, to);
    AbsorbKeepsBits(middle, to, from);
    var r := Absorb(middle, to, from);
    SameCount(|input|, |r.out|, zeros, r.bits, from);
    var p := Pow(2, zeros);
    assert Big(input, Pow(2, from)) * p + 0 == Big(r.out, Pow(2, from)) * p + r.acc % p;
    SplitDigit(0, Big(input, Pow(2, from)), r.acc % p, Big(r.out, Pow(2, from)), p);
    PowSum(2, 1, from - 1);
    assert Pow(2, 1) == 2 by {
      PowTwo();
    }
    BigUnique(input, r.out, Pow(2, from));
  }
}
