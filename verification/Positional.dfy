/** Positional numerals: the value of a digit sequence, and the uniqueness of its digits. */
module Positional {

  function Pow(base: nat, exponent: nat): (p: nat)
    ensures base > 0 ==> p > 0
  {
    if exponent == 0 then 1 else base * Pow(base, exponent - 1)
  }

  lemma MulAssociates(a: int, b: int, c: int)
    ensures a * b * c == a * (b * c)
  {
  }

  lemma {:induction false} PowSum(base: nat, a: nat, b: nat)
    ensures Pow(base, a + b) == Pow(base, a) * Pow(base, b)
  {
    if a > 0 {
      PowSum(base, a - 1, b);
      var p, q := Pow(base, a - 1), Pow(base, b);
      assert Pow(base, a + b) == base * Pow(base, a - 1 + b);
      MulAssociates(base, p, q);
    }
  }

  predicate Digits(ds: seq<nat>, base: nat) {
    forall i :: 0 <= i < |ds| ==> ds[i] < base
  }

  /** The value of `ds` with the least significant digit first. */
  function Little(ds: seq<nat>, base: nat): nat {
    if ds == [] then 0 else ds[0] + base * Little(ds[1..], base)
  }

  /** The value of `ds` with the most significant digit first. */
  function Big(ds: seq<nat>, base: nat): nat {
    if ds == [] then 0 else Big(ds[..|ds| - 1], base) * base + ds[|ds| - 1]
  }

  function Reverse<T>(s: seq<T>): (r: seq<T>)
    ensures |r| == |s|
    ensures forall i :: 0 <= i < |s| ==> r[i] == s[|s| - 1 - i]
  {
    if s == [] then [] else Reverse(s[1..]) + [s[0]]
  }

  function Repeat<T>(x: T, n: nat): (r: seq<T>)
    ensures |r| == n
    ensures forall i :: 0 <= i < n ==> r[i] == x
  {
    seq(n, _ => x)
  }

  /** A little-endian numeral whose most significant digit is not zero. */
  predicate Trimmed(ds: seq<nat>) {
    ds != [] && ds[|ds| - 1] != 0
  }

  lemma {:induction false} BigIsLittleReversed(ds: seq<nat>, base: nat)
    ensures Big(Reverse(ds), base) == Little(ds, base)
  {
    if ds != [] {
      BigIsLittleReversed(ds[1..], base);
      assert Reverse(ds)[..|ds| - 1] == Reverse(ds[1..]);
    }
  }

  lemma ReverseTwice<T>(s: seq<T>)
    ensures Reverse(Reverse(s)) == s
  {
  }

  lemma {:induction false} BigDropsLeadingZeros(zeros: nat, ds: seq<nat>, base: nat)
    ensures Big(Repeat(0, zeros) + ds, base) == Big(ds, base)
  {
    var all := Repeat(0, zeros) + ds;
    if ds != [] {
      BigDropsLeadingZeros(zeros, ds[..|ds| - 1], base);
      assert all[..|all| - 1] == Repeat(0, zeros) + ds[..|ds| - 1];
    } else if zeros > 0 {
      BigDropsLeadingZeros(zeros - 1, ds, base);
      assert all[..|all| - 1] == Repeat(0, zeros - 1) + ds;
    } else {
      assert all == ds;
    }
  }

  lemma {:induction false} TrimmedIsPositive(ds: seq<nat>, base: nat)
    requires Trimmed(ds) && base > 0
    ensures Little(ds, base) > 0
  {
    if |ds| > 1 {
      TrimmedIsPositive(ds[1..], base);
      assert base * Little(ds[1..], base) > 0;
    }
  }

  lemma MulMonotone(a: int, b: int, c: int)
    requires a <= b && 0 <= c
    ensures a * c <= b * c
  {
    assert (b - a) * c >= 0;
  }

  lemma DivFacts(n: nat, d: nat)
    requires d > 1
    ensures n == d * (n / d) + n % d && n % d < d
    ensures n < d <==> n / d == 0
    ensures n > 0 ==> n / d < n
  {
    if n >= d {
      assert n / d >= 1;
      MulMonotone(2, d, n / d);
    }
  }

  lemma MulStep(q: nat, r: nat, base: nat)
    requires q < r
    ensures base * q + base <= base * r
  {
    MulMonotone(q + 1, r, base);
    assert (q + 1) * base == base * q + base;
  }

  lemma SplitDigit(d: nat, q: nat, e: nat, r: nat, base: nat)
    requires d < base && e < base && d + base * q == e + base * r
    ensures d == e && q == r
  {
    if q < r {
      MulStep(q, r, base);
    } else if r < q {
      MulStep(r, q, base);
    }
  }

  /** Numerals of equal value are equal, when they have one length or no leading zero. */
  lemma {:induction false} LittleUnique(a: seq<nat>, b: seq<nat>, base: nat)
    requires base > 1 && Digits(a, base) && Digits(b, base)
    requires |a| == |b| || (Trimmed(a) && Trimmed(b))
    requires Little(a, base) == Little(b, base)
    ensures a == b
  {
    if a == [] || b == [] {
    } else {
      SplitDigit(a[0], Little(a[1..], base), b[0], Little(b[1..], base), base);
      if |a| != |b| && |a| == 1 {
        TrimmedIsPositive(b[1..], base);
        assert false;
      } else if |a| != |b| && |b| == 1 {
        TrimmedIsPositive(a[1..], base);
        assert false;
      }
      LittleUnique(a[1..], b[1..], base);
      assert a == [a[0]] + a[1..] && b == [b[0]] + b[1..];
    }
  }

  lemma BigUnique(a: seq<nat>, b: seq<nat>, base: nat)
    requires base > 1 && Digits(a, base) && Digits(b, base)
    requires |a| == |b| || (a != [] && b != [] && a[0] != 0 && b[0] != 0)
    requires Big(a, base) == Big(b, base)
    ensures a == b
  {
    ReverseTwice(a);
    ReverseTwice(b);
    BigIsLittleReversed(Reverse(a), base);
    BigIsLittleReversed(Reverse(b), base);
    LittleUnique(Reverse(a), Reverse(b), base);
  }

  lemma ScaleRange(d: nat, p: nat, v: nat, last: nat, base: nat)
    requires last < base && d * p <= v < (d + 1) * p
    ensures d * (base * p) <= v * base + last < (d + 1) * (base * p)
  {
    MulMonotone(d * p, v, base);
    MulMonotone(v + 1, (d + 1) * p, base);
    assert (v + 1) * base == v * base + base;
    assert d * p * base == d * (base * p);
    assert (d + 1) * p * base == (d + 1) * (base * p);
  }

  /** A numeral of n digits with leading digit d lies in [d * base^(n-1), (d+1) * base^(n-1)). */
  lemma {:induction false} BigRange(ds: seq<nat>, base: nat)
    requires base > 1 && Digits(ds, base) && ds != []
    ensures ds[0] * Pow(base, |ds| - 1) <= Big(ds, base) < (ds[0] + 1) * Pow(base, |ds| - 1)
  {
    var n := |ds| - 1;
    if n > 0 {
      var front := ds[..n];
      BigRange(front, base);
      ScaleRange(ds[0], Pow(base, n - 1), Big(front, base), ds[n], base);
    }
  }
}
