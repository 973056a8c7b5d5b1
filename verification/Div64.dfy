/** 64-bit division by shift and subtract (kernel/div64.c). */
module Div64 {
  import opened Bytes

  const TWO63: int := 0x8000_0000_0000_0000
  const TWO64: int := 0x1_0000_0000_0000_0000

  type u64 = x: int | 0 <= x < TWO64

  type s64 = x: int | -TWO63 <= x < TWO63

  function Sub64(a: u64, b: u64): u64 {
    if a >= b then a - b else a - b + TWO64
  }

  /** Twice `r` plus a bit, kept to 64 bits. */
  function ShiftIn(r: u64, bit: int): u64
    requires 0 <= bit <= 1
  {
    if r >= TWO63 then 2 * r + bit - TWO64 else 2 * r + bit
  }

  /** The 65th bit is lost in the shift, and the subtraction that follows makes up for it. */
  lemma SubtractShifted(r: u64, d: u64, bit: int)
    requires r < d && 0 <= bit <= 1
    ensures var s := ShiftIn(r, bit);
      if r >= TWO63 || s >= d then 2 * r + bit >= d && Sub64(s, d) == 2 * r + bit - d
      else s == 2 * r + bit < d
  {
  }

  lemma ShiftSplit(n: nat, p: nat)
    requires p > 0
    ensures n / p == 2 * (n / (2 * p)) + n / p % 2
  {
    var q, r := n / (2 * p), n % (2 * p);
    assert n == q * (2 * p) + r;
    assert q * (2 * p) == (2 * q) * p;
    if r < p {
      QuotientIs(n, p, 2 * q, r);
    } else {
      QuotientIs(n, p, 2 * q + 1, r - p);
    }
  }

  lemma Pow2Of64()
    ensures Pow2(63) == TWO63 && Pow2(64) == TWO64
  {
    Pow2Of32();
    Pow2Add(32, 32);
  }

  lemma {:induction false} Pow2Mono(a: nat, b: nat)
    requires a <= b
    ensures Pow2(a) <= Pow2(b)
    decreases b
  {
    if a < b { Pow2Mono(a, b - 1); }
  }

  /** Where the division stands when the bits of `n` from the one worth `p` up have been dealt
      with: they are `quotient * d + r`, and `q` has the quotient in its place. */
  ghost predicate Partial(n: u64, d: u64, p: nat, q: int, quotient: nat, r: u64) {
    p > 0 && r < d && n / p == quotient * d + r && q == quotient * p
  }

  lemma Doubled(n: u64, d: u64, p: nat, q: int, quotient: nat, r: u64)
    requires Partial(n, d, 2 * p, q, quotient, r)
    ensures p > 0 && n / p == (2 * quotient) * d + (2 * r + n / p % 2) && q == (2 * quotient) * p
  {
    ShiftSplit(n, p);
  }

  lemma BitGoesIn(n: u64, d: u64, p: nat, q: int, quotient: nat, r: u64)
    requires Partial(n, d, 2 * p, q, quotient, r)
    ensures var t := 2 * r + n / p % 2;
      && (d <= t < d + TWO64 ==> Partial(n, d, p, q + p, 2 * quotient + 1, t - d))
      && (t < d ==> Partial(n, d, p, q, 2 * quotient, t))
  {
    Doubled(n, d, p, q, quotient, r);
  }

  /** The quotient so far is no more than the dividend, and so fits. */
  lemma PartialFits(n: u64, d: u64, p: nat, q: int, quotient: nat, r: u64)
    requires Partial(n, d, p, q, quotient, r)
    ensures 0 <= q <= n
  {
    MulMono(1, d, quotient);
    MulMono(quotient, n / p, p);
    assert n / p * p <= n;
  }

  /** Quotient and remainder, for every dividend and every divisor but zero. */
  method Divide(n: u64, d: u64) returns (q: u64, r: u64)
    requires d > 0
    ensures n == q * d + r && r < d
  {
    q, r := 0, 0;
    var bit := 64;
    ghost var quotient: nat := 0;
    Pow2Of64();
    while bit > 0
      invariant 0 <= bit <= 64 && Partial(n, d, Pow2(bit), q, quotient, r)
    {
      bit := bit - 1;
      q, r, quotient := Turn(n, d, Pow2(bit), q, quotient, r);
    }
    assert Pow2(0) == 1;
  }

  /** One turn, for the bit worth `p`. */
  method Turn(n: u64, d: u64, p: nat, q: u64, ghost was: nat, r: u64) returns (q': u64, r': u64, ghost quotient: nat)
    requires Partial(n, d, 2 * p, q, was, r)
    ensures Partial(n, d, p, q', quotient, r')
  {
    var b := n / p % 2;
    BitGoesIn(n, d, p, q, was, r);
    SubtractShifted(r, d, b);
    var carry := r >= TWO63;
    r' := ShiftIn(r, b);
    if carry || r' >= d {
      r' := Sub64(r', d);
      quotient := 2 * was + 1;
      PartialFits(n, d, p, q + p, quotient, r');
      q' := q + p;
    } else {
      quotient := 2 * was;
      q' := q;
    }
  }

  // ----- signed division -----

  /** Reading 64 bits as a signed number. */
  function Signed(x: u64): s64 { if x >= TWO63 then x - TWO64 else x }

  function Neg64(x: u64): u64 { Sub64(0, x) }

  function Magnitude(x: int): nat { if x < 0 then 0 - x else x }

  /** The quotient cut off toward zero, and a remainder with the sign of the dividend. */
  ghost predicate Truncated(n: int, d: int, q: int, r: int) {
    n == q * d + r && 0 - Magnitude(d) < r < Magnitude(d) && (n >= 0 ==> r >= 0) && (n <= 0 ==> r <= 0)
  }

  /** Which the unsigned quotient of magnitudes fits as a signed number but for one pair. */
  lemma MagnitudeFits(n: s64, d: s64, q: nat, r: nat)
    requires d != 0 && Magnitude(n) == q * Magnitude(d) + r && r < Magnitude(d)
    ensures q <= Magnitude(n)
    ensures (n < 0) != (d < 0) ==> q <= TWO63
    ensures (n < 0) == (d < 0) ==> (q < TWO63 <==> !(n == -TWO63 && d == -1))
  {
    MulMono(1, Magnitude(d), q);
    if Magnitude(d) >= 2 { MulMono(2, Magnitude(d), q); }
  }

  /** Signed division truncates toward zero, with the remainder's sign that of the dividend, except
      for the one quotient that does not fit, which comes out as the most negative number. */
  method DivideSigned(n: s64, d: s64) returns (q: s64, r: s64)
    requires d != 0
    ensures Truncated(n, d, q, r) <==> !(n == -TWO63 && d == -1)
    ensures n == -TWO63 && d == -1 ==> q == -TWO63 && r == 0
  {
    var uq, ur := Divide(Magnitude(n), Magnitude(d));
    MagnitudeFits(n, d, uq, ur);
    r := Signed(if n < 0 then Neg64(ur) else ur);
    q := Signed(if (n < 0) != (d < 0) then Neg64(uq) else uq);
  }
}
