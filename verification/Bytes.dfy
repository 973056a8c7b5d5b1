/** Machine integers, little-endian words and the kernel's byte-block helpers. Words of 32 bits
    wrap around where the code lets them; a word in a sector is its bytes, lowest first; bit
    operations are given by arithmetic, so that what they do to each bit can be proved rather
    than taken for granted. Division is here too, since positions in rings, waves and counters
    are all quotients and remainders. */
module Bytes {

  type byte = x: int | 0 <= x < 256

  type u32 = x: int | 0 <= x < 0x1_0000_0000

  /** Addition of two `uint32_t`, with its wrap-around. */
  function Add32(a: u32, b: u32): u32 {
    if a + b < 0x1_0000_0000 then a + b else a + b - 0x1_0000_0000
  }

  /** Subtraction of two `uint32_t`, with its wrap-around. */
  function Sub32(a: u32, b: u32): u32 {
    if a >= b then a - b else a - b + 0x1_0000_0000
  }

  function Pow2(n: nat): (p: nat)
    ensures p >= 1
  {
    if n == 0 then 1 else 2 * Pow2(n - 1)
  }

  lemma Pow2Add(m: nat, n: nat)
    ensures Pow2(m + n) == Pow2(m) * Pow2(n)
  {
    if m > 0 {
      Pow2Add(m - 1, n);
    }
  }

  lemma Pow2Of32()
    ensures Pow2(8) == 0x100 && Pow2(16) == 0x1_0000 && Pow2(32) == 0x1_0000_0000
  {
    assert Pow2(2) == 4;
    Pow2Add(2, 2);
    Pow2Add(4, 4);
    Pow2Add(8, 8);
    Pow2Add(16, 16);
  }

  /** Bitwise exclusive or of the low `n` bits. */
  function XorBits(n: nat, a: nat, b: nat): nat
    decreases n, a, b
  {
    if n == 0 then 0 else 2 * XorBits(n - 1, a / 2, b / 2) + (a + b) % 2
  }

  lemma XorBitsFit(n: nat, a: nat, b: nat)
    ensures XorBits(n, a, b) < Pow2(n)
  {
  }

  function CeilDiv(n: nat, d: nat): nat
    requires d > 0
  {
    n / d + (if n % d != 0 then 1 else 0)
  }

  function Min(a: int, b: int): int {
    if a < b then a else b
  }

  /** The number a byte string denotes, least significant byte first. */
  function LeNat(s: seq<byte>): nat {
    if s == [] then 0 else s[0] as int + 0x100 * LeNat(s[1..])
  }

  lemma LeNatOf4(b: seq<byte>)
    requires |b| == 4
    ensures LeNat(b) == b[0] as int + 0x100 * b[1] as int + 0x1_0000 * b[2] as int + 0x100_0000 * b[3] as int
    ensures LeNat(b) < 0x1_0000_0000
  {
    assert b[1..][1..] == b[2..] && b[2..][1..] == b[3..] && b[3..][1..] == [];
    assert LeNat(b[3..]) == b[3] as int;
    assert LeNat(b[2..]) == b[2] as int + 0x100 * LeNat(b[3..]);
    assert LeNat(b[1..]) == b[1] as int + 0x100 * LeNat(b[2..]);
  }

  /** The word stored little-endian at offset `at`; it depends on those four bytes only. */
  function Le32(s: seq<byte>, at: nat): u32
    requires at + 4 <= |s|
  {
    LeNatOf4(s[at..at + 4]);
    LeNat(s[at..at + 4])
  }

  function LeBytes(v: u32): (b: seq<byte>)
    ensures |b| == 4
  {
    [v % 0x100, v / 0x100 % 0x100, v / 0x1_0000 % 0x100, v / 0x100_0000]
  }

  lemma Le32RoundTrip(s: seq<byte>, at: nat, v: u32)
    requires at + 4 <= |s|
    requires s[at..at + 4] == LeBytes(v)
    ensures Le32(s, at) == v
  {
    LeNatOf4(LeBytes(v));
    assert v / 0x1_0000 == (v / 0x100) / 0x100;
    assert v / 0x100_0000 == (v / 0x1_0000) / 0x100;
  }

  /** The four bytes of a word are determined by its value. */
  lemma LeBytesOfLe32(s: seq<byte>, at: nat)
    requires at + 4 <= |s|
    ensures LeBytes(Le32(s, at)) == s[at..at + 4]
  {
    var b := s[at..at + 4];
    LeNatOf4(b);
    var (b0: int, b1: int, b2: int, b3: int) := (b[0], b[1], b[2], b[3]);
    var v := LeNat(b);
    assert v == b0 + 0x100 * (b1 + 0x100 * (b2 + 0x100 * b3));
    assert v / 0x100 == b1 + 0x100 * (b2 + 0x100 * b3);
    assert v / 0x1_0000 == (v / 0x100) / 0x100 == b2 + 0x100 * b3;
    assert v / 0x100_0000 == (v / 0x1_0000) / 0x100 == b3;
  }

  // ----- bits of a byte -----

  /** Bit `k` of a number, the low bit being bit 0. */
  predicate Bit(a: nat, k: nat) {
    if k == 0 then a % 2 == 1 else Bit(a / 2, k - 1)
  }

  /** The low `n` bits of `a | b`, and of `a & ~b`. */
  function OrBits(n: nat, a: nat, b: nat): nat
    decreases n
  {
    if n == 0 then 0 else 2 * OrBits(n - 1, a / 2, b / 2) + (if a % 2 == 1 || b % 2 == 1 then 1 else 0)
  }

  function AndNotBits(n: nat, a: nat, b: nat): nat
    decreases n
  {
    if n == 0 then 0 else 2 * AndNotBits(n - 1, a / 2, b / 2) + (if a % 2 == 1 && b % 2 == 0 then 1 else 0)
  }

  lemma {:induction false} BitsFit(n: nat, a: nat, b: nat)
    ensures OrBits(n, a, b) < Pow2(n) && AndNotBits(n, a, b) < Pow2(n)
    decreases n
  {
    if n > 0 { BitsFit(n - 1, a / 2, b / 2); }
  }

  lemma {:induction false} BitOfOr(n: nat, a: nat, b: nat, k: nat)
    requires k < n
    ensures Bit(OrBits(n, a, b), k) == (Bit(a, k) || Bit(b, k))
    decreases n
  {
    var high := OrBits(n - 1, a / 2, b / 2);
    var low := if a % 2 == 1 || b % 2 == 1 then 1 else 0;
    assert (2 * high + low) / 2 == high && (2 * high + low) % 2 == low;
    if k > 0 { BitOfOr(n - 1, a / 2, b / 2, k - 1); }
  }

  lemma {:induction false} BitOfXor(n: nat, a: nat, b: nat, k: nat)
    requires k < n
    ensures Bit(XorBits(n, a, b), k) == (Bit(a, k) != Bit(b, k))
    decreases n
  {
    var high, low := XorBits(n - 1, a / 2, b / 2), (a + b) % 2;
    HighAndLow(high, low);
    OddSum(a, b);
    if k > 0 { BitOfXor(n - 1, a / 2, b / 2, k - 1); }
  }

  lemma HighAndLow(high: nat, low: nat)
    requires low < 2
    ensures (2 * high + low) / 2 == high && (2 * high + low) % 2 == low
  {
  }

  lemma OddSum(a: nat, b: nat)
    ensures (a + b) % 2 == if a % 2 == b % 2 then 0 else 1
  {
  }

  /** A bit by division. */
  lemma {:induction false} BitIs(a: nat, k: nat)
    ensures Bit(a, k) <==> a / Pow2(k) % 2 == 1
    decreases k
  {
    if k > 0 {
      BitIs(a / 2, k - 1);
      HalfTwice(a, Pow2(k - 1));
    }
  }

  lemma HalfTwice(a: nat, p: nat)
    requires p > 0
    ensures a / (2 * p) == a / 2 / p
  {
    var h := a / 2;
    var q, r := h / p, h % p;
    assert h == q * p + r;
    QuotientIs(a, 2 * p, q, 2 * r + a % 2);
  }

  lemma {:induction false} BitOfAndNot(n: nat, a: nat, b: nat, k: nat)
    requires k < n
    ensures Bit(AndNotBits(n, a, b), k) == (Bit(a, k) && !Bit(b, k))
    decreases n
  {
    var high := AndNotBits(n - 1, a / 2, b / 2);
    var low := if a % 2 == 1 && b % 2 == 0 then 1 else 0;
    assert (2 * high + low) / 2 == high && (2 * high + low) % 2 == low;
    if k > 0 { BitOfAndNot(n - 1, a / 2, b / 2, k - 1); }
  }

  lemma {:induction false} BitOfPow2(n: nat, k: nat)
    ensures Bit(Pow2(n), k) == (k == n)
    decreases n
  {
    if n > 0 {
      if k > 0 { BitOfPow2(n - 1, k - 1); }
    } else if k > 0 {
      BitOfZero(k - 1);
    }
  }

  lemma {:induction false} BitOfZero(k: nat)
    ensures !Bit(0, k)
  {
    if k > 0 { BitOfZero(k - 1); }
  }

  function SetIn(b: byte, k: nat): byte
    requires k < 8
  {
    BitsFit(8, b, Pow2(k));
    assert Pow2(8) == 256;
    OrBits(8, b, Pow2(k))
  }

  function ClearIn(b: byte, k: nat): byte
    requires k < 8
  {
    BitsFit(8, b, Pow2(k));
    assert Pow2(8) == 256;
    AndNotBits(8, b, Pow2(k))
  }

  /** Or-ing in a mask sets its bit, and masking it out clears it; no other bit changes. */
  lemma OneBit(b: byte, k: nat, j: nat)
    requires k < 8 && j < 8
    ensures Bit(SetIn(b, k), j) == (j == k || Bit(b, j))
    ensures Bit(ClearIn(b, k), j) == (j != k && Bit(b, j))
  {
    BitOfOr(8, b, Pow2(k), j);
    BitOfAndNot(8, b, Pow2(k), j);
    BitOfPow2(k, j);
  }

  lemma AllOnes(k: nat)
    requires k < 8
    ensures Bit(255, k)
  {
    assert Pow2(8) == 256;
    OnesDown(8, k);
  }

  lemma {:induction false} OnesDown(n: nat, k: nat)
    requires k < n
    ensures Bit(Pow2(n) - 1, k)
    decreases n
  {
    if k > 0 {
      OnesDown(n - 1, k - 1);
      assert (Pow2(n) - 1) / 2 == Pow2(n - 1) - 1;
    }
  }

  /** A number below 2^n is determined by its low `n` bits. */
  lemma {:induction false} SameBits(n: nat, a: nat, b: nat)
    requires a < Pow2(n) && b < Pow2(n) && forall k: nat | k < n :: Bit(a, k) == Bit(b, k)
    ensures a == b
    decreases n
  {
    if n > 0 {
      assert Bit(a, 0) == Bit(b, 0);
      forall k: nat | k < n - 1 ensures Bit(a / 2, k) == Bit(b / 2, k) {
        assert Bit(a, k + 1) == Bit(b, k + 1);
      }
      SameBits(n - 1, a / 2, b / 2);
    }
  }

  // ----- division -----

  lemma MulMono(a: nat, b: nat, d: nat)
    requires a <= b
    ensures a * d <= b * d
  {
  }

  /** Quotient and remainder are determined by what they must satisfy. */
  lemma QuotientIs(n: nat, d: nat, q: nat, r: nat)
    requires d > 0 && r < d && n == q * d + r
    ensures n / d == q && n % d == r
  {
    var k := n / d;
    if k > q { MulMono(q + 1, k, d); }
    if k < q { MulMono(k + 1, q, d); }
    assert k == q;
  }

  // ----- blocks of bytes -----

  method Kmemset(dst: array<byte>, off: nat, c: byte, n: nat)
    requires off + n <= dst.Length
    modifies dst
    ensures forall k | 0 <= k < dst.Length :: dst[k] == if off <= k < off + n then c else old(dst[k])
  {
    for i := 0 to n
      invariant forall k | 0 <= k < dst.Length :: dst[k] == if off <= k < off + i then c else old(dst[k])
    {
      dst[off + i] := c;
    }
  }

  method Kmemcpy(dst: array<byte>, off: nat, src: seq<byte>)
    requires off + |src| <= dst.Length
    modifies dst
    ensures forall k {:trigger dst[k]} | 0 <= k < dst.Length ::
      dst[k] == if off <= k < off + |src| then src[k - off] else old(dst[k])
  {
    for i := 0 to |src|
      invariant forall k {:trigger dst[k]} | 0 <= k < dst.Length ::
        dst[k] == if off <= k < off + i then src[k - off] else old(dst[k])
    {
      dst[off + i] := src[i];
    }
  }
}
