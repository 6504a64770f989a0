/** Machine words: their ranges, wrap-around, powers of two and little-endian bytes. */
module Machine {
  const U16 := 0x1_0000
  const U32 := 0x1_0000_0000

  type Byte = n: nat | n < 256
  type Half = n: nat | n < U16
  type Word = n: nat | n < U32

  function Wrap(n: int): nat {
    n % U32
  }

  /** The 32-bit powers of two, which are the divisors of 2^32. */
  predicate Capacity(cap: nat) {
    0 < cap < U32 && U32 % cap == 0
  }

  /** Masking with capacity - 1 selects the same slot before and after a counter wraps. */
  lemma SlotOfCount(cap: nat, n: nat)
    requires Capacity(cap)
    ensures (n % U32) % cap == n % cap
  {
    var q := U32 / cap;
    var k, w := n / U32, n % U32;
    var d, r := w / cap, w % cap;
    assert n == (k * q + d) * cap + r by { Regroup(k, q, d, cap); }
    Remainder(n, cap, k * q + d, r);
  }

  lemma Regroup(k: nat, q: nat, d: nat, cap: nat)
    ensures k * (q * cap) + d * cap == (k * q + d) * cap
  {
  }

  lemma Remainder(x: nat, m: nat, q: nat, r: nat)
    requires 0 <= r < m && x == q * m + r
    ensures x % m == r
  {
    var q2, r2 := x / m, x % m;
    assert r2 - r == (q - q2) * m;
    Multiple(q - q2, m, r2 - r);
  }

  /** A multiple of m strictly between -m and m is zero. */
  lemma Multiple(k: int, m: nat, d: int)
    requires d == k * m && 0 <= d + m < 2 * m && d + m != 0
    ensures d == 0
  {
  }

  /** Two counts less than one capacity apart use different slots. */
  lemma SlotsDiffer(cap: nat, a: nat, b: nat)
    requires 0 < cap && a < b < a + cap
    ensures a % cap != b % cap
  {
    if a % cap == b % cap {
      assert b - a == (b / cap - a / cap) * cap;
      Multiple(b / cap - a / cap, cap, b - a);
    }
  }

  lemma WrapNext(n: nat)
    ensures Wrap(Wrap(n) + 1) == Wrap(n + 1)
  {
  }

  lemma WrapAdd(n: nat, d: nat)
    ensures Wrap(Wrap(n) + d) == Wrap(n + d)
  {
  }

  /** The distance between two counters less than 2^32 apart survives wrapping. */
  lemma WrapDistance(a: nat, b: nat)
    requires a <= b < a + U32
    ensures Wrap(Wrap(b) - Wrap(a)) == b - a
  {
  }

  lemma WrapGap(a: nat, b: nat)
    requires a <= b + 1 < a + U32
    ensures Wrap(Wrap(b) + 1 - Wrap(a)) == b + 1 - a
  {
  }

  lemma WrapBelow(n: int)
    ensures Wrap(n) < U32
  {
  }

  lemma WrapSmall(n: int)
    requires 0 <= n < U32
    ensures Wrap(n) == n
  {
  }

  lemma WrapOver(n: nat)
    requires U32 <= n < 2 * U32
    ensures Wrap(n) == n - U32
  {
  }

  lemma WrapAround(n: int)
    ensures Wrap(n - U32) == Wrap(n)
  {
  }

  // ---- powers of two

  predicate PowerOfTwo(n: nat) {
    n == 1 || (n > 1 && n % 2 == 0 && PowerOfTwo(n / 2))
  }

  function Pow2(e: nat): (p: nat)
    ensures p >= 1
  {
    if e == 0 then 1 else 2 * Pow2(e - 1)
  }

  lemma {:induction false} Pow2Grows(a: nat, b: nat)
    requires a <= b
    ensures Pow2(a) <= Pow2(b)
  {
    if a < b {
      Pow2Grows(a, b - 1);
    }
  }

  lemma {:induction false} PowerDivides(a: nat, k: nat) returns (q: nat)
    requires PowerOfTwo(a) && Pow2(k) <= a
    ensures a == q * Pow2(k)
  {
    if k == 0 {
      q := a;
    } else {
      q := PowerDivides(a / 2, k - 1);
      assert a == 2 * (q * Pow2(k - 1));
    }
  }

  // ---- little-endian fields

  function Le16(n: Half): seq<Byte> {
    [n % 256, n / 256]
  }

  function Le32(n: Word): (b: seq<Byte>)
    ensures |b| == 4
  {
    [n % 256, n / 256 % 256, n / 65536 % 256, n / 16777216]
  }

  function Get16(b: seq<Byte>): Half
    requires |b| == 2
  {
    b[0] as int + 256 * (b[1] as int)
  }

  function Get32(b: seq<Byte>): Word
    requires |b| == 4
  {
    b[0] as int + 256 * (b[1] as int) + 65536 * (b[2] as int) + 16777216 * (b[3] as int)
  }

  lemma Get16Le16(n: Half)
    ensures Get16(Le16(n)) == n
  {
  }

  lemma Get32Le32(n: Word)
    ensures Get32(Le32(n)) == n
  {
    assert n / 65536 == n / 256 / 256 && n / 16777216 == n / 256 / 256 / 256;
  }
}
