/**
 * Fixed-width unsigned integers and the little-endian byte lanes the alert
 * slot format is built from.
 */
module Bytes {

  newtype byte = x: int | 0 <= x < 256

  /** `uint32_t`, `uint64_t` */
  type uint32 = x: int | 0 <= x < 0x1_0000_0000
  type uint64 = x: int | 0 <= x < 0x1_0000_0000_0000_0000

  /** `time_t` on the ports' targets. */
  type int64 = x: int | -0x8000_0000_0000_0000 <= x < 0x8000_0000_0000_0000

  const TwoTo32: nat := 0x1_0000_0000
  const TwoTo64: nat := 0x1_0000_0000_0000_0000

  function Pow256(n: nat): (r: nat)
    ensures r >= 1
  {
    if n == 0 then 1 else 256 * Pow256(n - 1)
  }

  /** The `n` bytes `(uint8_t)(v >> (8 * i))`, i = 0 .. n-1, least significant first. */
  function LeEncode(v: nat, n: nat): (r: seq<byte>)
    ensures |r| == n
  {
    seq(n, i requires 0 <= i < n => ((v / Pow256(i)) % 256) as byte)
  }

  /** The number whose little-endian bytes are `s`, accumulated from the front. */
  function LeDecode(s: seq<byte>): (r: nat)
    ensures r < Pow256(|s|)
  {
    if s == [] then 0
    else
      var k := |s| - 1;
      MulMono(s[k] as int, 255, Pow256(k));
      LeDecode(s[..k]) + s[k] as nat * Pow256(k)
  }

  /** Multiplying by a non-negative number keeps an inequality. */
  lemma MulMono(a: int, b: int, c: int)
    requires a <= b && c >= 0
    ensures a * c <= b * c
  {
    assert b * c - a * c == (b - a) * c;
  }

  /** Division with remainder has exactly one answer. */
  lemma DivModUnique(v: int, m: int, q: int, r: int)
    requires m > 0 && 0 <= r < m && v == q * m + r
    ensures v / m == q && v % m == r
  {
    var q', r' := v / m, v % m;
    var d := q - q';
    assert d * m == r' - r by {
      assert d * m == q * m - q' * m;
    }
    if d >= 1 {
      MulMono(1, d, m);
    } else if d <= -1 {
      MulMono(d, -1, m);
    }
  }

  /** v mod (a*b) splits into the low part mod a and the next digit in base a. */
  lemma ModSplit(v: nat, a: nat, b: nat)
    requires a > 0 && b > 0
    ensures v % (b * a) == v % a + ((v / a) % b) * a
  {
    var q, r := v / a, v % a;
    var hi, mid := q / b, q % b;
    assert v == q * a + r;
    assert q == hi * b + mid;
    assert v == hi * (b * a) + (mid * a + r) by {
      assert q * a == (hi * b + mid) * a;
      assert (hi * b + mid) * a == hi * b * a + mid * a;
      assert hi * b * a == hi * (b * a);
    }
    assert mid * a + r < b * a by {
      MulMono(mid, b - 1, a);
      assert (b - 1) * a == b * a - a;
    }
    DivModUnique(v, b * a, hi, mid * a + r);
  }

  /** Reading back `n` encoded bytes yields the value modulo 256^n. */
  lemma {:induction false} LeDecodeEncode(v: nat, n: nat)
    ensures LeDecode(LeEncode(v, n)) == v % Pow256(n)
  {
    if n > 0 {
      var e := LeEncode(v, n);
      assert e[..n - 1] == LeEncode(v, n - 1);
      LeDecodeEncode(v, n - 1);
      ModSplit(v, Pow256(n - 1), 256);
    }
  }

  /** A value below 256^n survives encoding into `n` bytes and decoding. */
  lemma LeRoundTrip(v: nat, n: nat)
    requires v < Pow256(n)
    ensures LeDecode(LeEncode(v, n)) == v
  {
    LeDecodeEncode(v, n);
    DivModUnique(v, Pow256(n), 0, v);
  }

  /** The first `m` of `n` encoded bytes are the `m`-byte encoding. */
  lemma LeEncodePrefix(v: nat, n: nat, m: nat)
    requires m <= n
    ensures LeEncode(v, n)[..m] == LeEncode(v, m)
  {
  }

  lemma {:induction false} Pow256Add(a: nat, b: nat)
    ensures Pow256(a + b) == Pow256(a) * Pow256(b)
  {
    if b > 0 {
      Pow256Add(a, b - 1);
      assert Pow256(a + b) == 256 * Pow256(a + b - 1);
    }
  }

  lemma Pow256Mono(a: nat, b: nat)
    requires a <= b
    ensures Pow256(a) <= Pow256(b)
  {
    Pow256Add(a, b - a);
    MulMono(1, Pow256(b - a), Pow256(a));
  }
}
