/** Bytes, fixed-width and minimal big-endian integers. */
module Bytes {

  type byte = x: int | 0 <= x < 256

  const TWO63: int := 0x8000_0000_0000_0000
  const TWO64: int := 0x1_0000_0000_0000_0000

  /** 256 to the power k. */
  function Pow256(k: nat): (r: nat)
    ensures r > 0
  {
    if k == 0 then 1 else 256 * Pow256(k - 1)
  }

  /** The k low-order bytes of n, most significant first. */
  function ToBE(n: nat, k: nat): (r: seq<byte>)
    ensures |r| == k
    decreases k, n
  {
    if k == 0 then [] else ToBE(n / 256, k - 1) + [n % 256]
  }

  function FromBE(b: seq<byte>): nat {
    if b == [] then 0 else FromBE(b[..|b| - 1]) * 256 + b[|b| - 1]
  }

  function Zeros(n: nat): (r: seq<byte>)
    ensures |r| == n
  {
    seq(n, _ => 0)
  }

  lemma {:induction false} DivMod256(n: nat, k: nat)
    requires k > 0
    ensures n % Pow256(k) == (n / 256 % Pow256(k - 1)) * 256 + n % 256
  {
    var p := Pow256(k - 1);
    var q, r := n / 256 / p, n / 256 % p;
    assert n / 256 == q * p + r;
    assert n == q * (256 * p) + (r * 256 + n % 256);
    assert r * 256 + n % 256 < 256 * p;
    DivModUnique(n, 256 * p, q, r * 256 + n % 256);
  }

  lemma DivModUnique(n: int, d: int, q: int, r: int)
    requires d > 0 && 0 <= r < d && n == q * d + r
    ensures n / d == q && n % d == r
  {
    var k := q - n / d;
    assert k * d == n % d - r by {
      assert q * d == n - r && (n / d) * d == n - n % d;
      assert k * d == q * d - (n / d) * d;
    }
    MultipleBelow(k, d);
  }

  lemma MultipleBelow(k: int, d: int)
    requires d > 0 && -d < k * d < d
    ensures k == 0
  {
    assert k >= 1 ==> k * d >= d;
    assert k <= -1 ==> k * d <= -d;
  }

  /** Encoding then decoding keeps the value modulo 256^k. */
  lemma {:induction false} FromToBE(n: nat, k: nat)
    ensures FromBE(ToBE(n, k)) == n % Pow256(k)
  {
    if k > 0 {
      FromToBE(n / 256, k - 1);
      DivMod256(n, k);
      assert ToBE(n, k)[..k - 1] == ToBE(n / 256, k - 1);
    }
  }

  lemma {:induction false} FromBEBound(b: seq<byte>)
    ensures FromBE(b) < Pow256(|b|)
  {
    if b != [] {
      FromBEBound(b[..|b| - 1]);
    }
  }

  /** Decoding then encoding at the same width is the identity. */
  lemma {:induction false} ToFromBE(b: seq<byte>)
    ensures ToBE(FromBE(b), |b|) == b
  {
    if b != [] {
      ToFromBE(b[..|b| - 1]);
      assert b == b[..|b| - 1] + [b[|b| - 1]];
    }
  }

  /** Narrowing a big-endian word keeps its low-order bytes. */
  lemma {:induction false} ToBESuffix(n: nat, k: nat, j: nat)
    requires j <= k
    ensures ToBE(n, k)[k - j..] == ToBE(n, j)
  {
    if j > 0 {
      ToBESuffix(n / 256, k - 1, j - 1);
      assert ToBE(n, k)[k - j..] == ToBE(n / 256, k - 1)[k - j..] + [n % 256];
    }
  }

  lemma {:induction false} FromBELeadingZeros(n: nat, b: seq<byte>)
    ensures FromBE(Zeros(n) + b) == FromBE(b)
  {
    if b != [] {
      var s := Zeros(n) + b;
      assert s[..|s| - 1] == Zeros(n) + b[..|b| - 1];
      FromBELeadingZeros(n, b[..|b| - 1]);
    } else if n > 0 {
      var s := Zeros(n) + b;
      assert s[..|s| - 1] == Zeros(n - 1) + b;
      FromBELeadingZeros(n - 1, b);
    }
  }

  lemma MulAssoc(x: int, y: int, z: int)
    ensures x * (y * z) == x * y * z
  {
  }

  lemma {:induction false} Pow256Add(a: nat, b: nat)
    ensures Pow256(a + b) == Pow256(a) * Pow256(b)
  {
    if a > 0 {
      Pow256Add(a - 1, b);
      MulAssoc(256, Pow256(a - 1), Pow256(b));
    }
  }

  lemma Pow256Mono(a: nat, b: nat)
    requires a <= b
    ensures Pow256(a) <= Pow256(b)
  {
    Pow256Add(a, b - a);
    assert Pow256(a) * Pow256(b - a) >= Pow256(a) * 1;
  }

  /** One's complement of every byte. */
  function Flip(b: seq<byte>): (r: seq<byte>)
    ensures |r| == |b|
  {
    seq(|b|, i requires 0 <= i < |b| => 255 - b[i])
  }

  lemma {:induction false} FlipValue(b: seq<byte>)
    ensures FromBE(Flip(b)) == Pow256(|b|) - 1 - FromBE(b)
  {
    if b != [] {
      FlipValue(b[..|b| - 1]);
      assert Flip(b)[..|b| - 1] == Flip(b[..|b| - 1]);
    }
  }
}
