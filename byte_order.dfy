/** Multi-byte unsigned integers as octet sequences. The server writes frame
    lengths in the host's order (little-endian on the hosts the library targets),
    while the frame reader and RFC 6455 use network order (big-endian). */
module ByteOrder {
  import opened Common

  function Pow256(k: nat): (p: nat)
    ensures p >= 1
  {
    if k == 0 then 1 else 256 * Pow256(k - 1)
  }

  lemma MulAtLeast(m: int, d: int)
    requires m > 0 && d >= 1
    ensures m * d >= m
  {
  }

  /** Euclidean division is determined by quotient and remainder. */
  lemma ModUnique(x: int, m: int, a: int, y: int)
    requires m > 0 && x == m * a + y && 0 <= y < m
    ensures x % m == y && x / m == a
  {
    var q, r := x / m, x % m;
    assert m * a + y == m * q + r;
    assert m * (a - q) == r - y;
    if a > q { MulAtLeast(m, a - q); }
    else if a < q { MulAtLeast(m, q - a); }
  }

  /** Splitting off the low octet: `n mod 256^(k+1)` from `n mod 256` and `(n div 256) mod 256^k`. */
  lemma ModPowStep(n: nat, k: nat)
    ensures n % Pow256(k + 1) == (n / 256 % Pow256(k)) * 256 + n % 256
  {
    var p := Pow256(k);
    var q, r := n / 256, n % 256;
    var a, b := q / p, q % p;
    assert n == 256 * q + r;
    assert q == p * a + b;
    assert n == (256 * p) * a + (b * 256 + r);
    assert b * 256 + r < 256 * p by {
      assert b <= p - 1;
      assert b * 256 <= (p - 1) * 256;
    }
    ModUnique(n, 256 * p, a, b * 256 + r);
  }

  /** The `k` low octets of `n`, least significant first (a little-endian store). */
  function LeBytes(n: nat, k: nat): (b: seq<Byte>)
    ensures |b| == k
  {
    if k == 0 then [] else [ByteOfValue(n % 256)] + LeBytes(n / 256, k - 1)
  }

  /** The number an octet sequence denotes when read least significant first. */
  function LeValue(b: seq<Byte>): nat {
    if b == [] then 0 else b[0] as nat + 256 * LeValue(b[1..])
  }

  /** The `k` low octets of `n`, most significant first (network order). */
  function BeBytes(n: nat, k: nat): (b: seq<Byte>)
    ensures |b| == k
  {
    if k == 0 then [] else BeBytes(n / 256, k - 1) + [ByteOfValue(n % 256)]
  }

  /** The number an octet sequence denotes when read most significant first. */
  function BeValue(b: seq<Byte>): nat {
    if b == [] then 0 else BeValue(b[..|b| - 1]) * 256 + b[|b| - 1] as nat
  }

  lemma {:induction false} LeRoundTrip(n: nat, k: nat)
    ensures LeValue(LeBytes(n, k)) == n % Pow256(k)
  {
    if k > 0 {
      var b := LeBytes(n, k);
      var low, high := n % 256, n / 256;
      assert b[1..] == LeBytes(high, k - 1);
      assert b[0] as nat == low;
      LeRoundTrip(high, k - 1);
      var rest := high % Pow256(k - 1);
      assert LeValue(b) == low + 256 * rest;
      ModPowStep(n, k - 1);
    }
  }

  lemma {:induction false} BeRoundTrip(n: nat, k: nat)
    ensures BeValue(BeBytes(n, k)) == n % Pow256(k)
  {
    if k > 0 {
      var b := BeBytes(n, k);
      var low, high := n % 256, n / 256;
      assert b[..k - 1] == BeBytes(high, k - 1);
      assert b[k - 1] as nat == low;
      BeRoundTrip(high, k - 1);
      var rest := high % Pow256(k - 1);
      assert BeValue(b) == rest * 256 + low;
      ModPowStep(n, k - 1);
    }
  }

  /** A two-octet network-order read of a host-order (little-endian) store
      swaps the two octets of the value. */
  lemma ReadBackSwapped(n: nat)
    requires n < 65536
    ensures BeValue(LeBytes(n, 2)) == (n % 256) * 256 + n / 256
  {
    var low, high := n % 256, n / 256;
    assert high < 256;
    assert high % 256 == high && high / 256 == 0;
    var b := LeBytes(n, 2);
    assert LeBytes(high, 1) == [ByteOfValue(high % 256)] + LeBytes(high / 256, 0);
    assert b == [ByteOfValue(low), ByteOfValue(high)];
    assert b[..1] == [ByteOfValue(low)];
    assert BeValue(b[..1]) == low;
  }
}
