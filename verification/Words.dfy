/** Machine words of the C sources, and the powers of two that place limbs and bytes. */
module Words {
  newtype u8 = x: int | 0 <= x < 0x100
  // An expression of type u64 or u128 carries the obligation that the C expression does not wrap.
  newtype u64 = x: int | 0 <= x < 0x1_0000_0000_0000_0000
  newtype u128 = x: int | 0 <= x < 0x1_0000_0000_0000_0000_0000_0000_0000_0000

  const W32: u64 := 0x1_0000_0000
  const W40: u64 := 0x100_0000_0000
  const W56: u64 := 0x100_0000_0000_0000

  const P40: int := 0x100_0000_0000
  const P56: int := 0x100_0000_0000_0000
  const P64: int := 0x1_0000_0000_0000_0000
  const P112: int := 0x1_0000_0000_0000_0000_0000_0000_0000
  const P128: int := 0x1_0000_0000_0000_0000_0000_0000_0000_0000
  const P168: int := 0x100_0000_0000_0000_0000_0000_0000_0000_0000_0000_0000
  const P192: int := 0x1_0000_0000_0000_0000_0000_0000_0000_0000_0000_0000_0000_0000
  const P224: int := 0x1_0000_0000_0000_0000_0000_0000_0000_0000_0000_0000_0000_0000_0000_0000
  const P248: int := 0x1_00_0000_0000_0000_0000_0000_0000_0000_0000_0000_0000_0000_0000_0000_0000_0000
  const P255: int := 0x8000_0000_0000_0000_0000_0000_0000_0000_0000_0000_0000_0000_0000_0000_0000_0000
  const P256: int := 0x1_0000_0000_0000_0000_0000_0000_0000_0000_0000_0000_0000_0000_0000_0000_0000_0000
  const P264: int := 0x1_00_0000_0000_0000_0000_0000_0000_0000_0000_0000_0000_0000_0000_0000_0000_0000_0000
  const P512: int := P256 * P256

  // Conversion to uint64_t where the C code relies on wrap-around.
  function W64(x: int): u64 {
    (x % P64) as u64
  }

  lemma MulMono(a: int, b: int, c: int)
    requires 0 <= a && 0 <= b <= c
    ensures 0 <= a * b <= a * c
  {
  }

  lemma MulAtLeast(w: nat, a: nat, b: nat)
    ensures a >= b ==> w * a >= w * b
  {
    if a >= b {
      MulMono(w, b, a);
    }
  }

  lemma MulAssoc(a: int, b: int, c: int)
    ensures a * (b * c) == a * b * c
  {
  }

  lemma MulDist(a: int, b: int, c: int)
    ensures a * (b + c) == a * b + a * c
  {
  }

  lemma MulBound(a: int, b: int, m: int, n: int)
    requires 0 <= a <= m && 0 <= b <= n
    ensures 0 <= a * b <= m * n
  {
    MulMono(a, b, n);
    MulMono(n, a, m);
  }

  lemma ModUnique(a: int, r: int, k: int, n: int)
    requires 0 <= r < n && a == r + n * k
    ensures a % n == r && a / n == k
  {
    assert n * (a / n - k) == r - a % n;
    if a / n - k >= 1 {
      MulMono(n, 1, a / n - k);
    } else if a / n - k <= -1 {
      MulMono(n, 1, k - a / n);
    }
  }

  lemma QuotientAtLeast(a: int, n: int, p: int)
    requires n > 0
    ensures a / n >= p <==> a >= p * n
  {
    var q := a / n;
    if q >= p {
      MulMono(n, 0, q - p);
    } else {
      MulMono(n, 0, p - 1 - q);
    }
    MulDist(n, q, -p);
  }

  // mul64x64_128
  function Mul(a: u64, b: u64): (r: u128)
    ensures r as int == a as int * b as int
  {
    MulBound(a as int, b as int, 0xffff_ffff_ffff_ffff, 0xffff_ffff_ffff_ffff);
    (a as int * b as int) as u128
  }

  // lo128
  function Lo(c: u128): u64 {
    (c as int % P64) as u64
  }
}
