/** The helpers of batch verification on limb vectors (modm-donna-64bit.h): comparison and subtraction of the
    limbs up to limbsize. */
module BatchLimbs {
  import opened Words
  import opened Radix

  /** Limbs of 56 bits. */
  ghost predicate Carried(a: array<u64>)
    reads a
  {
    a.Length == 5 && forall i :: 0 <= i < 5 ==> a[i] < W56
  }

  /** 2^(56n), the weight of limb n. */
  function Weight(n: nat): (w: nat)
    ensures w > 0
  {
    PowMono(P56, n, n);
    Pow(P56, n)
  }

  /** The number in the first n limbs. */
  ghost function Low(a: seq<u64>, n: nat): nat
    requires n <= |a|
  {
    if n == 0 then 0 else Low(a, n - 1) + a[n - 1] as int * Weight(n - 1)
  }

  ghost function Num(a: array<u64>): nat
    requires a.Length == 5
    reads a
  {
    Low(a[..], 5)
  }

  lemma {:induction false} LowBound(a: seq<u64>, n: nat)
    requires n <= |a| && forall i :: 0 <= i < n ==> a[i] < W56
    ensures Low(a, n) < Weight(n)
  {
    if n > 0 {
      LowBound(a, n - 1);
      TopDigit(Low(a, n - 1), a[n - 1] as int, Weight(n - 1));
    }
  }

  lemma TopDigit(x: nat, d: nat, w: nat)
    requires x < w && d < P56
    ensures x + d * w < P56 * w
  {
    MulMono(w, d, P56 - 1);
    MulDist(w, P56, -1);
  }

  /** The limbs from n on contribute a multiple of the weight of limb n. */
  lemma {:induction false} LowSplit(a: seq<u64>, n: nat, m: nat) returns (k: nat)
    requires n <= m <= |a|
    ensures Low(a, m) == Low(a, n) + Weight(n) * k
    decreases m
  {
    k := 0;
    if n < m {
      var j := LowSplit(a, n, m - 1);
      PowSplit(P56, n, m - 1);
      k := j + a[m - 1] as int * Weight(m - 1 - n);
      Gather(Weight(n), j, a[m - 1] as int, Weight(m - 1 - n));
    }
  }

  lemma Gather(w: nat, j: nat, d: nat, v: nat)
    ensures w * j + d * (w * v) == w * (j + d * v)
  {
    MulDist(w, j, d * v);
    MulAssoc(w, d, v);
    MulAssoc(d, w, v);
  }

  lemma LowMod(a: seq<u64>, n: nat, m: nat)
    requires n <= m <= |a| && forall i :: 0 <= i < m ==> a[i] < W56
    ensures Low(a, m) % Weight(n) == Low(a, n)
  {
    LowBound(a, n);
    var k := LowSplit(a, n, m);
    ModUnique(Low(a, m), Low(a, n), k, Weight(n));
  }

  /** One line of a borrow chain: the difference of two limbs and a borrow wraps exactly when it is negative. */
  lemma BorrowLine(a: u64, b: u64, c: u64)
    requires a < W56 && b < W56 && c <= 1
    ensures var t := W64(a as int - b as int - c as int);
            && t / 0x8000_0000_0000_0000 <= 1
            && (t % W56) as int == a as int - b as int - c as int + P56 * (t / 0x8000_0000_0000_0000) as int
            && (a as int - b as int - c as int >= 0 ==> t as int == a as int - b as int - c as int)
  {
    var d := a as int - b as int - c as int;
    if d >= 0 {
      ModUnique(d, d, 0, P64);
    } else {
      ModUnique(d, d + P64, -1, P64);
    }
  }

  /** What a borrow chain keeps: x - c * 2^(56n) is the difference so far. */
  lemma BorrowStep(a: seq<u64>, b: seq<u64>, n: nat, x: nat, c: int, x': nat, c': int, d: int)
    requires n < |a| && n < |b| && x < Weight(n) && Low(a, n) - Low(b, n) == x - c * Weight(n)
    requires 0 <= d < P56 && d == a[n] as int - b[n] as int - c + P56 * c' && x' == x + d * Weight(n)
    ensures x' < Weight(n + 1) && Low(a, n + 1) - Low(b, n + 1) == x' - c' * Weight(n + 1)
  {
    var w := Weight(n);
    TopDigit(x, d, w);
    assert d * w == a[n] as int * w - b[n] as int * w - c * w + c' * (P56 * w);
  }

  lemma BorrowSign(x: int, y: int, d: nat, c: int, w: nat)
    requires 0 <= c <= 1 && x - y == d - c * w && d < w
    ensures c == 1 <==> x < y
  {
  }

  /** lt256_modm_batch */
  method LtBatch(a: array<u64>, b: array<u64>, limbsize: nat) returns (less: bool)
    requires Carried(a) && Carried(b) && limbsize < 5
    ensures less <==> Num(a) % Weight(limbsize + 1) < Num(b) % Weight(limbsize + 1)
  {
    var carry: u64 := 0;
    ghost var x := 0;
    for i := 0 to limbsize + 1
      invariant Borrowed(a[..], b[..], i, x, carry)
    {
      carry, x := Borrow(a[i], b[i], carry, a[..], b[..], i, x);
    }
    less := carry == 1;
    LowMod(a[..], limbsize + 1, 5);
    LowMod(b[..], limbsize + 1, 5);
    BorrowSign(Low(a[..], limbsize + 1), Low(b[..], limbsize + 1), x, carry as int, Weight(limbsize + 1));
  }

  /** After n limbs the difference is x, with borrow c. */
  ghost predicate Borrowed(a: seq<u64>, b: seq<u64>, n: nat, x: int, c: u64)
    requires n <= |a| && n <= |b|
  {
    c <= 1 && 0 <= x < Weight(n) && Low(a, n) - Low(b, n) == x - c as int * Weight(n)
  }

  // t = (a[i] - b[i]) - carry; carry = t >> 63
  method Borrow(u: u64, v: u64, carry: u64, ghost a: seq<u64>, ghost b: seq<u64>, ghost n: nat, ghost x: int)
    returns (carry': u64, ghost x': int)
    requires n < |a| && n < |b| && u == a[n] < W56 && v == b[n] < W56 && Borrowed(a, b, n, x, carry)
    ensures Borrowed(a, b, n + 1, x', carry')
  {
    var d;
    d, carry' := Line(u, v, carry);
    x' := x + d as int * Weight(n);
    BorrowStep(a, b, n, x, carry as int, x', carry' as int, d as int);
  }

  method Line(u: u64, v: u64, carry: u64) returns (d: u64, carry': u64)
    requires u < W56 && v < W56 && carry <= 1
    ensures d < W56 && carry' <= 1 && d as int == u as int - v as int - carry as int + P56 * carry' as int
  {
    var t := W64(u as int - v as int - carry as int);
    BorrowLine(u, v, carry);
    d, carry' := t % W56, t / 0x8000_0000_0000_0000;
  }

  /** lte256_modm_batch */
  method LteBatch(a: array<u64>, b: array<u64>, limbsize: nat) returns (atMost: bool)
    requires Carried(a) && Carried(b) && limbsize < 5
    ensures atMost <==> Num(a) % Weight(limbsize + 1) <= Num(b) % Weight(limbsize + 1)
  {
    var less := LtBatch(b, a, limbsize);
    atMost := !less;
  }

  lemma {:induction false} LowSame(a: seq<u64>, b: seq<u64>, n: nat)
    requires n <= |a| && n <= |b| && forall i :: 0 <= i < n ==> a[i] == b[i]
    ensures Low(a, n) == Low(b, n)
  {
    if n > 0 {
      LowSame(a, b, n - 1);
    }
  }

  /** A borrow chain after n limbs: the limbs of out and the borrow c are the difference so far. */
  ghost predicate Chain(out: seq<u64>, a: seq<u64>, b: seq<u64>, n: nat, c: u64)
    requires n <= |out| && n <= |a| && n <= |b|
  {
    c <= 1 && Low(out, n) < Weight(n) && Low(a, n) - Low(b, n) == Low(out, n) - c as int * Weight(n)
  }

  lemma ChainStep(out: seq<u64>, out': seq<u64>, a: seq<u64>, b: seq<u64>, n: nat, c: u64, c': u64)
    requires n < |out| && n < |a| && n < |b| && Chain(out, a, b, n, c) && c' <= 1 && |out'| == |out|
    requires forall i :: 0 <= i < n ==> out'[i] == out[i]
    requires out'[n] < W56 && out'[n] as int == a[n] as int - b[n] as int - c as int + P56 * c' as int
    ensures Chain(out', a, b, n + 1, c')
  {
    LowSame(out, out', n);
    var d := out'[n] as int;
    BorrowStep(a, b, n, Low(out, n), c as int, Low(out, n) + d * Weight(n), c' as int, d);
  }

  /** One line with its mask. */
  method SubLimb(out: array<u64>, x: u64, y: u64, i: nat, carry: u64, ghost a: seq<u64>, ghost b: seq<u64>)
    returns (carry': u64)
    requires i < 5 && out.Length == |a| == |b| == 5 && x == a[i] < W56 && y == b[i] < W56
    requires Chain(out[..], a, b, i, carry)
    modifies out
    ensures out[i] < W56 && Chain(out[..], a, b, i + 1, carry')
    ensures forall j :: 0 <= j < 5 && j != i ==> out[j] == old(out[j])
  {
    ghost var was := out[..];
    out[i], carry' := Line(x, y, carry);
    ChainStep(was, out[..], a, b, i, carry, carry');
  }

  lemma {:induction false} HighSame(a: seq<u64>, b: seq<u64>, n: nat, m: nat)
    requires n <= m <= |a| && m <= |b| && forall i :: n <= i < m ==> a[i] == b[i]
    ensures Low(a, m) - Low(a, n) == Low(b, m) - Low(b, n)
    decreases m
  {
    if n < m {
      HighSame(a, b, n, m - 1);
    }
  }

  /** sub256_modm_batch, where the limbs of a up to limbsize are not below those of b: these limbs of out become
      the difference, and the others stay. out may be an operand. */
  method SubBatch(out: array<u64>, a: array<u64>, b: array<u64>, limbsize: nat)
    requires Carried(a) && Carried(b) && Carried(out) && limbsize < 5
    requires Num(b) % Weight(limbsize + 1) <= Num(a) % Weight(limbsize + 1)
    modifies out
    ensures var w := Weight(limbsize + 1);
            Carried(out) && Num(out) == old(Num(out) - Num(out) % w + Num(a) % w - Num(b) % w)
  {
    ghost var n, was := limbsize + 1, out[..];
    LowMod(a[..], n, 5);
    LowMod(b[..], n, 5);
    LowMod(was, n, 5);
    SubLimbs(out, a, b, limbsize);
    HighSame(was, out[..], n, 5);
  }

  method SubLimbs(out: array<u64>, a: array<u64>, b: array<u64>, limbsize: nat)
    requires Carried(a) && Carried(b) && Carried(out) && limbsize < 5
    requires Low(b[..], limbsize + 1) <= Low(a[..], limbsize + 1)
    modifies out
    ensures Carried(out) && forall j :: limbsize < j < 5 ==> out[j] == old(out[j])
    ensures Low(out[..], limbsize + 1) == old(Low(a[..], limbsize + 1)) - old(Low(b[..], limbsize + 1))
  {
    ghost var a0, b0 := a[..], b[..];
    var carry: u64 := 0;
    for i := 0 to limbsize
      invariant Carried(out) && forall j :: i <= j < 5 ==> out[j] == old(out[j]) && a[j] == a0[j] && b[j] == b0[j]
      invariant Chain(out[..], a0, b0, i, carry)
    {
      carry := SubLimb(out, a[i], b[i], i, carry, a0, b0);
    }
    LastLimb(out, a[limbsize], b[limbsize], limbsize, carry, a0, b0);
  }

  /** The last line has no mask: its difference is not negative. */
  method LastLimb(out: array<u64>, x: u64, y: u64, n: nat, carry: u64, ghost a: seq<u64>, ghost b: seq<u64>)
    requires n < 5 && out.Length == |a| == |b| == 5 && x == a[n] < W56 && y == b[n] < W56
    requires Chain(out[..], a, b, n, carry) && Low(b, n + 1) <= Low(a, n + 1)
    modifies out
    ensures out[n] < W56 && Low(out[..], n + 1) == Low(a, n + 1) - Low(b, n + 1)
    ensures forall j :: 0 <= j < 5 && j != n ==> out[j] == old(out[j])
  {
    BorrowLine(x, y, carry);
    ghost var was, t := out[..], W64(x as int - y as int - carry as int);
    ghost var masked, c' := was[n := t % W56], t / 0x8000_0000_0000_0000;
    ChainStep(was, masked, a, b, n, carry, c');
    BorrowSign(Low(a, n + 1), Low(b, n + 1), Low(masked, n + 1), c' as int, Weight(n + 1));
    out[n] := W64(x as int - y as int - carry as int);
    assert out[..] == masked;
  }

  /** iszero256_modm_batch */
  method IsZero(a: array<u64>) returns (zero: bool)
    requires Carried(a)
    ensures zero <==> Num(a) == 0
  {
    LowPositive(a[..], 5);
    for i := 0 to 5
      invariant forall j :: 0 <= j < i ==> a[j] == 0
    {
      if a[i] != 0 {
        return false;
      }
    }
    return true;
  }

  lemma {:induction false} LowPositive(a: seq<u64>, n: nat)
    requires n <= |a|
    ensures Low(a, n) == 0 <==> forall i :: 0 <= i < n ==> a[i] == 0
  {
    if n > 0 {
      LowPositive(a, n - 1);
      PowMono(P56, n - 1, n - 1);
      if a[n - 1] > 0 {
        MulMono(Weight(n - 1), 1, a[n - 1] as int);
      }
    }
  }

  /** isatmost128bits256_modm_batch; a[2] & 0xffffffffff0000 keeps the bits of limb 2 from bit 16. */
  method AtMost128(a: array<u64>) returns (small: bool)
    requires Carried(a)
    ensures small <==> Num(a) < P128
  {
    small := a[4] == 0 && a[3] == 0 && a[2] / 0x1_0000 == 0;
    var w := 5;
    Unfold(a[..], w);
    Below128(a[0] as int, a[1] as int, a[2] as int, a[3] as int, a[4] as int);
  }

  lemma Unfold(a: seq<u64>, n: nat)
    requires |a| == n == 5
    ensures Low(a, n) == a[0] as int + a[1] as int * P56 + a[2] as int * P112 + a[3] as int * P168 + a[4] as int * P224
  {
    assert Weight(0) == 1 && Weight(1) == P56 && Weight(2) == P112 && Weight(3) == P168 && Weight(4) == P224;
    assert Low(a, 1) == a[0] as int && Low(a, 2) == Low(a, 1) + a[1] as int * P56;
    assert Low(a, 3) == Low(a, 2) + a[2] as int * P112;
    assert Low(a, 4) == Low(a, 3) + a[3] as int * P168;
  }

  lemma Below128(a: int, b: int, c: int, d: int, e: int)
    requires 0 <= a < P56 && 0 <= b < P56 && 0 <= c < P56 && 0 <= d < P56 && 0 <= e < P56
    ensures e == 0 && d == 0 && c / 0x1_0000 == 0 <==> a + b * P56 + c * P112 + d * P168 + e * P224 < P128
  {
  }
}
