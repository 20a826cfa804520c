/** Arithmetic modulo the group order m = 2^252 + 27742317777372353535851937790883648493, on five
    limbs of 56 bits (modm-donna-64bit.h). Limb vectors are arrays, updated in place as in the
    source; shifts and masks are division and remainder by powers of two. */
module ModM {
  import opened Words
  import opened Bytes
  import opened Bits

  const M: int := 0x1000_0000_0000_0000_0000_0000_0000_0000_14de_f9de_a2f7_9cd6_5812_631a_5cf5_d3ed
  const MU: int := 0xf_ffff_ffff_ffff_ffff_ffff_ffff_ffff_ffeb_2106_215d_0863_29a7_ed9c_e5a3_0a2c_131b

  const M0: u64 := 0x12631a5cf5d3ed
  const M1: u64 := 0xf9dea2f79cd658
  const M2: u64 := 0x000000000014de
  const M3: u64 := 0x00000000000000
  const M4: u64 := 0x00000010000000

  const MU0: u64 := 0x9ce5a30a2c131b
  const MU1: u64 := 0x215d086329a7ed
  const MU2: u64 := 0xffffffffeb2106
  const MU3: u64 := 0xffffffffffffff
  const MU4: u64 := 0x00000fffffffff

  ghost function V(a: int, b: int, c: int, d: int, e: int): int {
    a + b * P56 + c * P112 + d * P168 + e * P224
  }

  /** The number held by a limb vector. */
  ghost function Val(r: array<u64>): int
    requires r.Length == 5
    reads r
  {
    V(r[0] as int, r[1] as int, r[2] as int, r[3] as int, r[4] as int)
  }

  ghost predicate Fits(a: u64, b: u64, c: u64, d: u64) {
    a < W56 && b < W56 && c < W56 && d < W56
  }

  /** Five limbs, the lower four carried; the top limb is below 2^32 for numbers of 256 bits. */
  ghost predicate Limbs(r: array<u64>)
    reads r
  {
    r.Length == 5 && Fits(r[0], r[1], r[2], r[3])
  }

  /** m and mu as limbs; mu is the exact quotient of 2^512 by m. */
  lemma Constants()
    ensures V(M0 as int, M1 as int, M2 as int, M3 as int, M4 as int) == M
    ensures V(MU0 as int, MU1 as int, MU2 as int, MU3 as int, MU4 as int) == MU
    ensures M * MU <= P512 < M * (MU + 1)
    ensures MU == P512 / M
  {
  }

  function LtModm(a: u64, b: u64): u64 {
    W64(a as int - b as int) / 0x8000_0000_0000_0000
  }

  /** One line of a borrow chain, b = lt_modm(a, pb); t = a - pb + (b << k), with top = 2^k. */
  method SubBorrow(a: u64, pb: u64, top: u64) returns (t: u64, b: u64)
    requires a < 0x8000_0000_0000_0000 && pb <= top <= W56
    ensures b <= 1 && (b == 1 <==> a < pb)
    ensures t as int == a as int - pb as int + b as int * top as int
    ensures a < top ==> t < top
  {
    b := LtModm(a, pb);
    t := W64(a as int - pb as int + b as int * top as int);
  }

  /** r ^ (mask & (r ^ t)) */
  function Masked(r: u64, t: u64, mask: u64): (s: u64)
    requires mask == 0 || mask as int == P64 - 1
    ensures s == if mask == 0 then r else t
  {
    MaskSelects(r as int, t as int, mask as int);
    Xor(r as int, And(mask as int, Xor(r as int, t as int))) as u64
  }

  method Reduce256(r: array<u64>)
    requires Limbs(r) && r[4] < 0x1000_0000_0000_0000
    modifies r
    ensures Limbs(r) && r[4] <= old(r[4])
    ensures Val(r) == if old(Val(r)) < M then old(Val(r)) else old(Val(r)) - M
  {
    var t0, t1, t2, t3, t4, b := MinusM(r[0], r[1], r[2], r[3], r[4]);
    var mask := W64(b as int - 1);
    r[0], r[1], r[2], r[3], r[4] := Masked(r[0], t0, mask), Masked(r[1], t1, mask), Masked(r[2], t2, mask),
      Masked(r[3], t3, mask), Masked(r[4], t4, mask);
  }

  /** The borrow chain of reduce256_modm; b tells whether x is below m. */
  method MinusM(x0: u64, x1: u64, x2: u64, x3: u64, x4: u64)
    returns (t0: u64, t1: u64, t2: u64, t3: u64, t4: u64, b: u64)
    requires Fits(x0, x1, x2, x3) && x4 < 0x1000_0000_0000_0000
    ensures var x := V(x0 as int, x1 as int, x2 as int, x3 as int, x4 as int);
            && Fits(t0, t1, t2, t3) && b <= 1 && (b == 0 <==> x >= M)
            && (b == 0 ==> t4 <= x4 && V(t0 as int, t1 as int, t2 as int, t3 as int, t4 as int) == x - M)
  {
    var b0, b1, b2, b3;
    t0, b0 := SubBorrow(x0, M0, W56);
    t1, b1 := SubBorrow(x1, b0 + M1, W56);
    t2, b2 := SubBorrow(x2, b1 + M2, W56);
    t3, b3 := SubBorrow(x3, b2 + M3, W56);
    t4, b := SubBorrow(x4, b3 + M4, W32);
    MinusMValue(x0 as int, x1 as int, x2 as int, x3 as int, x4 as int, t0 as int, t1 as int, t2 as int, t3 as int,
      b0 as int, b1 as int, b2 as int, b3 as int);
  }

  lemma MinusMValue(x0: int, x1: int, x2: int, x3: int, x4: int, t0: int, t1: int, t2: int, t3: int,
                    b0: int, b1: int, b2: int, b3: int)
    requires 0 <= t0 < P56 && 0 <= t1 < P56 && 0 <= t2 < P56 && 0 <= t3 < P56
    requires t0 == x0 - M0 as int + b0 * P56
    requires t1 == x1 - (b0 + M1 as int) + b1 * P56
    requires t2 == x2 - (b1 + M2 as int) + b2 * P56
    requires t3 == x3 - (b2 + M3 as int) + b3 * P56
    ensures V(x0, x1, x2, x3, x4) - M == V(t0, t1, t2, t3, x4 - (b3 + M4 as int))
    ensures x4 < b3 + M4 as int <==> V(x0, x1, x2, x3, x4) < M
  {
    LowLimbs(t0, t1, t2, t3, x4 - (b3 + M4 as int));
  }

  lemma LowLimbs(a: int, b: int, c: int, d: int, e: int)
    requires 0 <= a < P56 && 0 <= b < P56 && 0 <= c < P56 && 0 <= d < P56
    ensures e < 0 <==> V(a, b, c, d, e) < 0
  {
  }

  /** mul64x64_128(mul, a, b) add128(c, mul), on operands of 56 bits. */
  method MulAdd(c: u128, a: u64, b: u64) returns (r: u128)
    requires a < W56 && b < W56 && c < 0x8000_0000_0000_0000_0000_0000_0000_0000
    ensures r as int == c as int + a as int * b as int
    ensures c <= r < c + 0x1_0000_0000_0000_0000_0000_0000_0000
  {
    MulBound(a as int, b as int, 0xff_ffff_ffff_ffff, 0xff_ffff_ffff_ffff);
    r := c + Mul(a, b);
  }

  // Columns of products: a carry, plus one to five products of limbs.

  method Dot1(f: u64, a0: u64, b0: u64) returns (s: u128)
    requires f < 0x1000_0000_0000_0000
    requires a0 < W56 && b0 < W56
    ensures s as int == f as int + a0 as int * b0 as int
    ensures s < 0x10_0000_0000_0000_0000_0000_0000_0000
  {
    s := f as u128;
    s := MulAdd(s, a0, b0);
  }

  method Dot2(f: u64, a0: u64, b0: u64, a1: u64, b1: u64) returns (s: u128)
    requires f < 0x1000_0000_0000_0000
    requires a0 < W56 && b0 < W56 && a1 < W56 && b1 < W56
    ensures s as int == f as int + a0 as int * b0 as int + a1 as int * b1 as int
    ensures s < 0x10_0000_0000_0000_0000_0000_0000_0000
  {
    s := f as u128;
    s := MulAdd(s, a0, b0);
    s := MulAdd(s, a1, b1);
  }

  method Dot3(f: u64, a0: u64, b0: u64, a1: u64, b1: u64, a2: u64, b2: u64) returns (s: u128)
    requires f < 0x1000_0000_0000_0000
    requires a0 < W56 && b0 < W56 && a1 < W56 && b1 < W56 && a2 < W56 && b2 < W56
    ensures s as int == f as int + a0 as int * b0 as int + a1 as int * b1 as int + a2 as int * b2 as int
    ensures s < 0x10_0000_0000_0000_0000_0000_0000_0000
  {
    s := f as u128;
    s := MulAdd(s, a0, b0);
    s := MulAdd(s, a1, b1);
    s := MulAdd(s, a2, b2);
  }

  method Dot4(f: u64, a0: u64, b0: u64, a1: u64, b1: u64, a2: u64, b2: u64, a3: u64, b3: u64) returns (s: u128)
    requires f < 0x1000_0000_0000_0000
    requires a0 < W56 && b0 < W56 && a1 < W56 && b1 < W56 && a2 < W56 && b2 < W56 && a3 < W56 && b3 < W56
    ensures s as int == f as int + a0 as int * b0 as int + a1 as int * b1 as int + a2 as int * b2 as int
            + a3 as int * b3 as int
    ensures s < 0x10_0000_0000_0000_0000_0000_0000_0000
  {
    s := f as u128;
    s := MulAdd(s, a0, b0);
    s := MulAdd(s, a1, b1);
    s := MulAdd(s, a2, b2);
    s := MulAdd(s, a3, b3);
  }

  method Dot5(f: u64, a0: u64, b0: u64, a1: u64, b1: u64, a2: u64, b2: u64, a3: u64, b3: u64, a4: u64, b4: u64)
    returns (s: u128)
    requires f < 0x1000_0000_0000_0000
    requires a0 < W56 && b0 < W56 && a1 < W56 && b1 < W56 && a2 < W56 && b2 < W56 && a3 < W56 && b3 < W56 && a4 < W56
             && b4 < W56
    ensures s as int == f as int + a0 as int * b0 as int + a1 as int * b1 as int + a2 as int * b2 as int
            + a3 as int * b3 as int + a4 as int * b4 as int
    ensures s < 0x10_0000_0000_0000_0000_0000_0000_0000
  {
    s := f as u128;
    s := MulAdd(s, a0, b0);
    s := MulAdd(s, a1, b1);
    s := MulAdd(s, a2, b2);
    s := MulAdd(s, a3, b3);
    s := MulAdd(s, a4, b4);
  }

  // shr128(f, c, 56), for a column that leaves a carry of 64 bits
  function Shr56(c: u128): u64
    requires c < 0x10_0000_0000_0000_0000_0000_0000_0000
  {
    (c / 0x100_0000_0000_0000) as u64
  }

  /** Keeps the low 56 bits of a column and passes the rest on. */
  method Carry56(c: u128) returns (lo: u64, f: u64)
    requires c < 0x10_0000_0000_0000_0000_0000_0000_0000
    ensures c as int == lo as int + f as int * P56
    ensures lo < W56 && f < 0x1000_0000_0000_0000
  {
    lo := Lo(c) % W56;
    f := Shr56(c);
    LowBits(c as int);
  }

  lemma LowBits(c: int)
    requires 0 <= c
    ensures c % P64 % P56 == c % P56 && c == c % P56 + P56 * (c / P56)
  {
    var w := c % P64;
    ModUnique(c, w % P56, 0x100 * (c / P64) + w / P56, P56);
  }

  lemma SpliceBits(c: int)
    requires 0 <= c
    ensures var w := c % 0x1_0000_0000_0000_0000;
            c == w % 0x100_0000_0000 + ((w / 0x100_0000_0000) % 0x1_0000) * 0x100_0000_0000
                 + (c / 0x100_0000_0000_0000) * 0x100_0000_0000_0000
  {
  }

  /** Splits a column at bit 40: the low part ends one quotient limb, bits 40..55 start the next. */
  method Splice40(c: u128) returns (lo: u64, mid: u64, f: u64)
    requires c < 0x10_0000_0000_0000_0000_0000_0000_0000
    ensures c as int == lo as int + mid as int * P40 + f as int * P56
    ensures lo < W40 && mid < 0x1_0000 && f < 0x1000_0000_0000_0000
  {
    var w := Lo(c);
    lo, mid := w % 0x100_0000_0000, (w / 0x100_0000_0000) % 0x1_0000;
    f := Shr56(c);
    SpliceBits(c as int);
  }

  /** A quotient limb from bits 40..55 of one column and the low 40 bits of the next. */
  method Join16(mid: u64, lo: u64) returns (q: u64)
    requires mid < 0x1_0000 && lo < W40
    ensures q as int == mid as int + lo as int * 0x1_0000
    ensures q < W56 && (lo < 0x100_0000 ==> q < W40)
  {
    q := mid + lo * 0x1_0000;
  }

  /** Columns 3, 4 and 5 of mu * q1, without carries. */
  ghost predicate IsMiddle(a: int, b: int, c: int, d: int, e: int, k3: int, k4: int, k5: int) {
    && k3 == 0x9ce5a30a2c131b * d + 0xffffffffffffff * a + 0x215d086329a7ed * c + 0xffffffffeb2106 * b
    && k4 == 0x9ce5a30a2c131b * e + 0xfffffffff * a + 0xffffffffffffff * b + 0x215d086329a7ed * d
             + 0xffffffffeb2106 * c
    && k5 == 0xfffffffff * b + 0x215d086329a7ed * e + 0xffffffffeb2106 * d + 0xffffffffffffff * c
  }

  /** Columns 6, 7 and 8. */
  ghost predicate IsTop(c: int, d: int, e: int, k6: int, k7: int, k8: int) {
    && k6 == 0xfffffffff * c + 0xffffffffeb2106 * e + 0xffffffffffffff * d
    && k7 == 0xfffffffff * d + 0xffffffffffffff * e && k8 == 0xfffffffff * e
  }

  /** Columns 3, 4 and 5 of mu * q1, from the limbs of q1. */
  method MiddleColumns(a: u64, b: u64, c: u64, d: u64, e: u64)
    returns (l3: u64, f3: u64, l4: u64, m4: u64, f4: u64, l5: u64, m5: u64, f5: u64, ghost k3: int, ghost k4: int,
             ghost k5: int)
    requires Fits(a, b, c, d) && e < W40
    ensures l3 < W56 && l4 < W40 && m4 < 0x1_0000 && l5 < W40 && m5 < 0x1_0000 && f5 < 0x1000_0000_0000_0000
    ensures IsMiddle(a as int, b as int, c as int, d as int, e as int, k3, k4, k5)
    ensures k3 == l3 as int + f3 as int * P56
    ensures f3 as int + k4 == l4 as int + m4 as int * P40 + f4 as int * P56
    ensures f4 as int + k5 == l5 as int + m5 as int * P40 + f5 as int * P56
  {
    var s := Dot4(0, MU0, d, MU3, a, MU1, c, MU2, b);
    k3 := s as int;
    l3, f3 := Carry56(s);
    s := Dot5(f3, MU0, e, MU4, a, MU3, b, MU1, d, MU2, c);
    k4 := s as int - f3 as int;
    l4, m4, f4 := Splice40(s);
    s := Dot4(f4, MU4, b, MU1, e, MU2, d, MU3, c);
    k5 := s as int - f4 as int;
    l5, m5, f5 := Splice40(s);
  }

  /** Columns 6, 7 and 8 of mu * q1. */
  method TopColumns(f5: u64, c: u64, d: u64, e: u64)
    returns (l6: u64, m6: u64, f6: u64, l7: u64, m7: u64, f7: u64, l8: u64, m8: u64, f8: u64, ghost k6: int,
             ghost k7: int, ghost k8: int)
    requires f5 < 0x1000_0000_0000_0000 && c < W56 && d < W56 && e < W40
    ensures l6 < W40 && m6 < 0x1_0000 && l7 < W40 && m7 < 0x1_0000 && l8 < W40 && m8 < 0x1_0000 && f8 < 0x100_0000
    ensures IsTop(c as int, d as int, e as int, k6, k7, k8)
    ensures f5 as int + k6 == l6 as int + m6 as int * P40 + f6 as int * P56
    ensures f6 as int + k7 == l7 as int + m7 as int * P40 + f7 as int * P56
    ensures f7 as int + k8 == l8 as int + m8 as int * P40 + f8 as int * P56
  {
    var s := Dot3(f5, MU4, c, MU2, e, MU3, d);
    k6 := s as int - f5 as int;
    l6, m6, f6 := Splice40(s);
    s := Dot2(f6, MU4, d, MU3, e);
    k7 := s as int - f6 as int;
    l7, m7, f7 := Splice40(s);
    MulBound(MU4 as int, e as int, 0xfffffffff, 0xff_ffff_ffff);
    s := Dot1(f7, MU4, e);
    k8 := s as int - f7 as int;
    l8, m8, f8 := Splice40(s);
  }

  /** The quotient estimate of the source: mu * q1 >> 264 with columns 0, 1 and 2 left out. */
  method QuotientEstimate(a: u64, b: u64, c: u64, d: u64, e: u64)
    returns (q0: u64, q1: u64, q2: u64, q3: u64, q4: u64)
    requires Fits(a, b, c, d) && e < W40
    ensures Fits(q0, q1, q2, q3) && q4 < W40
    ensures 0 <= MU * V(a as int, b as int, c as int, d as int, e as int)
                 - P264 * V(q0 as int, q1 as int, q2 as int, q3 as int, q4 as int) < P264 + 4 * P224
  {
    ghost var k3, k4, k5, k6, k7, k8;
    q0, q1, q2, q3, q4, k3, k4, k5, k6, k7, k8 := KeptColumns(a, b, c, d, e);
    DroppedColumns(a as int, b as int, c as int, d as int, e as int, k3, k4, k5, k6, k7, k8);
    EstimateError(MU * V(a as int, b as int, c as int, d as int, e as int), P168 * Upper(k3, k4, k5, k6, k7, k8),
      P264 * V(q0 as int, q1 as int, q2 as int, q3 as int, q4 as int));
  }

  method KeptColumns(a: u64, b: u64, c: u64, d: u64, e: u64)
    returns (q0: u64, q1: u64, q2: u64, q3: u64, q4: u64, ghost k3: int, ghost k4: int, ghost k5: int, ghost k6: int,
             ghost k7: int, ghost k8: int)
    requires Fits(a, b, c, d) && e < W40
    ensures Fits(q0, q1, q2, q3) && q4 < W40
    ensures IsMiddle(a as int, b as int, c as int, d as int, e as int, k3, k4, k5)
    ensures IsTop(c as int, d as int, e as int, k6, k7, k8)
    ensures 0 <= P168 * Upper(k3, k4, k5, k6, k7, k8)
                 - P264 * V(q0 as int, q1 as int, q2 as int, q3 as int, q4 as int) < P264
  {
    var l3, f3, l4, m4, f4, l5, m5, f5;
    l3, f3, l4, m4, f4, l5, m5, f5, k3, k4, k5 := MiddleColumns(a, b, c, d, e);
    var l6, m6, f6, l7, m7, f7, l8, m8, f8;
    l6, m6, f6, l7, m7, f7, l8, m8, f8, k6, k7, k8 := TopColumns(f5, c, d, e);
    q0 := Join16(m4, l5);
    q1 := Join16(m5, l6);
    q2 := Join16(m6, l7);
    q3 := Join16(m7, l8);
    q4 := Join16(m8, f8);
    CarriedColumns(k3, k4, k5, k6, k7, k8, l3 as int, l4 as int, l5 as int, l6 as int, l7 as int, l8 as int,
      m4 as int, m5 as int, m6 as int, m7 as int, m8 as int,
      f3 as int, f4 as int, f5 as int, f6 as int, f7 as int, f8 as int,
      q0 as int, q1 as int, q2 as int, q3 as int, q4 as int);
  }

  lemma EstimateError(x: int, y: int, z: int)
    requires 0 <= x - y < 4 * P224 && 0 <= y - z < P264
    ensures 0 <= x - z < P264 + 4 * P224
  {
  }

  /** Columns 3 and up, in units of 2^168. */
  ghost function Upper(k3: int, k4: int, k5: int, k6: int, k7: int, k8: int): int {
    k3 + P56 * k4 + P112 * k5 + P168 * k6 + P224 * k7 + P56 * P224 * k8
  }

  lemma DroppedColumns(a: int, b: int, c: int, d: int, e: int, k3: int, k4: int, k5: int, k6: int, k7: int, k8: int)
    requires 0 <= a < P56 && 0 <= b < P56 && 0 <= c < P56
    requires IsMiddle(a, b, c, d, e, k3, k4, k5) && IsTop(c, d, e, k6, k7, k8)
    ensures 0 <= MU * V(a, b, c, d, e) - P168 * Upper(k3, k4, k5, k6, k7, k8) < 4 * P224
  {
  }

  lemma CarriedColumns(k3: int, k4: int, k5: int, k6: int, k7: int, k8: int,
                       l3: int, l4: int, l5: int, l6: int, l7: int, l8: int,
                       m4: int, m5: int, m6: int, m7: int, m8: int,
                       f3: int, f4: int, f5: int, f6: int, f7: int, f8: int,
                       q0: int, q1: int, q2: int, q3: int, q4: int)
    requires 0 <= l3 < P56 && 0 <= l4 < P40
    requires k3 == l3 + f3 * P56
    requires f3 + k4 == l4 + m4 * P40 + f4 * P56
    requires f4 + k5 == l5 + m5 * P40 + f5 * P56
    requires f5 + k6 == l6 + m6 * P40 + f6 * P56
    requires f6 + k7 == l7 + m7 * P40 + f7 * P56
    requires f7 + k8 == l8 + m8 * P40 + f8 * P56
    requires q0 == m4 + l5 * 0x1_0000 && q1 == m5 + l6 * 0x1_0000 && q2 == m6 + l7 * 0x1_0000
    requires q3 == m7 + l8 * 0x1_0000 && q4 == m8 + f8 * 0x1_0000
    ensures 0 <= P168 * Upper(k3, k4, k5, k6, k7, k8) - P264 * V(q0, q1, q2, q3, q4) < P264
  {
  }

  /** For every x below 2^512 the estimate is never above x div m and at most 1 below it, since the fractional part
      of 2^512 / m is below 0.226: what remains is below 1.29m. */
  lemma BarrettQuotient(x: int, q: int)
    requires 0 <= x < P512
    requires 0 <= MU * (x / P248) - P264 * q < P264 + 4 * P224
    ensures x / M - 1 <= q <= x / M && 100 * (x - M * q) < 129 * M
  {
    assert 1000 * (P512 - MU * M) < 226 * M;
  }

  /** r2 = m * q3 mod 2^264: the low columns only, the last one cut to 40 bits. */
  method LowProduct(q0: u64, q1: u64, q2: u64, q3: u64, q4: u64)
    returns (r0: u64, r1: u64, r2: u64, r3: u64, r4: u64)
    requires Fits(q0, q1, q2, q3) && q4 < W56
    ensures Fits(r0, r1, r2, r3) && r4 < W40
    ensures V(r0 as int, r1 as int, r2 as int, r3 as int, r4 as int)
            == M * V(q0 as int, q1 as int, q2 as int, q3 as int, q4 as int) % P264
  {
    var f0, f1, f2, f3, m4, f4;
    var s := Dot1(0, M0, q0);
    r0, f0 := Carry56(s);
    s := Dot2(f0, M0, q1, M1, q0);
    r1, f1 := Carry56(s);
    s := Dot3(f1, M0, q2, M2, q0, M1, q1);
    r2, f2 := Carry56(s);
    s := Dot4(f2, M0, q3, M3, q0, M1, q2, M2, q1);
    r3, f3 := Carry56(s);
    s := Dot5(f3, M0, q4, M4, q0, M3, q1, M1, q3, M2, q2);
    r4, m4, f4 := Splice40(s);
    LowProductValue(q0 as int, q1 as int, q2 as int, q3 as int, q4 as int, r0 as int, r1 as int, r2 as int,
      r3 as int, r4 as int, f0 as int, f1 as int, f2 as int, f3 as int, m4 as int + f4 as int * 0x1_0000);
  }

  lemma LowProductValue(q0: int, q1: int, q2: int, q3: int, q4: int, r0: int, r1: int, r2: int, r3: int, r4: int,
                        f0: int, f1: int, f2: int, f3: int, f4: int)
    requires 0 <= r0 < P56 && 0 <= r1 < P56 && 0 <= r2 < P56 && 0 <= r3 < P56 && 0 <= r4 < P40
    requires M0 as int * q0 == r0 + f0 * P56
    requires f0 + M0 as int * q1 + M1 as int * q0 == r1 + f1 * P56
    requires f1 + M0 as int * q2 + M2 as int * q0 + M1 as int * q1 == r2 + f2 * P56
    requires f2 + M0 as int * q3 + M3 as int * q0 + M1 as int * q2 + M2 as int * q1 == r3 + f3 * P56
    requires f3 + M0 as int * q4 + M4 as int * q0 + M3 as int * q1 + M1 as int * q3 + M2 as int * q2
             == r4 + f4 * P40
    ensures V(r0, r1, r2, r3, r4) == M * V(q0, q1, q2, q3, q4) % P264
  {
    var high := M4 as int * q1 + M3 as int * q2 + M2 as int * q3 + M1 as int * q4
                + P56 * (M4 as int * q2 + M3 as int * q3 + M2 as int * q4)
                + P112 * (M4 as int * q3 + M3 as int * q4) + P168 * (M4 as int * q4);
    assert M * V(q0, q1, q2, q3, q4) == V(r0, r1, r2, r3, r4) + P264 * (f4 + 0x1_0000 * high);
    ModUnique(M * V(q0, q1, q2, q3, q4), V(r0, r1, r2, r3, r4), f4 + 0x1_0000 * high, P264);
  }

  /** barrett_reduce256_modm, for q1 = x >> 248 and r1 = x mod 2^264; r may be r1. */
  method Barrett(r: array<u64>, q1: array<u64>, r1: array<u64>, ghost x: int)
    requires 0 <= x < P512
    requires Limbs(q1) && q1[4] < W40 && Val(q1) == x / P248
    requires Limbs(r1) && r1[4] < W40 && Val(r1) == x % P264
    requires r.Length == 5
    modifies r
    ensures Limbs(r) && r[4] < W32 && Val(r) == x % M
  {
    var a, b, c, d, e := QuotientEstimate(q1[0], q1[1], q1[2], q1[3], q1[4]);
    ghost var q := V(a as int, b as int, c as int, d as int, e as int);
    BarrettQuotient(x, q);
    a, b, c, d, e := LowProduct(a, b, c, d, e);
    Subtract264(r, r1, a, b, c, d, e);
    BarrettRemainder(x, q, Val(r));
    Reduce256(r);
    Reduce256(r);
    BarrettReduced(x, q);
  }

  /** r = r1 - r2 mod 2^264. */
  method Subtract264(r: array<u64>, r1: array<u64>, a: u64, b: u64, c: u64, d: u64, e: u64)
    requires Limbs(r1) && r1[4] < W40 && r.Length == 5
    requires Fits(a, b, c, d) && e < W40
    modifies r
    ensures Limbs(r) && r[4] < W40
    ensures Val(r) == (old(Val(r1)) - V(a as int, b as int, c as int, d as int, e as int)) % P264
  {
    var s0, s1, s2, s3, s4 := BorrowChain(r1[0], r1[1], r1[2], r1[3], r1[4], a, b, c, d, e);
    r[0], r[1], r[2], r[3], r[4] := s0, s1, s2, s3, s4;
  }

  method BorrowChain(x0: u64, x1: u64, x2: u64, x3: u64, x4: u64, y0: u64, y1: u64, y2: u64, y3: u64, y4: u64)
    returns (r0: u64, r1: u64, r2: u64, r3: u64, r4: u64)
    requires Fits(x0, x1, x2, x3) && x4 < W40 && Fits(y0, y1, y2, y3) && y4 < W40
    ensures Fits(r0, r1, r2, r3) && r4 < W40
    ensures V(r0 as int, r1 as int, r2 as int, r3 as int, r4 as int)
            == (V(x0 as int, x1 as int, x2 as int, x3 as int, x4 as int)
                - V(y0 as int, y1 as int, y2 as int, y3 as int, y4 as int)) % P264
  {
    var b0, b1, b2, b3, b4;
    r0, b0 := SubBorrow(x0, y0, W56);
    r1, b1 := SubBorrow(x1, y1 + b0, W56);
    r2, b2 := SubBorrow(x2, y2 + b1, W56);
    r3, b3 := SubBorrow(x3, y3 + b2, W56);
    r4, b4 := SubBorrow(x4, y4 + b3, W40);
    BorrowedValue(x0 as int, x1 as int, x2 as int, x3 as int, x4 as int,
      y0 as int, y1 as int, y2 as int, y3 as int, y4 as int,
      r0 as int, r1 as int, r2 as int, r3 as int, r4 as int,
      b0 as int, b1 as int, b2 as int, b3 as int, b4 as int);
  }

  lemma BorrowedValue(x0: int, x1: int, x2: int, x3: int, x4: int, y0: int, y1: int, y2: int, y3: int, y4: int,
                      r0: int, r1: int, r2: int, r3: int, r4: int, b0: int, b1: int, b2: int, b3: int, b4: int)
    requires 0 <= r0 < P56 && 0 <= r1 < P56 && 0 <= r2 < P56 && 0 <= r3 < P56 && 0 <= r4 < P40
    requires r0 == x0 - y0 + b0 * P56
    requires r1 == x1 - (y1 + b0) + b1 * P56
    requires r2 == x2 - (y2 + b1) + b2 * P56
    requires r3 == x3 - (y3 + b2) + b3 * P56
    requires r4 == x4 - (y4 + b3) + b4 * P40
    ensures V(r0, r1, r2, r3, r4) == (V(x0, x1, x2, x3, x4) - V(y0, y1, y2, y3, y4)) % P264
  {
    assert V(r0, r1, r2, r3, r4) == V(x0, x1, x2, x3, x4) - V(y0, y1, y2, y3, y4) + b4 * P264;
    ModUnique(V(x0, x1, x2, x3, x4) - V(y0, y1, y2, y3, y4), V(r0, r1, r2, r3, r4), -b4, P264);
  }

  lemma BarrettRemainder(x: int, q: int, r: int)
    requires 0 <= x && x / M - 2 <= q <= x / M
    requires r == (x % P264 - M * q % P264) % P264
    ensures r == x - M * q && 0 <= r < (x / M - q + 1) * M
  {
    var y := M * q;
    NearMultiple(x, q);
    ModUnique(x % P264 - y % P264, x - y, y / P264 - x / P264, P264);
  }

  lemma NearMultiple(x: int, q: int)
    requires 0 <= x && x / M - 2 <= q <= x / M
    ensures 0 <= x - M * q < (x / M - q + 1) * M <= 3 * M
  {
    var t := x / M - q;
    assert x - M * q == x % M + M * t;
  }

  /** Each shortfall of the estimate takes one conditional subtraction; the second one finds nothing to do where
      the estimate is at most 1 below. */
  lemma BarrettReduced(x: int, q: int)
    requires 0 <= x && x / M - 2 <= q <= x / M
    ensures var r := x - M * q;
            var r' := if r < M then r else r - M;
            && x % M == (if r' < M then r' else r' - M)
            && (x / M - 1 <= q ==> r' == x % M < M)
  {
  }

  method AddCarry(c: u64, x: u64, y: u64) returns (lo: u64, c': u64)
    requires c < 0x1000 && x < W56 && y < W56
    ensures c as int + x as int + y as int == lo as int + c' as int * P56
    ensures lo < W56 && c' <= 2
  {
    c' := c + x + y;
    lo, c' := c' % 0x100_0000_0000_0000, c' / 0x100_0000_0000_0000;
  }

  /** add256_modm; r may be x or y. For reduced operands the result is (x + y) mod m. */
  method Add256(r: array<u64>, x: array<u64>, y: array<u64>)
    requires Limbs(x) && x[4] < W40 && Limbs(y) && y[4] < W40 && r.Length == 5
    modifies r
    ensures Limbs(r)
    ensures var s := old(Val(x)) + old(Val(y)); Val(r) == if s < M then s else s - M
    ensures old(Val(x)) < M && old(Val(y)) < M ==> Val(r) == (old(Val(x)) + old(Val(y))) % M && r[4] < W32
  {
    ghost var vx, vy := Val(x), Val(y);
    Sum256(r, x, y);
    Reduce256(r);
    if vx < M && vy < M {
      SumOfReduced(vx, vy);
      TopLimb(r[0] as int, r[1] as int, r[2] as int, r[3] as int, r[4] as int);
    }
  }

  lemma SumOfReduced(x: int, y: int)
    requires 0 <= x < M && 0 <= y < M
    ensures (x + y) % M == (if x + y < M then x + y else x + y - M) < M
  {
    ModUnique(x + y, if x + y < M then x + y else x + y - M, if x + y < M then 0 else 1, M);
  }

  method Sum256(r: array<u64>, x: array<u64>, y: array<u64>)
    requires Limbs(x) && x[4] < W40 && Limbs(y) && y[4] < W40 && r.Length == 5
    modifies r
    ensures Limbs(r) && r[4] < 0x200_0000_0000_0000
    ensures Val(r) == old(Val(x)) + old(Val(y))
  {
    var r0, c0 := AddCarry(0, x[0], y[0]);
    var r1, c1 := AddCarry(c0, x[1], y[1]);
    var r2, c2 := AddCarry(c1, x[2], y[2]);
    var r3, c3 := AddCarry(c2, x[3], y[3]);
    var r4 := c3 + x[4] + y[4];
    CarriedSum(x[0] as int, x[1] as int, x[2] as int, x[3] as int, x[4] as int,
      y[0] as int, y[1] as int, y[2] as int, y[3] as int, y[4] as int,
      r0 as int, r1 as int, r2 as int, r3 as int, r4 as int, c0 as int, c1 as int, c2 as int, c3 as int);
    r[0], r[1], r[2], r[3], r[4] := r0, r1, r2, r3, r4;
  }

  lemma CarriedSum(x0: int, x1: int, x2: int, x3: int, x4: int, y0: int, y1: int, y2: int, y3: int, y4: int,
                   r0: int, r1: int, r2: int, r3: int, r4: int, c0: int, c1: int, c2: int, c3: int)
    requires x0 + y0 == r0 + c0 * P56 && c0 + x1 + y1 == r1 + c1 * P56
    requires c1 + x2 + y2 == r2 + c2 * P56 && c2 + x3 + y3 == r3 + c3 * P56 && c3 + x4 + y4 == r4
    ensures V(r0, r1, r2, r3, r4) == V(x0, x1, x2, x3, x4) + V(y0, y1, y2, y3, y4)
  {
  }

  /** A carried number below 2^256 has a top limb below 2^32. */
  lemma TopLimb(a: int, b: int, c: int, d: int, e: int)
    requires 0 <= a && 0 <= b && 0 <= c && 0 <= d && V(a, b, c, d, e) < P256
    ensures e < W32 as int
  {
  }

  /** Columns of a product of two limb vectors, as numbers. */
  ghost function Nine(k0: int, k1: int, k2: int, k3: int, k4: int, k5: int, k6: int, k7: int, k8: int): int {
    k0 + P56 * k1 + P112 * k2 + P168 * k3 + P224 * (k4 + P56 * k5 + P112 * k6 + P168 * k7 + P224 * k8)
  }

  lemma Distribute(x: int, a: int, b: int, c: int, d: int, e: int)
    ensures x * V(a, b, c, d, e) == V(x * a, x * b, x * c, x * d, x * e)
  {
    assert x * (b * P56) == x * b * P56;
    assert x * (c * P112) == x * c * P112;
    assert x * (d * P168) == x * d * P168;
    assert x * (e * P224) == x * e * P224;
  }

  lemma ProductColumns(x0: int, x1: int, x2: int, x3: int, x4: int, y0: int, y1: int, y2: int, y3: int, y4: int)
    ensures V(x0, x1, x2, x3, x4) * V(y0, y1, y2, y3, y4)
            == Nine(x0 * y0,
                    x0 * y1 + x1 * y0,
                    x0 * y2 + x2 * y0 + x1 * y1,
                    x0 * y3 + x3 * y0 + x1 * y2 + x2 * y1,
                    x0 * y4 + x4 * y0 + x3 * y1 + x1 * y3 + x2 * y2,
                    x4 * y1 + x1 * y4 + x2 * y3 + x3 * y2,
                    x4 * y2 + x2 * y4 + x3 * y3,
                    x4 * y3 + x3 * y4,
                    x4 * y4)
  {
    var y := V(y0, y1, y2, y3, y4);
    Distribute(y, x0, x1, x2, x3, x4);
    Distribute(x0, y0, y1, y2, y3, y4);
    Distribute(x1, y0, y1, y2, y3, y4);
    Distribute(x2, y0, y1, y2, y3, y4);
    Distribute(x3, y0, y1, y2, y3, y4);
    Distribute(x4, y0, y1, y2, y3, y4);
    assert V(x0, x1, x2, x3, x4) * y == V(x0 * y, x1 * y, x2 * y, x3 * y, x4 * y);
  }

  /** Splits a column at bit 24: x >> 248 starts inside column 4. */
  method Splice24(c: u128) returns (lo: u64, mid: u64, f: u64)
    requires c < 0x10_0000_0000_0000_0000_0000_0000_0000
    ensures c as int == lo as int + mid as int * 0x100_0000 + f as int * P56
    ensures lo < 0x100_0000 && mid < W32 && f < 0x1000_0000_0000_0000
  {
    var w := Lo(c);
    lo, mid := w % 0x100_0000, (w / 0x100_0000) % 0x1_0000_0000;
    f := Shr56(c);
    Splice24Bits(c as int);
  }

  lemma Splice24Bits(c: int)
    requires 0 <= c
    ensures var w := c % 0x1_0000_0000_0000_0000;
            c == w % 0x100_0000 + ((w / 0x100_0000) % 0x1_0000_0000) * 0x100_0000
                 + (c / 0x100_0000_0000_0000) * 0x100_0000_0000_0000
  {
  }

  method Join32(mid: u64, lo: u64) returns (q: u64)
    requires mid < W32 && lo < 0x100_0000
    ensures q as int == mid as int + lo as int * 0x1_0000_0000
    ensures q < W56 && (lo < 0x100 ==> q < W40)
  {
    q := mid + lo * 0x1_0000_0000;
  }

  method LowColumns(x0: u64, x1: u64, x2: u64, x3: u64, y0: u64, y1: u64, y2: u64, y3: u64)
    returns (r0: u64, f0: u64, r1: u64, f1: u64, r2: u64, f2: u64, r3: u64, f3: u64)
    requires Fits(x0, x1, x2, x3) && Fits(y0, y1, y2, y3)
    ensures Fits(r0, r1, r2, r3) && f3 < 0x1000_0000_0000_0000
    ensures x0 as int * y0 as int == r0 as int + f0 as int * P56
    ensures f0 as int + (x0 as int * y1 as int + x1 as int * y0 as int) == r1 as int + f1 as int * P56
    ensures f1 as int + (x0 as int * y2 as int + x2 as int * y0 as int + x1 as int * y1 as int)
            == r2 as int + f2 as int * P56
    ensures f2 as int + (x0 as int * y3 as int + x3 as int * y0 as int + x1 as int * y2 as int
                         + x2 as int * y1 as int) == r3 as int + f3 as int * P56
  {
    var c := Dot1(0, x0, y0);
    r0, f0 := Carry56(c);
    c := Dot2(f0, x0, y1, x1, y0);
    r1, f1 := Carry56(c);
    c := Dot3(f1, x0, y2, x2, y0, x1, y1);
    r2, f2 := Carry56(c);
    c := Dot4(f2, x0, y3, x3, y0, x1, y2, x2, y1);
    r3, f3 := Carry56(c);
  }

  method HighColumns(f3: u64, x0: u64, x1: u64, x2: u64, x3: u64, x4: u64,
                     y0: u64, y1: u64, y2: u64, y3: u64, y4: u64)
    returns (l4: u64, m4: u64, f4: u64, l5: u64, m5: u64, f5: u64, l6: u64, m6: u64, f6: u64,
             l7: u64, m7: u64, f7: u64, l8: u64, m8: u64, f8: u64)
    requires f3 < 0x1000_0000_0000_0000
    requires Fits(x0, x1, x2, x3) && x4 < W56 && Fits(y0, y1, y2, y3) && y4 < W56
    ensures l4 < 0x100_0000 && m4 < W32 && l5 < 0x100_0000 && m5 < W32 && l6 < 0x100_0000 && m6 < W32
    ensures l7 < 0x100_0000 && m7 < W32 && l8 < 0x100_0000 && m8 < W32
    ensures f3 as int + (x0 as int * y4 as int + x4 as int * y0 as int + x3 as int * y1 as int
                         + x1 as int * y3 as int + x2 as int * y2 as int)
            == l4 as int + m4 as int * 0x100_0000 + f4 as int * P56
    ensures f4 as int + (x4 as int * y1 as int + x1 as int * y4 as int + x2 as int * y3 as int
                         + x3 as int * y2 as int)
            == l5 as int + m5 as int * 0x100_0000 + f5 as int * P56
    ensures f5 as int + (x4 as int * y2 as int + x2 as int * y4 as int + x3 as int * y3 as int)
            == l6 as int + m6 as int * 0x100_0000 + f6 as int * P56
    ensures f6 as int + (x4 as int * y3 as int + x3 as int * y4 as int)
            == l7 as int + m7 as int * 0x100_0000 + f7 as int * P56
    ensures f7 as int + x4 as int * y4 as int == l8 as int + m8 as int * 0x100_0000 + f8 as int * P56
  {
    var c := Dot5(f3, x0, y4, x4, y0, x3, y1, x1, y3, x2, y2);
    l4, m4, f4 := Splice24(c);
    c := Dot4(f4, x4, y1, x1, y4, x2, y3, x3, y2);
    l5, m5, f5 := Splice24(c);
    c := Dot3(f5, x4, y2, x2, y4, x3, y3);
    l6, m6, f6 := Splice24(c);
    c := Dot2(f6, x4, y3, x3, y4);
    l7, m7, f7 := Splice24(c);
    c := Dot1(f7, x4, y4);
    l8, m8, f8 := Splice24(c);
  }

  /** Carrying the nine columns splits the product at bit 248. */
  lemma CarriedProduct(k0: int, k1: int, k2: int, k3: int, k4: int, k5: int, k6: int, k7: int, k8: int,
                       r0: int, r1: int, r2: int, r3: int, l4: int, l5: int, l6: int, l7: int, l8: int,
                       m4: int, m5: int, m6: int, m7: int, m8: int,
                       f0: int, f1: int, f2: int, f3: int, f4: int, f5: int, f6: int, f7: int, f8: int)
    requires k0 == r0 + f0 * P56
    requires f0 + k1 == r1 + f1 * P56
    requires f1 + k2 == r2 + f2 * P56
    requires f2 + k3 == r3 + f3 * P56
    requires f3 + k4 == l4 + m4 * 0x100_0000 + f4 * P56
    requires f4 + k5 == l5 + m5 * 0x100_0000 + f5 * P56
    requires f5 + k6 == l6 + m6 * 0x100_0000 + f6 * P56
    requires f6 + k7 == l7 + m7 * 0x100_0000 + f7 * P56
    requires f7 + k8 == l8 + m8 * 0x100_0000 + f8 * P56
    ensures Nine(k0, k1, k2, k3, k4, k5, k6, k7, k8)
            == V(r0, r1, r2, r3, l4)
               + P248 * V(m4 + l5 * 0x1_0000_0000, m5 + l6 * 0x1_0000_0000, m6 + l7 * 0x1_0000_0000,
                          m7 + l8 * 0x1_0000_0000, m8 + f8 * 0x1_0000_0000)
  {
  }

  /** Both halves that Barrett reduction takes: x >> 248 and x mod 2^264. */
  lemma SplitProduct(x: int, r0: int, r1: int, r2: int, r3: int, l4: int, m4: int, q: int, k: int)
    requires 0 <= r0 < P56 && 0 <= r1 < P56 && 0 <= r2 < P56 && 0 <= r3 < P56 && 0 <= l4 < 0x100_0000
    requires 0 <= m4 && q == m4 + 0x1_0000_0000 * k
    requires x == V(r0, r1, r2, r3, l4) + P248 * q
    ensures q == x / P248
    ensures V(r0, r1, r2, r3, l4 + m4 % 0x1_0000 * 0x100_0000) == x % P264
  {
    ModUnique(x, V(r0, r1, r2, r3, l4), q, P248);
    ModUnique(x, V(r0, r1, r2, r3, l4 + m4 % 0x1_0000 * 0x100_0000), m4 / 0x1_0000 + 0x1_0000 * k, P264);
  }

  /** mul256_modm; r may be x or y. */
  method Mul256(r: array<u64>, x: array<u64>, y: array<u64>)
    requires Limbs(x) && x[4] < W32 && Limbs(y) && y[4] < W32 && r.Length == 5
    modifies r
    ensures Limbs(r) && r[4] < W32
    ensures Val(r) == old(Val(x)) * old(Val(y)) % M
  {
    ghost var vx, vy := Val(x), Val(y);
    var r1, q1 := Product(x, y);
    Barrett(r, q1, r1, vx * vy);
  }

  method Product(x: array<u64>, y: array<u64>) returns (r1: array<u64>, q1: array<u64>)
    requires Limbs(x) && x[4] < W32 && Limbs(y) && y[4] < W32
    ensures fresh(r1) && fresh(q1) && 0 <= Val(x) * Val(y) < P512
    ensures Limbs(r1) && r1[4] < W40 && Val(r1) == Val(x) * Val(y) % P264
    ensures Limbs(q1) && q1[4] < W40 && Val(q1) == Val(x) * Val(y) / P248
  {
    ProductBound(Val(x), Val(y));
    var r0, r1', r2, r3, r4, a, b, c, d, e :=
      ProductLimbs(x[0], x[1], x[2], x[3], x[4], y[0], y[1], y[2], y[3], y[4]);
    r1, q1 := new u64[5], new u64[5];
    r1[0], r1[1], r1[2], r1[3], r1[4] := r0, r1', r2, r3, r4;
    q1[0], q1[1], q1[2], q1[3], q1[4] := a, b, c, d, e;
  }

  lemma ProductBound(x: int, y: int)
    requires 0 <= x < P256 && 0 <= y < P256
    ensures 0 <= x * y < P512
  {
    MulBound(x, y, P256 - 1, P256 - 1);
  }

  method ProductLimbs(x0: u64, x1: u64, x2: u64, x3: u64, x4: u64, y0: u64, y1: u64, y2: u64, y3: u64, y4: u64)
    returns (r0: u64, r1: u64, r2: u64, r3: u64, r4: u64, q0: u64, q1: u64, q2: u64, q3: u64, q4: u64)
    requires Fits(x0, x1, x2, x3) && x4 < W32 && Fits(y0, y1, y2, y3) && y4 < W32
    ensures var x := V(x0 as int, x1 as int, x2 as int, x3 as int, x4 as int)
                     * V(y0 as int, y1 as int, y2 as int, y3 as int, y4 as int);
            && V(r0 as int, r1 as int, r2 as int, r3 as int, r4 as int) == x % P264
            && V(q0 as int, q1 as int, q2 as int, q3 as int, q4 as int) == x / P248
    ensures Fits(r0, r1, r2, r3) && r4 < W40
    ensures Fits(q0, q1, q2, q3) && q4 < W40
  {
    var f0, f1, f2, f3;
    r0, f0, r1, f1, r2, f2, r3, f3 := LowColumns(x0, x1, x2, x3, y0, y1, y2, y3);
    var l4, m4, f4, l5, m5, f5, l6, m6, f6, l7, m7, f7, l8, m8, f8 :=
      HighColumns(f3, x0, x1, x2, x3, x4, y0, y1, y2, y3, y4);
    ghost var q := ProductValue(x0 as int, x1 as int, x2 as int, x3 as int, x4 as int,
      y0 as int, y1 as int, y2 as int, y3 as int, y4 as int,
      r0 as int, r1 as int, r2 as int, r3 as int, l4 as int, l5 as int, l6 as int, l7 as int, l8 as int,
      m4 as int, m5 as int, m6 as int, m7 as int, m8 as int,
      f0 as int, f1 as int, f2 as int, f3 as int, f4 as int, f5 as int, f6 as int, f7 as int, f8 as int);
    r4 := l4 + m4 % 0x1_0000 * 0x100_0000;
    q0 := Join32(m4, l5);
    q1 := Join32(m5, l6);
    q2 := Join32(m6, l7);
    q3 := Join32(m7, l8);
    q4 := Join32(m8, f8);
  }

  lemma ProductValue(x0: int, x1: int, x2: int, x3: int, x4: int, y0: int, y1: int, y2: int, y3: int, y4: int,
                     r0: int, r1: int, r2: int, r3: int, l4: int, l5: int, l6: int, l7: int, l8: int,
                     m4: int, m5: int, m6: int, m7: int, m8: int,
                     f0: int, f1: int, f2: int, f3: int, f4: int, f5: int, f6: int, f7: int, f8: int)
    returns (q: int)
    requires 0 <= V(x0, x1, x2, x3, x4) < P256 && 0 <= V(y0, y1, y2, y3, y4) < P256
    requires 0 <= r0 < P56 && 0 <= r1 < P56 && 0 <= r2 < P56 && 0 <= r3 < P56 && 0 <= l4 < 0x100_0000
    requires 0 <= m4 && 0 <= m5 && 0 <= m6 && 0 <= m7 && 0 <= m8 && 0 <= l5 && 0 <= l6 && 0 <= l7 && 0 <= l8
    requires x0 * y0 == r0 + f0 * P56
    requires f0 + (x0 * y1 + x1 * y0) == r1 + f1 * P56
    requires f1 + (x0 * y2 + x2 * y0 + x1 * y1) == r2 + f2 * P56
    requires f2 + (x0 * y3 + x3 * y0 + x1 * y2 + x2 * y1) == r3 + f3 * P56
    requires f3 + (x0 * y4 + x4 * y0 + x3 * y1 + x1 * y3 + x2 * y2) == l4 + m4 * 0x100_0000 + f4 * P56
    requires f4 + (x4 * y1 + x1 * y4 + x2 * y3 + x3 * y2) == l5 + m5 * 0x100_0000 + f5 * P56
    requires f5 + (x4 * y2 + x2 * y4 + x3 * y3) == l6 + m6 * 0x100_0000 + f6 * P56
    requires f6 + (x4 * y3 + x3 * y4) == l7 + m7 * 0x100_0000 + f7 * P56
    requires f7 + x4 * y4 == l8 + m8 * 0x100_0000 + f8 * P56
    ensures q == V(m4 + l5 * 0x1_0000_0000, m5 + l6 * 0x1_0000_0000, m6 + l7 * 0x1_0000_0000,
                   m7 + l8 * 0x1_0000_0000, m8 + f8 * 0x1_0000_0000)
    ensures f8 < 0x100
    ensures var x := V(x0, x1, x2, x3, x4) * V(y0, y1, y2, y3, y4);
            V(r0, r1, r2, r3, l4 + m4 % 0x1_0000 * 0x100_0000) == x % P264 && q == x / P248
  {
    q := V(m4 + l5 * 0x1_0000_0000, m5 + l6 * 0x1_0000_0000, m6 + l7 * 0x1_0000_0000,
           m7 + l8 * 0x1_0000_0000, m8 + f8 * 0x1_0000_0000);
    var x := V(x0, x1, x2, x3, x4) * V(y0, y1, y2, y3, y4);
    ProductBound(V(x0, x1, x2, x3, x4), V(y0, y1, y2, y3, y4));
    ProductColumns(x0, x1, x2, x3, x4, y0, y1, y2, y3, y4);
    CarriedProduct(x0 * y0, x0 * y1 + x1 * y0, x0 * y2 + x2 * y0 + x1 * y1, x0 * y3 + x3 * y0 + x1 * y2 + x2 * y1,
      x0 * y4 + x4 * y0 + x3 * y1 + x1 * y3 + x2 * y2, x4 * y1 + x1 * y4 + x2 * y3 + x3 * y2,
      x4 * y2 + x2 * y4 + x3 * y3, x4 * y3 + x3 * y4, x4 * y4,
      r0, r1, r2, r3, l4, l5, l6, l7, l8, m4, m5, m6, m7, m8, f0, f1, f2, f3, f4, f5, f6, f7, f8);
    SplitProduct(x, r0, r1, r2, r3, l4, m4, q,
      l5 + 0x100_0000 * V(m5 + l6 * 0x1_0000_0000, m6 + l7 * 0x1_0000_0000, m7 + l8 * 0x1_0000_0000,
                          m8 + f8 * 0x1_0000_0000, 0));
    assert q < P264;
  }

  /** out[] of expand256_modm: 64-bit words regrouped into limbs of 56 bits, up to bit 264. */
  method Regroup(x0: u64, x1: u64, x2: u64, x3: u64, x4: u64)
    returns (a: u64, b: u64, c: u64, d: u64, e: u64)
    ensures Fits(a, b, c, d) && e < W40
    ensures V(a as int, b as int, c as int, d as int, e as int)
            == x0 as int + P64 * x1 as int + P128 * x2 as int + P192 * x3 as int + P256 * (x4 as int % 0x100)
  {
    a := x0 % 0x100_0000_0000_0000;
    b := x0 / 0x100_0000_0000_0000 + x1 % 0x1_0000_0000_0000 * 0x100;
    c := x1 / 0x1_0000_0000_0000 + x2 % 0x100_0000_0000 * 0x1_0000;
    d := x2 / 0x100_0000_0000 + x3 % 0x1_0000_0000 * 0x100_0000;
    e := x3 / 0x1_0000_0000 + x4 % 0x100 * 0x1_0000_0000;
  }

  /** q1[] of expand256_modm: the same words from bit 248 up. */
  method RegroupHigh(x3: u64, x4: u64, x5: u64, x6: u64, x7: u64)
    returns (a: u64, b: u64, c: u64, d: u64, e: u64)
    ensures Fits(a, b, c, d) && e < W40
    ensures V(a as int, b as int, c as int, d as int, e as int)
            == x3 as int / P56 + 0x100 * (x4 as int + P64 * x5 as int + P128 * x6 as int + P192 * x7 as int)
  {
    a := x3 / 0x100_0000_0000_0000 + x4 % 0x1_0000_0000_0000 * 0x100;
    b := x4 / 0x1_0000_0000_0000 + x5 % 0x100_0000_0000 * 0x1_0000;
    c := x5 / 0x100_0000_0000 + x6 % 0x1_0000_0000 * 0x100_0000;
    d := x6 / 0x1_0000_0000 + x7 % 0x100_0000 * 0x1_0000_0000;
    e := x7 / 0x100_0000;
  }

  lemma SplitWords(lo: int, hi: int, x4: int, x3: int, x: int)
    requires 0 <= lo < P256 && x == lo + P256 * hi && x4 == hi % P64 && x3 == lo / P192
    ensures lo + P256 * (x4 % 0x100) == x % P264
    ensures x3 / P56 + 0x100 * hi == x / P248
  {
    ModUnique(hi, x4 % 0x100, P56 * (hi / P64) + x4 / 0x100, 0x100);
    ModUnique(x, lo + P256 * (hi % 0x100), hi / 0x100, P264);
    var low := P192 * (x3 % P56) + lo % P192;
    ModUnique(x, low, x3 / P56 + 0x100 * hi, P248);
  }

  /** expand256_modm for the first len bytes of a buffer, any len up to 64. */
  method Expand256(out: array<u64>, input: seq<u8>)
    requires out.Length == 5 && |input| <= 64
    modifies out
    ensures Limbs(out) && out[4] < W32 && Val(out) == LeVal(input) % M
  {
    var q1 := new u64[5];
    LoadWords(out, q1, input);
    if |input| < 32 {
      ShortBound(input);
      SmallMod(LeVal(input));
      TopLimb(out[0] as int, out[1] as int, out[2] as int, out[3] as int, out[4] as int);
      return;
    }
    Barrett(out, q1, out, LeVal(input));
  }

  lemma SmallMod(x: int)
    requires 0 <= x < P248
    ensures x % P264 == x && x % M == x
  {
  }

  method LoadWords(out: array<u64>, q1: array<u64>, input: seq<u8>)
    requires out.Length == 5 && q1.Length == 5 && out != q1 && |input| <= 64
    modifies out, q1
    ensures LeVal(input) < P512
    ensures Limbs(out) && out[4] < W40 && Val(out) == LeVal(input) % P264
    ensures Limbs(q1) && q1[4] < W40 && Val(q1) == LeVal(input) / P248
  {
    var x0, x1, x2, x3, x4, x5, x6, x7 := LoadEight(input);
    SplitWords(x0 as int + P64 * x1 as int + P128 * x2 as int + P192 * x3 as int,
      x4 as int + P64 * x5 as int + P128 * x6 as int + P192 * x7 as int, x4 as int, x3 as int, LeVal(input));
    out[0], out[1], out[2], out[3], out[4] := Regroup(x0, x1, x2, x3, x4);
    q1[0], q1[1], q1[2], q1[3], q1[4] := RegroupHigh(x3, x4, x5, x6, x7);
  }

  /** memcpy to a zeroed buffer of 64 bytes, read back as eight words. */
  method LoadEight(input: seq<u8>)
    returns (x0: u64, x1: u64, x2: u64, x3: u64, x4: u64, x5: u64, x6: u64, x7: u64)
    requires |input| <= 64
    ensures LeVal(input) == x0 as int + P64 * x1 as int + P128 * x2 as int + P192 * x3 as int
                            + P256 * (x4 as int + P64 * x5 as int + P128 * x6 as int + P192 * x7 as int)
  {
    var work := input + seq(64 - |input|, _ => 0);
    PaddedValue(input, work);
    Words8(work);
    x0, x1, x2, x3 := Load64(work, 0), Load64(work, 8), Load64(work, 16), Load64(work, 24);
    x4, x5, x6, x7 := Load64(work, 32), Load64(work, 40), Load64(work, 48), Load64(work, 56);
  }

  lemma PaddedValue(input: seq<u8>, work: seq<u8>)
    requires |input| <= 64 && work == input + seq(64 - |input|, _ => 0)
    ensures LeVal(work) == LeVal(input)
  {
    LeZeros(work[|input|..]);
    LePad(input, work[|input|..]);
    assert work == input + work[|input|..];
  }

  /** contract256_modm: the 32 bytes of a number below 2^256. */
  method Contract256(out: array<u8>, input: array<u64>)
    requires out.Length == 32 && Limbs(input) && input[4] < W32
    modifies out
    ensures LeVal(out[..]) == Val(input)
  {
    var a, b, c, d := Ungroup(input[0], input[1], input[2], input[3], input[4]);
    StoreFour(out, a, b, c, d);
  }

  method Ungroup(a: u64, b: u64, c: u64, d: u64, e: u64) returns (x0: u64, x1: u64, x2: u64, x3: u64)
    requires Fits(a, b, c, d) && e < W32
    ensures V(a as int, b as int, c as int, d as int, e as int)
            == x0 as int + P64 * x1 as int + P128 * x2 as int + P192 * x3 as int
  {
    x0 := a + b % 0x100 * 0x100_0000_0000_0000;
    x1 := b / 0x100 + c % 0x1_0000 * 0x1_0000_0000_0000;
    x2 := c / 0x1_0000 + d % 0x100_0000 * 0x100_0000_0000;
    x3 := d / 0x100_0000 + e * 0x1_0000_0000;
  }
}
