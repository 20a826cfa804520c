/** Arithmetic modulo p = 2^255 - 19 on five limbs of 51 bits (curve25519-donna-64bit.h). */
module Field25519 {
  import opened Words
  import opened Bytes
  import opened Radix

  const P: int := 0x7fff_ffff_ffff_ffff_ffff_ffff_ffff_ffff_ffff_ffff_ffff_ffff_ffff_ffff_ffff_ffed

  const P51: int := 0x8_0000_0000_0000
  const P102: int := 0x40_0000_0000_0000_0000_0000_0000
  const P153: int := 0x200_0000_0000_0000_0000_0000_0000_0000_0000_0000
  const P204: int := 0x1000_0000_0000_0000_0000_0000_0000_0000_0000_0000_0000_0000_0000

  const W51: u64 := 0x8_0000_0000_0000
  const W52: u64 := 0x10_0000_0000_0000
  const W54: u64 := 0x40_0000_0000_0000

  ghost function V(a: int, b: int, c: int, d: int, e: int): int {
    a + b * P51 + c * P102 + d * P153 + e * P204
  }

  /** Five limbs as a value, for code that composes field operations. */
  datatype Fe = Fe(l0: u64, l1: u64, l2: u64, l3: u64, l4: u64) {
    ghost function Num(): int {
      V(l0 as int, l1 as int, l2 as int, l3 as int, l4 as int)
    }

    ghost predicate Below(n: u64) {
      l0 < n && l1 < n && l2 < n && l3 < n && l4 < n
    }
  }

  ghost function Val(x: array<u64>): int
    requires x.Length == 5
    reads x
  {
    V(x[0] as int, x[1] as int, x[2] as int, x[3] as int, x[4] as int)
  }

  /** All limbs are below n. */
  ghost predicate Below(x: array<u64>, n: u64)
    reads x
  {
    x.Length == 5 && x[0] < n && x[1] < n && x[2] < n && x[3] < n && x[4] < n
  }

  ghost predicate Shifted(h: int -> int, x: int, k: int) {
    h(x + P * k) == h(x)
  }

  ghost predicate Separates(h: int -> int, a: int, b: int) {
    h(a) == h(b) ==> a % P == b % P
  }

  /** h is the same on two numbers exactly when they agree modulo p. */
  ghost predicate IsResidue(h: int -> int) {
    (forall x, k :: Shifted(h, x, k)) && (forall a, b :: Separates(h, a, b))
  }

  lemma ResidueExists()
    ensures exists h: int -> int :: IsResidue(h)
  {
    var h := (x: int) => x % P;
    forall x, k ensures Shifted(h, x, k) {
      ModUnique(x + P * k, x % P, x / P + k, P);
    }
    assert IsResidue(h);
  }

  /** Which function it is does not matter, and so the solver never looks into residues. */
  ghost function Residue(): (h: int -> int)
    ensures IsResidue(h)
  {
    ResidueExists();
    var h: int -> int :| IsResidue(h);
    h
  }

  /** Congruence modulo p; CongMod is the usual form. */
  ghost predicate Cong(a: int, b: int) {
    Residue()(a) == Residue()(b)
  }

  lemma CongMultiple(a: int, b: int, k: int)
    requires a == b + P * k
    ensures Cong(a, b)
  {
    assert Shifted(Residue(), b, k);
  }

  lemma Difference(a: int, b: int) returns (k: int)
    requires Cong(a, b)
    ensures a == b + P * k
  {
    assert Separates(Residue(), a, b);
    k := a / P - b / P;
  }

  lemma CongMod(a: int, b: int)
    ensures Cong(a, b) <==> a % P == b % P
  {
    assert Separates(Residue(), a, b);
    if a % P == b % P {
      CongMultiple(a, b, a / P - b / P);
    }
  }

  /** mul64x64_128(mul, a, b) add128(c, mul) for a limb times 19 or 38 and a limb. */
  method MulAdd(c: u128, a: u64, b: u64, n: int) returns (r: u128)
    requires b < W54 && a as int <= n * 0x40_0000_0000_0000 && 0 < n <= 38
    requires c < 0x4000_0000_0000_0000_0000_0000_0000_0000
    ensures r as int == c as int + a as int * b as int
    ensures c as int <= r as int <= c as int + n * 0x1000_0000_0000_0000_0000_0000_0000
  {
    MulBound(a as int, b as int, n * 0x40_0000_0000_0000, 0x40_0000_0000_0000);
    r := c + Mul(a, b);
  }

  /** The five columns of a product, those of weight 2^255 and above folded back times 19. */
  method Columns(r0: u64, r1: u64, r2: u64, r3: u64, r4: u64, s0: u64, s1: u64, s2: u64, s3: u64, s4: u64)
    returns (t0: u128, t1: u128, t2: u128, t3: u128, t4: u128)
    requires r0 < W54 && r1 < W54 && r2 < W54 && r3 < W54 && r4 < W54
    requires s0 < W54 && s1 < W54 && s2 < W54 && s3 < W54 && s4 < W54
    ensures t0 <= TMAX && t1 <= TMAX && t2 <= TMAX && t3 <= TMAX && t4 <= TMAX4
    ensures t0 as int == r0 as int * s0 as int + 19 * (r4 as int * s1 as int) + 19 * (r1 as int * s4 as int)
            + 19 * (r2 as int * s3 as int) + 19 * (r3 as int * s2 as int)
    ensures t1 as int == r0 as int * s1 as int + r1 as int * s0 as int + 19 * (r4 as int * s2 as int)
            + 19 * (r2 as int * s4 as int) + 19 * (r3 as int * s3 as int)
    ensures t2 as int == r0 as int * s2 as int + r2 as int * s0 as int + r1 as int * s1 as int
            + 19 * (r4 as int * s3 as int) + 19 * (r3 as int * s4 as int)
    ensures t3 as int == r0 as int * s3 as int + r3 as int * s0 as int + r1 as int * s2 as int
            + r2 as int * s1 as int + 19 * (r4 as int * s4 as int)
    ensures t4 as int == r0 as int * s4 as int + r4 as int * s0 as int + r3 as int * s1 as int
            + r1 as int * s3 as int + r2 as int * s2 as int
  {
    t0 := MulAdd(0, r0, s0, 1);
    t1 := MulAdd(0, r0, s1, 1); t1 := MulAdd(t1, r1, s0, 1);
    t2 := MulAdd(0, r0, s2, 1); t2 := MulAdd(t2, r2, s0, 1); t2 := MulAdd(t2, r1, s1, 1);
    t3 := MulAdd(0, r0, s3, 1); t3 := MulAdd(t3, r3, s0, 1); t3 := MulAdd(t3, r1, s2, 1);
    t3 := MulAdd(t3, r2, s1, 1);
    t4 := MulAdd(0, r0, s4, 1); t4 := MulAdd(t4, r4, s0, 1); t4 := MulAdd(t4, r3, s1, 1);
    t4 := MulAdd(t4, r1, s3, 1); t4 := MulAdd(t4, r2, s2, 1);
    var f1, f2, f3, f4 := r1 * 19, r2 * 19, r3 * 19, r4 * 19;
    t0 := MulAdd(t0, f4, s1, 19); t0 := MulAdd(t0, f1, s4, 19); t0 := MulAdd(t0, f2, s3, 19);
    t0 := MulAdd(t0, f3, s2, 19);
    t1 := MulAdd(t1, f4, s2, 19); t1 := MulAdd(t1, f2, s4, 19); t1 := MulAdd(t1, f3, s3, 19);
    t2 := MulAdd(t2, f4, s3, 19); t2 := MulAdd(t2, f3, s4, 19);
    t3 := MulAdd(t3, f4, s4, 19);
    MulAssoc(19, r4 as int, s1 as int); MulAssoc(19, r1 as int, s4 as int); MulAssoc(19, r2 as int, s3 as int);
    MulAssoc(19, r3 as int, s2 as int); MulAssoc(19, r4 as int, s2 as int); MulAssoc(19, r2 as int, s4 as int);
    MulAssoc(19, r3 as int, s3 as int); MulAssoc(19, r4 as int, s3 as int); MulAssoc(19, r3 as int, s4 as int);
    MulAssoc(19, r4 as int, s4 as int);
  }

  // No column of a product of 54-bit limbs exceeds 77 * 2^108; the top one has no folded part.
  const TMAX: u128 := 77 * 0x1000_0000_0000_0000_0000_0000_0000
  const TMAX4: u128 := 5 * 0x1000_0000_0000_0000_0000_0000_0000

  /** add128_64(t, c); lo = lo128(t) & (2^51 - 1); shr128(c, t, 51). */
  method Carry51(t: u128, c: u64) returns (lo: u64, c': u64)
    requires t <= TMAX
    ensures t as int + c as int == lo as int + P51 * c' as int
    ensures lo < W51 && c' < 0xa000_0000_0000_0000 && (t <= TMAX4 ==> c' < 0xb00_0000_0000_0000)
  {
    var u := t + c as u128;
    lo := Lo(u) % 0x8_0000_0000_0000;
    c' := (u / 0x8_0000_0000_0000) as u64;
  }

  /** The carry chain of mul and square. */
  method Reduce(t0: u128, t1: u128, t2: u128, t3: u128, t4: u128)
    returns (r0: u64, r1: u64, r2: u64, r3: u64, r4: u64, ghost k: int)
    requires t0 <= TMAX && t1 <= TMAX && t2 <= TMAX && t3 <= TMAX && t4 <= TMAX4
    ensures r0 < W51 && r1 < W51 + 0x2000 && r2 < W51 && r3 < W51 && r4 < W51
    ensures V(t0 as int, t1 as int, t2 as int, t3 as int, t4 as int)
            == V(r0 as int, r1 as int, r2 as int, r3 as int, r4 as int) + P * k
  {
    var c0, c1, c2, c3, c4;
    r0, c0 := Carry51(t0, 0);
    r1, c1 := Carry51(t1, c0);
    r2, c2 := Carry51(t2, c1);
    r3, c3 := Carry51(t3, c2);
    r4, c4 := Carry51(t4, c3);
    r0 := r0 + c4 * 19;
    var c := r0 / 0x8_0000_0000_0000;
    r0 := r0 % 0x8_0000_0000_0000;
    r1 := r1 + c;
    k := c4 as int;
  }

  lemma Distribute(x: int, a: int, b: int, c: int, d: int, e: int)
    ensures x * V(a, b, c, d, e) == V(x * a, x * b, x * c, x * d, x * e)
  {
    assert x * (b * P51) == x * b * P51;
    assert x * (c * P102) == x * c * P102;
    assert x * (d * P153) == x * d * P153;
    assert x * (e * P204) == x * e * P204;
  }

  /** The columns of five rows, folded: linear, because 2^255 = p + 19. */
  lemma FoldedRows(p00: int, p01: int, p02: int, p03: int, p04: int, p10: int, p11: int, p12: int, p13: int, p14: int,
                   p20: int, p21: int, p22: int, p23: int, p24: int, p30: int, p31: int, p32: int, p33: int, p34: int,
                   p40: int, p41: int, p42: int, p43: int, p44: int)
    ensures V(V(p00, p01, p02, p03, p04),
              V(p10, p11, p12, p13, p14),
              V(p20, p21, p22, p23, p24),
              V(p30, p31, p32, p33, p34),
              V(p40, p41, p42, p43, p44))
            == V(p00 + 19 * p41 + 19 * p14 + 19 * p23 + 19 * p32, p01 + p10 + 19 * p42 + 19 * p24 + 19 * p33,
                 p02 + p20 + p11 + 19 * p43 + 19 * p34, p03 + p30 + p12 + p21 + 19 * p44, p04 + p40 + p31 + p13 + p22)
               + P * V(p41 + p14 + p23 + p32, p42 + p24 + p33, p43 + p34, p44, 0)
  {
  }

  /** The folded columns are the product modulo p. */
  lemma FoldedProduct(r0: int, r1: int, r2: int, r3: int, r4: int, s0: int, s1: int, s2: int, s3: int, s4: int)
    ensures V(r0, r1, r2, r3, r4) * V(s0, s1, s2, s3, s4)
            == V(r0 * s0 + 19 * (r4 * s1) + 19 * (r1 * s4) + 19 * (r2 * s3) + 19 * (r3 * s2),
                 r0 * s1 + r1 * s0 + 19 * (r4 * s2) + 19 * (r2 * s4) + 19 * (r3 * s3),
                 r0 * s2 + r2 * s0 + r1 * s1 + 19 * (r4 * s3) + 19 * (r3 * s4),
                 r0 * s3 + r3 * s0 + r1 * s2 + r2 * s1 + 19 * (r4 * s4),
                 r0 * s4 + r4 * s0 + r3 * s1 + r1 * s3 + r2 * s2)
               + P * V(r4 * s1 + r1 * s4 + r2 * s3 + r3 * s2, r4 * s2 + r2 * s4 + r3 * s3,
                       r4 * s3 + r3 * s4, r4 * s4, 0)
  {
    var s := V(s0, s1, s2, s3, s4);
    RowProduct(r0, r1, r2, r3, r4, s);
    Distribute(r0, s0, s1, s2, s3, s4);
    Distribute(r1, s0, s1, s2, s3, s4);
    Distribute(r2, s0, s1, s2, s3, s4);
    Distribute(r3, s0, s1, s2, s3, s4);
    Distribute(r4, s0, s1, s2, s3, s4);
    FoldedRows(r0 * s0, r0 * s1, r0 * s2, r0 * s3, r0 * s4, r1 * s0, r1 * s1, r1 * s2, r1 * s3, r1 * s4,
      r2 * s0, r2 * s1, r2 * s2, r2 * s3, r2 * s4, r3 * s0, r3 * s1, r3 * s2, r3 * s3, r3 * s4,
      r4 * s0, r4 * s1, r4 * s2, r4 * s3, r4 * s4);
  }

  lemma RowProduct(r0: int, r1: int, r2: int, r3: int, r4: int, s: int)
    ensures V(r0, r1, r2, r3, r4) * s == V(r0 * s, r1 * s, r2 * s, r3 * s, r4 * s)
  {
    Distribute(s, r0, r1, r2, r3, r4);
  }

  // mul and square leave all limbs below 2^51, but for a small excess in limb 1.
  const CARRIED: u64 := W51 + 0x2000

  /** The columns of a product as values, and by how many multiples of p they differ from it. */
  method ProductColumns(a: Fe, b: Fe) returns (t0: u128, t1: u128, t2: u128, t3: u128, t4: u128, ghost h: int)
    requires a.Below(W54) && b.Below(W54)
    ensures t0 <= TMAX && t1 <= TMAX && t2 <= TMAX && t3 <= TMAX && t4 <= TMAX4
    ensures a.Num() * b.Num() == V(t0 as int, t1 as int, t2 as int, t3 as int, t4 as int) + P * h
  {
    t0, t1, t2, t3, t4 := Columns(b.l0, b.l1, b.l2, b.l3, b.l4, a.l0, a.l1, a.l2, a.l3, a.l4);
    FoldedProduct(b.l0 as int, b.l1 as int, b.l2 as int, b.l3 as int, b.l4 as int,
      a.l0 as int, a.l1 as int, a.l2 as int, a.l3 as int, a.l4 as int);
    h :| b.Num() * a.Num() == V(t0 as int, t1 as int, t2 as int, t3 as int, t4 as int) + P * h;
    assert a.Num() * b.Num() == b.Num() * a.Num();
  }

  /** curve25519_mul on values, for all limbs below 2^54. */
  method Times(a: Fe, b: Fe) returns (r: Fe)
    requires a.Below(W54) && b.Below(W54)
    ensures r.Below(CARRIED) && Cong(r.Num(), a.Num() * b.Num())
  {
    var t0, t1, t2, t3, t4, h := ProductColumns(a, b);
    var r0, r1, r2, r3, r4, k := Reduce(t0, t1, t2, t3, t4);
    r := Fe(r0, r1, r2, r3, r4);
    ghost var x, t := a.Num() * b.Num(), V(t0 as int, t1 as int, t2 as int, t3 as int, t4 as int);
    Folded(x, t, r.Num(), h, k);
  }

  lemma Folded(x: int, t: int, r: int, h: int, k: int)
    requires x == t + P * h && t == r + P * k
    ensures Cong(r, x)
  {
    CongMultiple(x, r, h + k);
  }

  /** curve25519_mul; out may be either operand. */
  method FMul(out: array<u64>, in2: array<u64>, in1: array<u64>)
    requires Below(in2, W54) && Below(in1, W54) && out.Length == 5
    modifies out
    ensures Below(out, CARRIED) && Cong(Val(out), old(Val(in2)) * old(Val(in1)))
  {
    var r := Times(Fe(in2[0], in2[1], in2[2], in2[3], in2[4]), Fe(in1[0], in1[1], in1[2], in1[3], in1[4]));
    out[0], out[1], out[2], out[3], out[4] := r.l0, r.l1, r.l2, r.l3, r.l4;
  }

  /** The columns of square: doubled cross products, folded ones times 38 or 19. */
  method SquareColumns(r0: u64, r1: u64, r2: u64, r3: u64, r4: u64)
    returns (t0: u128, t1: u128, t2: u128, t3: u128, t4: u128)
    requires r0 < W54 && r1 < W54 && r2 < W54 && r3 < W54 && r4 < W54
    ensures t0 <= TMAX && t1 <= TMAX && t2 <= TMAX && t3 <= TMAX && t4 <= TMAX4
    ensures exists h :: V(r0 as int, r1 as int, r2 as int, r3 as int, r4 as int)
                        * V(r0 as int, r1 as int, r2 as int, r3 as int, r4 as int)
                        == V(t0 as int, t1 as int, t2 as int, t3 as int, t4 as int) + P * h
  {
    var d0, d1, d2, d419 := r0 * 2, r1 * 2, r2 * 2 * 19, r4 * 19;
    var d4 := d419 * 2;
    t0 := MulAdd(0, r0, r0, 1); t0 := MulAdd(t0, d4, r1, 38); t0 := MulAdd(t0, d2, r3, 38);
    t1 := MulAdd(0, d0, r1, 2); t1 := MulAdd(t1, d4, r2, 38); t1 := MulAdd(t1, r3 * 19, r3, 19);
    t2 := MulAdd(0, d0, r2, 2); t2 := MulAdd(t2, r1, r1, 1); t2 := MulAdd(t2, d4, r3, 38);
    t3 := MulAdd(0, d0, r3, 2); t3 := MulAdd(t3, d1, r2, 2); t3 := MulAdd(t3, d419, r4, 19);
    t4 := MulAdd(0, d0, r4, 2); t4 := MulAdd(t4, d1, r3, 2); t4 := MulAdd(t4, r2, r2, 1);
    FoldedProduct(r0 as int, r1 as int, r2 as int, r3 as int, r4 as int,
      r0 as int, r1 as int, r2 as int, r3 as int, r4 as int);
    SquareTerms(r0 as int, r1 as int, r2 as int, r3 as int, r4 as int);
  }

  lemma SquareTerms(r0: int, r1: int, r2: int, r3: int, r4: int)
    ensures r0 * r0 + 19 * (r4 * r1) + 19 * (r1 * r4) + 19 * (r2 * r3) + 19 * (r3 * r2)
            == r0 * r0 + r4 * 19 * 2 * r1 + r2 * 2 * 19 * r3
    ensures r0 * r1 + r1 * r0 + 19 * (r4 * r2) + 19 * (r2 * r4) + 19 * (r3 * r3)
            == r0 * 2 * r1 + r4 * 19 * 2 * r2 + r3 * 19 * r3
    ensures r0 * r2 + r2 * r0 + r1 * r1 + 19 * (r4 * r3) + 19 * (r3 * r4)
            == r0 * 2 * r2 + r1 * r1 + r4 * 19 * 2 * r3
    ensures r0 * r3 + r3 * r0 + r1 * r2 + r2 * r1 + 19 * (r4 * r4) == r0 * 2 * r3 + r1 * 2 * r2 + r4 * 19 * r4
    ensures r0 * r4 + r4 * r0 + r3 * r1 + r1 * r3 + r2 * r2 == r0 * 2 * r4 + r1 * 2 * r3 + r2 * r2
  {
  }

  /** curve25519_square, for all limbs below 2^54. */
  method Squared(x: Fe) returns (r: Fe)
    requires x.Below(W54)
    ensures r.Below(CARRIED) && Cong(r.Num(), x.Num() * x.Num())
  {
    var t0, t1, t2, t3, t4 := SquareColumns(x.l0, x.l1, x.l2, x.l3, x.l4);
    ghost var h :| x.Num() * x.Num() == V(t0 as int, t1 as int, t2 as int, t3 as int, t4 as int) + P * h;
    var r0, r1, r2, r3, r4, k := Reduce(t0, t1, t2, t3, t4);
    r := Fe(r0, r1, r2, r3, r4);
    CongMultiple(x.Num() * x.Num(), r.Num(), h + k);
  }

  /** One pass of the loop of square_times: carries are taken from the columns all at once. */
  method SquareStep(x0: u64, x1: u64, x2: u64, x3: u64, x4: u64)
    returns (r0: u64, r1: u64, r2: u64, r3: u64, r4: u64)
    requires x0 < W54 && x1 < W54 && x2 < W54 && x3 < W54 && x4 < W54
    ensures r0 < W52 && r1 < W51 && r2 < W51 && r3 < W51 && r4 < W51
    ensures var x := V(x0 as int, x1 as int, x2 as int, x3 as int, x4 as int);
            Cong(V(r0 as int, r1 as int, r2 as int, r3 as int, r4 as int), x * x)
  {
    var t0, t1, t2, t3, t4 := SquareColumns(x0, x1, x2, x3, x4);
    ghost var x := V(x0 as int, x1 as int, x2 as int, x3 as int, x4 as int);
    ghost var h :| x * x == V(t0 as int, t1 as int, t2 as int, t3 as int, t4 as int) + P * h;
    ghost var k;
    r0, r1, r2, r3, r4, k := ParallelCarry(t0, t1, t2, t3, t4);
    CongMultiple(x * x, V(r0 as int, r1 as int, r2 as int, r3 as int, r4 as int), h + k);
  }

  method ParallelCarry(t0: u128, t1: u128, t2: u128, t3: u128, t4: u128)
    returns (r0: u64, r1: u64, r2: u64, r3: u64, r4: u64, ghost k: int)
    requires t0 <= TMAX && t1 <= TMAX && t2 <= TMAX && t3 <= TMAX && t4 <= TMAX4
    ensures r0 < W52 && r1 < W51 && r2 < W51 && r3 < W51 && r4 < W51
    ensures V(t0 as int, t1 as int, t2 as int, t3 as int, t4 as int)
            == V(r0 as int, r1 as int, r2 as int, r3 as int, r4 as int) + P * k
  {
    var c0, c1, c2, c3, c4;
    r0, c0 := Carry51(t0, 0);
    r1, c1 := Carry51(t1, 0);
    r2, c2 := Carry51(t2, 0);
    r3, c3 := Carry51(t3, 0);
    r4, c4 := Carry51(t4, 0);
    r0, r1, r2, r3, r4, k := Ripple(r0 + c4 * 19, r1 + c0, r2 + c1, r3 + c2, r4 + c3);
    k := k + c4 as int;
  }

  /** A carry through all limbs, the last one coming back to limb 0 times 19. */
  method Ripple(x0: u64, x1: u64, x2: u64, x3: u64, x4: u64)
    returns (r0: u64, r1: u64, r2: u64, r3: u64, r4: u64, ghost k: int)
    requires x1 < 0xffff_ffff_ffff_0000 && x2 < 0xffff_ffff_ffff_0000 && x3 < 0xffff_ffff_ffff_0000
    requires x4 < 0xffff_ffff_ffff_0000
    ensures r0 < W51 + 0x26000 && r1 < W51 && r2 < W51 && r3 < W51 && r4 < W51
    ensures V(x0 as int, x1 as int, x2 as int, x3 as int, x4 as int)
            == V(r0 as int, r1 as int, r2 as int, r3 as int, r4 as int) + P * k
    ensures x0 < W51 + 0x26000 && x1 < W51 && x2 < W51 && x3 < W51 && x4 < W51
            ==> r0 < W51 && 0 <= k <= 1 && 19 * k <= r0 as int
  {
    var c0, c1, c2, c3, c4;
    r0, c0 := Limb51(x0);
    r1, c1 := Limb51(x1 + c0);
    r2, c2 := Limb51(x2 + c1);
    r3, c3 := Limb51(x3 + c2);
    r4, c4 := Limb51(x4 + c3);
    r0 := r0 + c4 * 19;
    k := c4 as int;
  }

  method Limb51(x: u64) returns (lo: u64, c: u64)
    ensures x as int == lo as int + P51 * c as int && lo < W51 && c < 0x2000
  {
    lo, c := x % 0x8_0000_0000_0000, x / 0x8_0000_0000_0000;
  }

  function Exp(z: int, e: nat): int {
    if e == 0 then 1 else z * Exp(z, e - 1)
  }

  lemma {:induction false} ExpAdd(z: int, m: nat, n: nat)
    ensures Exp(z, m + n) == Exp(z, m) * Exp(z, n)
  {
    if m > 0 {
      ExpAdd(z, m - 1, n);
      MulAssoc(z, Exp(z, m - 1), Exp(z, n));
    }
  }

  lemma CongMul(a: int, a': int, b: int, b': int)
    requires Cong(a, a') && Cong(b, b')
    ensures Cong(a * b, a' * b')
  {
    var k := Difference(a, a');
    var l := Difference(b, b');
    assert a * b == a' * b' + P * (k * b' + a' * l + P * k * l) by {
      MulDist(a', b', P * l);
      MulDist(P * k, b', P * l);
      assert (a' + P * k) * (b' + P * l) == a' * (b' + P * l) + P * k * (b' + P * l);
      assert a' * (P * l) == P * (a' * l);
      assert P * k * b' == P * (k * b');
      assert P * k * (P * l) == P * (P * k * l);
    }
    CongMultiple(a * b, a' * b', k * b' + a' * l + P * k * l);
  }

  lemma CongAdd(a: int, a': int, b: int, b': int)
    requires Cong(a, a') && Cong(b, b')
    ensures Cong(a + b, a' + b') && Cong(a - b, a' - b')
  {
    var k := Difference(a, a');
    var l := Difference(b, b');
    CongMultiple(a + b, a' + b', k + l);
    CongMultiple(a - b, a' - b', k - l);
  }

  /** curve25519_square_times: count squarings, so in^(2^count). */
  method FSquareTimes(out: array<u64>, x: array<u64>, count: nat)
    requires Below(x, W54) && out.Length == 5 && count > 0
    modifies out
    ensures Below(out, W52) && Cong(Val(out), Exp(old(Val(x)), Pow(2, count)))
  {
    ghost var z := Val(x);
    var r0, r1, r2, r3, r4 := x[0], x[1], x[2], x[3], x[4];
    var n := count;
    assert Exp(z, 1) == z * Exp(z, 0);
    while n > 0
      invariant n <= count
      invariant r0 < W54 && r1 < W54 && r2 < W54 && r3 < W54 && r4 < W54
      invariant n < count ==> r0 < W52 && r1 < W52 && r2 < W52 && r3 < W52 && r4 < W52
      invariant Cong(V(r0 as int, r1 as int, r2 as int, r3 as int, r4 as int), Exp(z, Pow(2, count - n)))
    {
      ghost var v, e := V(r0 as int, r1 as int, r2 as int, r3 as int, r4 as int), Exp(z, Pow(2, count - n));
      r0, r1, r2, r3, r4 := SquareStep(r0, r1, r2, r3, r4);
      CongMul(v, e, v, e);
      ExpAdd(z, Pow(2, count - n), Pow(2, count - n));
      assert Pow(2, count - (n - 1)) == Pow(2, count - n) + Pow(2, count - n);
      n := n - 1;
    }
    out[0], out[1], out[2], out[3], out[4] := r0, r1, r2, r3, r4;
  }

  /** The value of properly carried limbs is below 2^255. */
  lemma CarriedRange(a: int, b: int, c: int, d: int, e: int)
    requires 0 <= a < P51 && 0 <= b < P51 && 0 <= c < P51 && 0 <= d < P51 && 0 <= e < P51
    ensures 0 <= V(a, b, c, d, e) < P255
  {
  }

  /** The three carries of contract: the canonical residue, offset by 19. */
  method Freeze(x0: u64, x1: u64, x2: u64, x3: u64, x4: u64)
    returns (t0: u64, t1: u64, t2: u64, t3: u64, t4: u64)
    requires x0 < 0x8000_0000_0000_0000 && x1 < 0x8000_0000_0000_0000 && x2 < 0x8000_0000_0000_0000
    requires x3 < 0x8000_0000_0000_0000 && x4 < 0x8000_0000_0000_0000
    ensures t0 < W51 && t1 < W51 && t2 < W51 && t3 < W51 && t4 < W51
    ensures V(t0 as int, t1 as int, t2 as int, t3 as int, t4 as int)
            == V(x0 as int, x1 as int, x2 as int, x3 as int, x4 as int) % P + 19
  {
    ghost var k1, k2, k3;
    t0, t1, t2, t3, t4, k1 := Ripple(x0, x1, x2, x3, x4);
    t0, t1, t2, t3, t4, k2 := Ripple(t0, t1, t2, t3, t4);
    ghost var v := V(t0 as int, t1 as int, t2 as int, t3 as int, t4 as int);
    CarriedRange(t0 as int, t1 as int, t2 as int, t3 as int, t4 as int);
    t0, t1, t2, t3, t4, k3 := Ripple(t0 + 19, t1, t2, t3, t4);
    CarriedRange(t0 as int, t1 as int, t2 as int, t3 as int, t4 as int);
    Canonical(V(x0 as int, x1 as int, x2 as int, x3 as int, x4 as int), v, k1 + k2, k3,
      V(t0 as int, t1 as int, t2 as int, t3 as int, t4 as int));
  }

  lemma Canonical(x: int, v: int, k: int, k3: int, r: int)
    requires x == v + P * k && 0 <= v < P255
    requires v + 19 == r + P * k3 && 0 <= k3 <= 1 && 19 * k3 <= r < P255
    ensures r == x % P + 19
  {
    ModUnique(x, r - 19, k + k3, P);
  }

  /** Adding 2^255 - 19 and dropping bit 255 takes the offset off again. */
  method Unoffset(x0: u64, x1: u64, x2: u64, x3: u64, x4: u64)
    returns (t0: u64, t1: u64, t2: u64, t3: u64, t4: u64)
    requires x0 < W51 && x1 < W51 && x2 < W51 && x3 < W51 && x4 < W51
    requires 19 <= V(x0 as int, x1 as int, x2 as int, x3 as int, x4 as int)
    ensures t0 < W51 && t1 < W51 && t2 < W51 && t3 < W51 && t4 < W51
    ensures V(t0 as int, t1 as int, t2 as int, t3 as int, t4 as int)
            == V(x0 as int, x1 as int, x2 as int, x3 as int, x4 as int) - 19
  {
    var c0, c1, c2, c3, c4;
    t0, c0 := Limb51(x0 + 0x7_ffff_ffff_ffed);
    t1, c1 := Limb51(x1 + 0x7_ffff_ffff_ffff + c0);
    t2, c2 := Limb51(x2 + 0x7_ffff_ffff_ffff + c1);
    t3, c3 := Limb51(x3 + 0x7_ffff_ffff_ffff + c2);
    t4, c4 := Limb51(x4 + 0x7_ffff_ffff_ffff + c3);
    CarriedRange(t0 as int, t1 as int, t2 as int, t3 as int, t4 as int);
    CarriedRange(x0 as int, x1 as int, x2 as int, x3 as int, x4 as int);
    OffsetValue(x0 as int, x1 as int, x2 as int, x3 as int, x4 as int, t0 as int, t1 as int, t2 as int, t3 as int,
      t4 as int, c0 as int, c1 as int, c2 as int, c3 as int, c4 as int);
  }

  lemma OffsetValue(x0: int, x1: int, x2: int, x3: int, x4: int, t0: int, t1: int, t2: int, t3: int, t4: int,
                    c0: int, c1: int, c2: int, c3: int, c4: int)
    requires x0 + 0x7_ffff_ffff_ffed == t0 + P51 * c0
    requires x1 + 0x7_ffff_ffff_ffff + c0 == t1 + P51 * c1
    requires x2 + 0x7_ffff_ffff_ffff + c1 == t2 + P51 * c2
    requires x3 + 0x7_ffff_ffff_ffff + c2 == t3 + P51 * c3
    requires x4 + 0x7_ffff_ffff_ffff + c3 == t4 + P51 * c4
    requires 0 <= V(t0, t1, t2, t3, t4) < P255 && 19 <= V(x0, x1, x2, x3, x4) < P255
    ensures V(t0, t1, t2, t3, t4) == V(x0, x1, x2, x3, x4) - 19
  {
    assert V(t0, t1, t2, t3, t4) + P255 * c4 == V(x0, x1, x2, x3, x4) - 19 + P255;
  }

  method Ungroup51(a: u64, b: u64, c: u64, d: u64, e: u64) returns (f0: u64, f1: u64, f2: u64, f3: u64)
    requires a < W51 && b < W51 && c < W51 && d < W51 && e < W51
    ensures V(a as int, b as int, c as int, d as int, e as int)
            == f0 as int + P64 * f1 as int + P128 * f2 as int + P192 * f3 as int
  {
    f0 := a + b % 0x2000 * 0x8_0000_0000_0000;
    f1 := b / 0x2000 + c % 0x400_0000 * 0x40_0000_0000;
    f2 := c / 0x400_0000 + d % 0x80_0000_0000 * 0x200_0000;
    f3 := d / 0x80_0000_0000 + e * 0x1000;
  }

  /** curve25519_contract: the 32 bytes of the residue in [0, p), for all limbs below 2^63. */
  method Contract(out: array<u8>, x: array<u64>)
    requires out.Length == 32 && Below(x, 0x8000_0000_0000_0000)
    modifies out
    ensures LeVal(out[..]) == Val(x) % P
  {
    var t0, t1, t2, t3, t4 := Freeze(x[0], x[1], x[2], x[3], x[4]);
    t0, t1, t2, t3, t4 := Unoffset(t0, t1, t2, t3, t4);
    var f0, f1, f2, f3 := Ungroup51(t0, t1, t2, t3, t4);
    StoreFour(out, f0, f1, f2, f3);
  }

  /** curve25519_expand: 32 bytes as limbs, bit 255 dropped. */
  method Expand(out: array<u64>, input: seq<u8>)
    requires out.Length == 5 && |input| == 32
    modifies out
    ensures Below(out, W51) && Val(out) == LeVal(input) % P255
  {
    var x0, x1, x2, x3 := LoadFourWords(input);
    out[0], out[1], out[2], out[3], out[4] := Regroup51(x0, x1, x2, x3);
    Drop255(LeVal(input), Val(out), x3 as int / 0x8000_0000_0000_0000);
  }

  lemma Drop255(x: int, r: int, top: int)
    requires 0 <= r < P255 && x == r + P255 * top
    ensures r == x % P255
  {
    ModUnique(x, r, top, P255);
  }

  method Regroup51(x0: u64, x1: u64, x2: u64, x3: u64) returns (a: u64, b: u64, c: u64, d: u64, e: u64)
    ensures a < W51 && b < W51 && c < W51 && d < W51 && e < W51
    ensures x0 as int + P64 * x1 as int + P128 * x2 as int + P192 * x3 as int
            == V(a as int, b as int, c as int, d as int, e as int) + P255 * (x3 as int / 0x8000_0000_0000_0000)
  {
    a := x0 % 0x8_0000_0000_0000;
    b := x0 / 0x8_0000_0000_0000 + x1 % 0x40_0000_0000 * 0x2000;
    c := x1 / 0x40_0000_0000 + x2 % 0x200_0000 * 0x400_0000;
    d := x2 / 0x200_0000 + x3 % 0x1000 * 0x80_0000_0000;
    e := x3 / 0x1000 % 0x8_0000_0000_0000;
  }

  /** Encoding what was decoded yields (v mod 2^255) mod p. */
  method Reencode(out: array<u8>, input: seq<u8>)
    requires out.Length == 32 && |input| == 32
    modifies out
    ensures LeVal(out[..]) == LeVal(input) % P255 % P
  {
    var x := new u64[5];
    Expand(x, input);
    Contract(out, x);
  }
}
