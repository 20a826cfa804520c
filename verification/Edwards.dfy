/** Point formulas of ed25519-donna-impl-base.h on extended coordinates: no limb ever reaches
    2^54, and the results satisfy the addition law of -x^2 + y^2 = 1 + d x^2 y^2. */
module Edwards {
  import opened Words
  import opened Field25519
  import opened CurveLaw

  // ge25519_ecd and ge25519_ec2d
  const ECD: Fe := Fe(0x00034dca135978a3, 0x0001a8283b156ebd, 0x0005e7a26001c029, 0x000739c663a03cbb,
                      0x00052036cee2b6ff)
  const EC2D: Fe := Fe(0x00069b9426b2f159, 0x00035050762add7a, 0x0003cf44c0038052, 0x0006738cc7407977,
                       0x0002406d9dc56dff)

  /** The constants are d = -121665/121666 and 2d. */
  lemma CurveConstants()
    ensures ECD.Below(W51) && Cong(121666 * ECD.Num(), -121665) && Cong(ECD.Num(), D())
    ensures EC2D.Below(W51) && Cong(EC2D.Num(), 2 * D())
  {
    CongMod(121666 * ECD.Num(), -121665);
    CongMod(EC2D.Num(), 2 * ECD.Num());
    DUnique(ECD.Num());
    CongMul(2, 2, ECD.Num(), D());
  }

  // What one carry pass leaves; mul and square stay below this too.
  const SMALL: u64 := W51 + 0x26000

  /** a stands for u modulo p. */
  ghost predicate Stands(a: Fe, u: int) {
    Cong(a.Num(), u)
  }

  /** curve25519_add and curve25519_add_after_basic */
  method Plus(a: Fe, b: Fe, ghost m: u64, ghost n: u64, ghost u: int, ghost v: int) returns (r: Fe)
    requires m <= W54 && n <= W54 && a.Below(m) && b.Below(n) && Stands(a, u) && Stands(b, v)
    ensures r.Below(m + n) && Stands(r, u + v)
  {
    r := Fe(a.l0 + b.l0, a.l1 + b.l1, a.l2 + b.l2, a.l3 + b.l3, a.l4 + b.l4);
    CongAdd(a.Num(), u, b.Num(), v);
  }

  /** curve25519_sub: 2p is added so that no limb goes below zero. */
  method Minus(a: Fe, b: Fe, ghost m: u64, ghost u: int, ghost v: int) returns (r: Fe)
    requires m <= W54 && a.Below(m) && b.Below(0xf_ffff_ffff_ffda) && Stands(a, u) && Stands(b, v)
    ensures r.Below(m + W52) && Stands(r, u - v)
  {
    r := Fe(a.l0 + 0xf_ffff_ffff_ffda - b.l0, a.l1 + 0xf_ffff_ffff_fffe - b.l1, a.l2 + 0xf_ffff_ffff_fffe - b.l2,
            a.l3 + 0xf_ffff_ffff_fffe - b.l3, a.l4 + 0xf_ffff_ffff_fffe - b.l4);
    CongMultiple(r.Num(), a.Num() - b.Num(), 2);
    CongAdd(a.Num(), u, b.Num(), v);
  }

  /** curve25519_sub_after_basic: 4p is added. */
  method MinusAfterBasic(a: Fe, b: Fe, ghost m: u64, ghost u: int, ghost v: int) returns (r: Fe)
    requires m <= W54 && a.Below(m) && b.Below(0x1f_ffff_ffff_ffb4) && Stands(a, u) && Stands(b, v)
    ensures r.Below(m + 2 * W52) && Stands(r, u - v)
  {
    r := Fe(a.l0 + 0x1f_ffff_ffff_ffb4 - b.l0, a.l1 + 0x1f_ffff_ffff_fffc - b.l1, a.l2 + 0x1f_ffff_ffff_fffc - b.l2,
            a.l3 + 0x1f_ffff_ffff_fffc - b.l3, a.l4 + 0x1f_ffff_ffff_fffc - b.l4);
    CongMultiple(r.Num(), a.Num() - b.Num(), 4);
    CongAdd(a.Num(), u, b.Num(), v);
  }

  method CarryPass(a: Fe, ghost u: int) returns (r: Fe)
    requires a.Below(0x80_0000_0000_0000) && Stands(a, u)
    ensures r.Below(SMALL) && Stands(r, u)
  {
    var r0, r1, r2, r3, r4, k := Ripple(a.l0, a.l1, a.l2, a.l3, a.l4);
    r := Fe(r0, r1, r2, r3, r4);
    CongMultiple(a.Num(), r.Num(), k);
  }

  /** curve25519_add_reduce: one carry pass after the addition. */
  method PlusReduce(a: Fe, b: Fe, ghost u: int, ghost v: int) returns (r: Fe)
    requires a.Below(W54) && b.Below(W54) && Stands(a, u) && Stands(b, v)
    ensures r.Below(SMALL) && Stands(r, u + v)
  {
    var s := Plus(a, b, W54, W54, u, v);
    r := CarryPass(s, u + v);
  }

  /** curve25519_sub_reduce: 4p is added, and one carry pass follows. */
  method MinusReduce(a: Fe, b: Fe, ghost u: int, ghost v: int) returns (r: Fe)
    requires a.Below(W54) && b.Below(0x1f_ffff_ffff_ffb4) && Stands(a, u) && Stands(b, v)
    ensures r.Below(SMALL) && Stands(r, u - v)
  {
    var d := MinusAfterBasic(a, b, W54, u, v);
    r := CarryPass(d, u - v);
  }

  /** curve25519_neg */
  method Negate(a: Fe, ghost u: int) returns (r: Fe)
    requires a.Below(0xf_ffff_ffff_ffda) && Stands(a, u)
    ensures r.Below(SMALL) && Stands(r, -u)
  {
    var zero := Fe(0, 0, 0, 0, 0);
    assert zero.Num() == 0;
    var d := Minus(zero, a, 1, 0, u);
    r := CarryPass(d, -u);
  }

  /** curve25519_mul and curve25519_square */
  method Product(a: Fe, b: Fe, ghost u: int, ghost v: int) returns (r: Fe)
    requires a.Below(W54) && b.Below(W54) && Stands(a, u) && Stands(b, v)
    ensures r.Below(CARRIED) && Stands(r, u * v)
  {
    r := Times(a, b);
    CongMul(a.Num(), u, b.Num(), v);
  }

  method Square(a: Fe, ghost u: int) returns (r: Fe)
    requires a.Below(W54) && Stands(a, u)
    ensures r.Below(CARRIED) && Stands(r, u * u)
  {
    r := Squared(a);
    CongMul(a.Num(), u, a.Num(), u);
  }

  /** ge25519 and ge25519_p1p1 */
  datatype Ge = Ge(x: Fe, y: Fe, z: Fe, t: Fe) {
    ghost predicate Below(n: u64) {
      x.Below(n) && y.Below(n) && z.Below(n) && t.Below(n)
    }

    /** The coordinates stand for a, b, c and d. */
    ghost predicate Is(a: int, b: int, c: int, d: int) {
      Stands(x, a) && Stands(y, b) && Stands(z, c) && Stands(t, d)
    }

    /** The same without t, which may be anything. */
    ghost predicate IsPartial(a: int, b: int, c: int, n: u64) {
      && x.Below(n) && y.Below(n) && z.Below(n)
      && Stands(x, a) && Stands(y, b) && Stands(z, c)
    }
  }

  /** ge25519_p1p1_to_full */
  method ToFull(p: Ge, ghost e: int, ghost h: int, ghost g: int, ghost f: int) returns (r: Ge)
    requires p.Below(W54) && p.Is(e, h, g, f)
    ensures r.Below(CARRIED) && r.Is(e * f, h * g, g * f, e * h)
  {
    var x := Product(p.x, p.t, e, f);
    var y := Product(p.y, p.z, h, g);
    var z := Product(p.z, p.t, g, f);
    var t := Product(p.x, p.y, e, h);
    r := Ge(x, y, z, t);
  }

  /** ge25519_p1p1_to_partial: t is left as it was. */
  method ToPartial(stale: Ge, p: Ge, ghost e: int, ghost h: int, ghost g: int, ghost f: int) returns (r: Ge)
    requires p.Below(W54) && p.Is(e, h, g, f)
    ensures r.IsPartial(e * f, h * g, g * f, CARRIED) && r.t == stale.t
  {
    var x := Product(p.x, p.t, e, f);
    var y := Product(p.y, p.z, h, g);
    var z := Product(p.z, p.t, g, f);
    r := Ge(x, y, z, stale.t);
  }

  lemma SumTerms(x1: int, y1: int, x2: int, y2: int)
    ensures (y1 + x1) * (y2 + x2) - (y1 - x1) * (y2 - x2) == 2 * (x1 * y2 + y1 * x2)
    ensures (y1 + x1) * (y2 + x2) + (y1 - x1) * (y2 - x2) == 2 * (y1 * y2 + x1 * x2)
  {
    assert (y1 + x1) * (y2 + x2) == y1 * y2 + y1 * x2 + x1 * y2 + x1 * x2;
    assert (y1 - x1) * (y2 - x2) == y1 * y2 - y1 * x2 - x1 * y2 + x1 * x2;
  }

  /** The first two completed coordinates of a sum, from a point with x1 and y1 and the numbers
      y2 - x2 and y2 + x2. */
  method CompleteXY(px: Fe, py: Fe, m: Fe, w: Fe, ghost x1: int, ghost y1: int, ghost x2: int, ghost y2: int)
    returns (x: Fe, y: Fe)
    requires px.Below(SMALL) && py.Below(SMALL) && Stands(px, x1) && Stands(py, y1)
    requires m.Below(W54) && w.Below(W54) && Stands(m, y2 - x2) && Stands(w, y2 + x2)
    ensures x.Below(W54) && y.Below(W54)
    ensures Stands(x, 2 * (x1 * y2 + y1 * x2)) && Stands(y, 2 * (y1 * y2 + x1 * x2))
  {
    var a := Minus(py, px, SMALL, y1, x1);
    var b := Plus(py, px, SMALL, SMALL, y1, x1);
    var am := Product(a, m, y1 - x1, y2 - x2);
    var bw := Product(b, w, y1 + x1, y2 + x2);
    x := Minus(bw, am, CARRIED, (y1 + x1) * (y2 + x2), (y1 - x1) * (y2 - x2));
    y := Plus(bw, am, CARRIED, CARRIED, (y1 + x1) * (y2 + x2), (y1 - x1) * (y2 - x2));
    SumTerms(x1, y1, x2, y2);
  }

  /** The last two: 2(z12 + k) and 2(z12 - k), from z12 and 2k. */
  method CompleteZT(d: Fe, c: Fe, ghost z12: int, ghost k: int) returns (z: Fe, t: Fe)
    requires d.Below(SMALL) && c.Below(CARRIED) && Stands(d, z12) && Stands(c, 2 * k)
    ensures z.Below(W54) && t.Below(W54) && Stands(z, 2 * (z12 + k)) && Stands(t, 2 * (z12 - k))
  {
    var dd := Plus(d, d, SMALL, SMALL, z12, z12);
    z := Plus(dd, c, 2 * SMALL, CARRIED, z12 + z12, 2 * k);
    t := MinusAfterBasic(dd, c, 2 * SMALL, z12 + z12, 2 * k);
  }

  /** The completed form of the sum of (x1, y1, z1, t1) and (x2, y2, z2, t2): 2(x1*y2 + y1*x2),
      2(y1*y2 + x1*x2), 2(z1*z2 + d*t1*t2) and 2(z1*z2 - d*t1*t2). */
  ghost predicate IsCompleted(r: Ge, x1: int, y1: int, z1: int, t1: int, x2: int, y2: int, z2: int, t2: int) {
    r.Is(2 * (x1 * y2 + y1 * x2), 2 * (y1 * y2 + x1 * x2), 2 * (z1 * z2 + D() * (t1 * t2)),
         2 * (z1 * z2 - D() * (t1 * t2)))
  }

  /** ge25519_add_p1p1 */
  method AddP1P1(p: Ge, q: Ge, ghost x1: int, ghost y1: int, ghost z1: int, ghost t1: int,
                 ghost x2: int, ghost y2: int, ghost z2: int, ghost t2: int)
    returns (r: Ge)
    requires p.Below(SMALL) && q.Below(SMALL) && p.Is(x1, y1, z1, t1) && q.Is(x2, y2, z2, t2)
    ensures r.Below(W54) && IsCompleted(r, x1, y1, z1, t1, x2, y2, z2, t2)
  {
    var x, y := AddXY(p.x, p.y, q.x, q.y, x1, y1, x2, y2);
    var c := TwiceD(p.t, q.t, t1, t2);
    var d := Product(p.z, q.z, z1, z2);
    var z, t := CompleteZT(d, c, z1 * z2, D() * (t1 * t2));
    r := Ge(x, y, z, t);
  }

  method AddXY(px: Fe, py: Fe, qx: Fe, qy: Fe, ghost x1: int, ghost y1: int, ghost x2: int, ghost y2: int)
    returns (x: Fe, y: Fe)
    requires px.Below(SMALL) && py.Below(SMALL) && qx.Below(SMALL) && qy.Below(SMALL)
    requires Stands(px, x1) && Stands(py, y1) && Stands(qx, x2) && Stands(qy, y2)
    ensures x.Below(W54) && y.Below(W54)
    ensures Stands(x, 2 * (x1 * y2 + y1 * x2)) && Stands(y, 2 * (y1 * y2 + x1 * x2))
  {
    var m := Minus(qy, qx, SMALL, y2, x2);
    var w := Plus(qy, qx, SMALL, SMALL, y2, x2);
    x, y := CompleteXY(px, py, m, w, x1, y1, x2, y2);
  }

  /** t1 * t2 * 2d */
  method TwiceD(a: Fe, b: Fe, ghost t1: int, ghost t2: int) returns (c: Fe)
    requires a.Below(SMALL) && b.Below(SMALL) && Stands(a, t1) && Stands(b, t2)
    ensures c.Below(CARRIED) && Stands(c, 2 * (D() * (t1 * t2)))
  {
    CurveConstants();
    c := Product(a, b, t1, t2);
    c := Product(c, EC2D, t1 * t2, 2 * D());
    assert t1 * t2 * (2 * D()) == 2 * (D() * (t1 * t2));
  }

  /** ge25519_add: the sum of any two points in extended coordinates. */
  method Add(p: Ge, q: Ge, ghost x1: int, ghost y1: int, ghost z1: int, ghost t1: int,
             ghost x2: int, ghost y2: int, ghost z2: int, ghost t2: int)
    returns (r: Ge, ghost x3: int, ghost y3: int, ghost z3: int, ghost t3: int)
    requires p.Below(SMALL) && q.Below(SMALL) && p.Is(x1, y1, z1, t1) && q.Is(x2, y2, z2, t2)
    requires Cong(t1 * z1, x1 * y1) && Cong(t2 * z2, x2 * y2)
    ensures r.Below(CARRIED) && r.Is(x3, y3, z3, t3) && IsSum(4, x1, y1, z1, x2, y2, z2, x3, y3, z3, t3)
    ensures Extended(x1, y1, z1, t1) && Extended(x2, y2, z2, t2) ==> Extended(x3, y3, z3, t3)
  {
    var c := AddP1P1(p, q, x1, y1, z1, t1, x2, y2, z2, t2);
    r, x3, y3, z3, t3 := Complete(c, x1, y1, z1, t1, x2, y2, z2, t2);
  }

  /** The sum on affine points: with i1 = 1/z1, i2 = 1/z2 and the inverses u and v of the denominators, the result
      has z3 = 1/i3 and the coordinates of the affine law. */
  method AddAffine(p: Ge, q: Ge, ghost x1: int, ghost y1: int, ghost z1: int, ghost t1: int, ghost i1: int,
                   ghost x2: int, ghost y2: int, ghost z2: int, ghost t2: int, ghost i2: int, ghost u: int,
                   ghost v: int)
    returns (r: Ge, ghost x3: int, ghost y3: int, ghost z3: int, ghost t3: int, ghost i3: int)
    requires p.Below(SMALL) && q.Below(SMALL) && p.Is(x1, y1, z1, t1) && q.Is(x2, y2, z2, t2)
    requires Cong(t1 * z1, x1 * y1) && Cong(t2 * z2, x2 * y2) && Inverse(z1, i1) && Inverse(z2, i2)
    requires var kappa := D() * (x1 * i1 * (y1 * i1) * (x2 * i2 * (y2 * i2)));
             Inverse(1 + kappa, u) && Inverse(1 - kappa, v)
    ensures r.Below(CARRIED) && r.Is(x3, y3, z3, t3) && Inverse(z3, i3)
    ensures Cong(x3 * i3, (x1 * i1 * (y2 * i2) + y1 * i1 * (x2 * i2)) * u)
    ensures Cong(y3 * i3, (y1 * i1 * (y2 * i2) + x1 * i1 * (x2 * i2)) * v)
  {
    r, x3, y3, z3, t3 := Add(p, q, x1, y1, z1, t1, x2, y2, z2, t2);
    ghost var quarter := FourInverse();
    i3 := AffineSum(4, quarter, x1, y1, z1, i1, x2, y2, z2, i2, x3, y3, z3, t3, u, v);
  }

  /** What p1p1_to_full makes of a completed sum is the sum. */
  method Complete(c: Ge, ghost x1: int, ghost y1: int, ghost z1: int, ghost t1: int,
                  ghost x2: int, ghost y2: int, ghost z2: int, ghost t2: int)
    returns (r: Ge, ghost x3: int, ghost y3: int, ghost z3: int, ghost t3: int)
    requires c.Below(W54) && IsCompleted(c, x1, y1, z1, t1, x2, y2, z2, t2)
    requires Cong(t1 * z1, x1 * y1) && Cong(t2 * z2, x2 * y2)
    ensures r.Below(CARRIED) && r.Is(x3, y3, z3, t3) && IsSum(4, x1, y1, z1, x2, y2, z2, x3, y3, z3, t3)
    ensures Extended(x1, y1, z1, t1) && Extended(x2, y2, z2, t2) ==> Extended(x3, y3, z3, t3)
  {
    ghost var e, h := 2 * (x1 * y2 + y1 * x2), 2 * (y1 * y2 + x1 * x2);
    ghost var g, f := 2 * (z1 * z2 + D() * (t1 * t2)), 2 * (z1 * z2 - D() * (t1 * t2));
    r := ToFull(c, e, h, g, f);
    x3, y3, z3, t3 := e * f, h * g, g * f, e * h;
    AdditionLaw(x1, y1, z1, t1, x2, y2, z2, t2, e, h, g, f, x3, y3, z3, t3);
    if Extended(x1, y1, z1, t1) && Extended(x2, y2, z2, t2) {
      SumOnCurve(x1, y1, z1, t1, x2, y2, z2, t2);
    }
  }

  /** ge25519_double, for a point on the curve: the sum of the point with itself. What t holds does not matter. */
  method Double(p: Ge, ghost x1: int, ghost y1: int, ghost z1: int, ghost t1: int)
    returns (r: Ge, ghost x3: int, ghost y3: int, ghost z3: int, ghost t3: int)
    requires p.IsPartial(x1, y1, z1, SMALL) && OnCurve(x1, y1, z1)
    ensures r.Below(CARRIED) && r.Is(x3, y3, z3, t3) && IsSum(1, x1, y1, z1, x1, y1, z1, x3, y3, z3, t3)
    ensures Extended(x1, y1, z1, t1) ==> Extended(x3, y3, z3, t3)
  {
    ghost var e, h := 2 * (x1 * y1), y1 * y1 + x1 * x1;
    ghost var g, f := y1 * y1 - x1 * x1, 2 * (z1 * z1) - (y1 * y1 - x1 * x1);
    var c := DoubleP1P1(p, x1, y1, z1);
    r := ToFull(c, e, h, g, f);
    x3, y3, z3, t3 := DoubledCoordinates(x1, y1, z1, t1);
  }

  /** ge25519_double_partial: x, y and z as ge25519_double gives them, and the old t. */
  method DoublePartial(p: Ge, ghost x1: int, ghost y1: int, ghost z1: int, ghost t1: int)
    returns (r: Ge, ghost x3: int, ghost y3: int, ghost z3: int, ghost t3: int)
    requires p.IsPartial(x1, y1, z1, SMALL) && OnCurve(x1, y1, z1)
    ensures r.IsPartial(x3, y3, z3, CARRIED) && r.t == p.t && IsSum(1, x1, y1, z1, x1, y1, z1, x3, y3, z3, t3)
    ensures Extended(x1, y1, z1, t1) ==> Extended(x3, y3, z3, t3)
  {
    ghost var e, h := 2 * (x1 * y1), y1 * y1 + x1 * x1;
    ghost var g, f := y1 * y1 - x1 * x1, 2 * (z1 * z1) - (y1 * y1 - x1 * x1);
    var c := DoubleP1P1(p, x1, y1, z1);
    r := ToPartial(p, c, e, h, g, f);
    x3, y3, z3, t3 := DoubledCoordinates(x1, y1, z1, t1);
  }

  lemma DoubledCoordinates(x1: int, y1: int, z1: int, t1: int) returns (x3: int, y3: int, z3: int, t3: int)
    requires OnCurve(x1, y1, z1)
    ensures var e, h, g, f := 2 * (x1 * y1), y1 * y1 + x1 * x1, y1 * y1 - x1 * x1, 2 * (z1 * z1) - (y1 * y1 - x1 * x1);
            x3 == e * f && y3 == h * g && z3 == g * f && t3 == e * h
    ensures IsSum(1, x1, y1, z1, x1, y1, z1, x3, y3, z3, t3)
    ensures Extended(x1, y1, z1, t1) ==> Extended(x3, y3, z3, t3)
  {
    var e, h := 2 * (x1 * y1), y1 * y1 + x1 * x1;
    var g, f := y1 * y1 - x1 * x1, 2 * (z1 * z1) - (y1 * y1 - x1 * x1);
    x3, y3, z3, t3 := e * f, h * g, g * f, e * h;
    DoublingLaw(x1, y1, z1, e, h, g, f, x3, y3, z3, t3);
    if Extended(x1, y1, z1, t1) {
      DoubleOnCurve(x1, y1, z1, t1);
    }
  }

  /** Extended coordinates. */
  datatype Quad = Quad(x: int, y: int, z: int, t: int)

  /** b is the sum of a with itself, and on the curve. */
  ghost predicate Doubles(a: Quad, b: Quad) {
    IsSum(1, a.x, a.y, a.z, a.x, a.y, a.z, b.x, b.y, b.z, b.t) && Extended(b.x, b.y, b.z, b.t)
  }

  /** The four doublings of ge25519_scalarmult_base_niels: the first three leave t stale, the last one gives
      the t that the additions after it need. */
  method DoubleFourTimes(p: Ge, ghost a: Quad)
    returns (r: Ge, ghost b: Quad, ghost c: Quad, ghost d: Quad, ghost e: Quad)
    requires p.IsPartial(a.x, a.y, a.z, SMALL) && Extended(a.x, a.y, a.z, a.t)
    ensures Doubles(a, b) && Doubles(b, c) && Doubles(c, d) && Doubles(d, e)
    ensures r.Below(SMALL) && r.Is(e.x, e.y, e.z, e.t)
  {
    r, b := DoubleStale(p, a);
    r, c := DoubleStale(r, b);
    r, d := DoubleStale(r, c);
    ExtendedOnCurve(d.x, d.y, d.z, d.t);
    ghost var x, y, z, t;
    r, x, y, z, t := Double(r, d.x, d.y, d.z, d.t);
    e := Quad(x, y, z, t);
  }

  method DoubleStale(p: Ge, ghost a: Quad) returns (r: Ge, ghost b: Quad)
    requires p.IsPartial(a.x, a.y, a.z, SMALL) && Extended(a.x, a.y, a.z, a.t)
    ensures r.IsPartial(b.x, b.y, b.z, SMALL) && r.t == p.t && Doubles(a, b)
  {
    ExtendedOnCurve(a.x, a.y, a.z, a.t);
    ghost var x, y, z, t;
    r, x, y, z, t := DoublePartial(p, a.x, a.y, a.z, a.t);
    b := Quad(x, y, z, t);
  }

  /** ge25519_double_p1p1, which does not read t. */
  method DoubleP1P1(p: Ge, ghost x1: int, ghost y1: int, ghost z1: int) returns (r: Ge)
    requires p.IsPartial(x1, y1, z1, SMALL)
    ensures r.Below(W54)
    ensures r.Is(2 * (x1 * y1), y1 * y1 + x1 * x1, y1 * y1 - x1 * x1, 2 * (z1 * z1) - (y1 * y1 - x1 * x1))
  {
    var x, y, z := DoubleXYZ(p.x, p.y, x1, y1);
    var t := DoubleT(p.z, z, z1, y1 * y1 - x1 * x1);
    r := Ge(x, y, z, t);
  }

  method DoubleXYZ(px: Fe, py: Fe, ghost x1: int, ghost y1: int) returns (x: Fe, y: Fe, z: Fe)
    requires px.Below(SMALL) && py.Below(SMALL) && Stands(px, x1) && Stands(py, y1)
    ensures x.Below(W54) && y.Below(W54) && z.Below(CARRIED + W52)
    ensures Stands(x, 2 * (x1 * y1)) && Stands(y, y1 * y1 + x1 * x1) && Stands(z, y1 * y1 - x1 * x1)
  {
    var a := Square(px, x1);
    var b := Square(py, y1);
    y := Plus(b, a, CARRIED, CARRIED, y1 * y1, x1 * x1);
    z := Minus(b, a, CARRIED, y1 * y1, x1 * x1);
    x := DoubleX(px, py, y, x1, y1);
  }

  method DoubleX(px: Fe, py: Fe, y: Fe, ghost x1: int, ghost y1: int) returns (x: Fe)
    requires px.Below(SMALL) && py.Below(SMALL) && Stands(px, x1) && Stands(py, y1)
    requires y.Below(CARRIED + CARRIED) && Stands(y, y1 * y1 + x1 * x1)
    ensures x.Below(W54) && Stands(x, 2 * (x1 * y1))
  {
    var s := Plus(px, py, SMALL, SMALL, x1, y1);
    var ss := Square(s, x1 + y1);
    x := MinusAfterBasic(ss, y, CARRIED, (x1 + y1) * (x1 + y1), y1 * y1 + x1 * x1);
    SquareOfSum(x1, y1);
  }

  method DoubleT(pz: Fe, z: Fe, ghost z1: int, ghost u: int) returns (t: Fe)
    requires pz.Below(SMALL) && Stands(pz, z1) && z.Below(CARRIED + W52) && Stands(z, u)
    ensures t.Below(W54) && Stands(t, 2 * (z1 * z1) - u)
  {
    var c := Square(pz, z1);
    var cc := PlusReduce(c, c, z1 * z1, z1 * z1);
    t := MinusAfterBasic(cc, z, SMALL, z1 * z1 + z1 * z1, u);
  }
}
