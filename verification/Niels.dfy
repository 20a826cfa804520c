/** Additions of tabulated points (ed25519-donna-impl-base.h). A table entry holds y - x, y + x, z and
    2dt of its point, so that a point and its negative share an entry. */
module Niels {
  import opened Words
  import opened Field25519
  import opened CurveLaw
  import opened Edwards

  const W53: u64 := 0x20_0000_0000_0000

  /** ge25519_pniels; a ge25519_niels is one with z = 1. */
  datatype Entry = Entry(ysubx: Fe, xaddy: Fe, z: Fe, t2d: Fe) {
    ghost predicate Below(n: u64) {
      ysubx.Below(n) && xaddy.Below(n) && z.Below(n) && t2d.Below(n)
    }

    /** The entry of the point (x, y, z, t). */
    ghost predicate Of(x: int, y: int, z: int, t: int) {
      Stands(ysubx, y - x) && Stands(xaddy, y + x) && Stands(this.z, z) && Stands(t2d, 2 * (D() * t))
    }
  }

  /** ge25519_full_to_pniels */
  method FromFull(p: Ge, ghost x: int, ghost y: int, ghost z: int, ghost t: int) returns (n: Entry)
    requires p.Below(SMALL) && p.Is(x, y, z, t)
    ensures n.Below(W53) && n.Of(x, y, z, t)
  {
    var ysubx := Minus(p.y, p.x, SMALL, y, x);
    var xaddy := Plus(p.y, p.x, SMALL, SMALL, y, x);
    CurveConstants();
    var t2d := Product(p.t, EC2D, t, 2 * D());
    n := Entry(ysubx, xaddy, p.z, t2d);
    assert t * (2 * D()) == 2 * (D() * t);
  }

  lemma SignedTerm(t1: int, t2: int)
    ensures t1 * (2 * (D() * t2)) == 2 * (D() * (t1 * t2)) && D() * (t1 * -t2) == -(D() * (t1 * t2))
  {
    assert t1 * -t2 == -(t1 * t2);
  }

  /** The last two completed coordinates, from 2z1*z2 after add_reduce: z1*z2 + k and z1*z2 - k, twice,
      exchanged by the sign. */
  method SignedZT(zz: Fe, c: Fe, negative: bool, ghost z12: int, ghost k: int) returns (z: Fe, t: Fe)
    requires zz.Below(SMALL) && c.Below(CARRIED) && Stands(zz, 2 * z12) && Stands(c, 2 * k)
    ensures z.Below(W54) && t.Below(W54)
    ensures var s := if negative then -k else k; Stands(z, 2 * (z12 + s)) && Stands(t, 2 * (z12 - s))
  {
    var sum := Plus(zz, c, SMALL, CARRIED, 2 * z12, 2 * k);
    var difference := Minus(zz, c, SMALL, 2 * z12, 2 * k);
    if negative {
      return difference, sum;
    }
    return sum, difference;
  }

  /** p plus the point of the entry, or minus it. */
  method AddSigned(p: Ge, q: Entry, zz: Fe, negative: bool, ghost x1: int, ghost y1: int, ghost z1: int, ghost t1: int,
                   ghost x2: int, ghost y2: int, ghost z2: int, ghost t2: int)
    returns (r: Ge)
    requires p.Below(SMALL) && p.Is(x1, y1, z1, t1) && q.Below(W53) && q.Of(x2, y2, z2, t2)
    requires zz.Below(SMALL) && Stands(zz, 2 * (z1 * z2))
    ensures r.Below(W54)
    ensures IsCompleted(r, x1, y1, z1, t1, if negative then -x2 else x2, y2, z2, if negative then -t2 else t2)
  {
    var x, y := SignedXY(p.x, p.y, q.ysubx, q.xaddy, negative, x1, y1, x2, y2);
    var c := EntryTerm(p.t, q.t2d, t1, t2);
    var z, t := SignedZT(zz, c, negative, z1 * z2, D() * (t1 * t2));
    r := Ge(x, y, z, t);
    SignedTerm(t1, t2);
  }

  method SignedXY(px: Fe, py: Fe, ysubx: Fe, xaddy: Fe, negative: bool, ghost x1: int, ghost y1: int, ghost x2: int,
                  ghost y2: int)
    returns (x: Fe, y: Fe)
    requires px.Below(SMALL) && py.Below(SMALL) && Stands(px, x1) && Stands(py, y1)
    requires ysubx.Below(W53) && xaddy.Below(W53) && Stands(ysubx, y2 - x2) && Stands(xaddy, y2 + x2)
    ensures x.Below(W54) && y.Below(W54)
    ensures var s := if negative then -x2 else x2;
            Stands(x, 2 * (x1 * y2 + y1 * s)) && Stands(y, 2 * (y1 * y2 + x1 * s))
  {
    if negative {
      x, y := CompleteXY(px, py, xaddy, ysubx, x1, y1, -x2, y2);
    } else {
      x, y := CompleteXY(px, py, ysubx, xaddy, x1, y1, x2, y2);
    }
  }

  /** t1 * t2d */
  method EntryTerm(t: Fe, t2d: Fe, ghost t1: int, ghost t2: int) returns (c: Fe)
    requires t.Below(SMALL) && t2d.Below(W53) && Stands(t, t1) && Stands(t2d, 2 * (D() * t2))
    ensures c.Below(CARRIED) && Stands(c, 2 * (D() * (t1 * t2)))
  {
    c := Product(t, t2d, t1, 2 * (D() * t2));
    SignedTerm(t1, t2);
  }

  /** ge25519_pnielsadd_p1p1 */
  method PnielsAddP1P1(p: Ge, q: Entry, negative: bool, ghost x1: int, ghost y1: int, ghost z1: int, ghost t1: int,
                       ghost x2: int, ghost y2: int, ghost z2: int, ghost t2: int)
    returns (r: Ge)
    requires p.Below(SMALL) && p.Is(x1, y1, z1, t1) && q.Below(W53) && q.Of(x2, y2, z2, t2)
    ensures r.Below(W54)
    ensures IsCompleted(r, x1, y1, z1, t1, if negative then -x2 else x2, y2, z2, if negative then -t2 else t2)
  {
    var t := Product(p.z, q.z, z1, z2);
    var zz := PlusReduce(t, t, z1 * z2, z1 * z2);
    r := AddSigned(p, q, zz, negative, x1, y1, z1, t1, x2, y2, z2, t2);
  }

  /** ge25519_nielsadd2_p1p1 */
  method NielsAdd2P1P1(p: Ge, q: Entry, negative: bool, ghost x1: int, ghost y1: int, ghost z1: int, ghost t1: int,
                       ghost x2: int, ghost y2: int, ghost z2: int, ghost t2: int)
    returns (r: Ge)
    requires p.Below(SMALL) && p.Is(x1, y1, z1, t1) && q.Below(W53) && q.Of(x2, y2, z2, t2) && Cong(z2, 1)
    ensures r.Below(W54)
    ensures IsCompleted(r, x1, y1, z1, t1, if negative then -x2 else x2, y2, z2, if negative then -t2 else t2)
  {
    CongMul(z1, z1, z2, 1);
    var zz := PlusReduce(p.z, p.z, z1 * z2, z1 * z2);
    r := AddSigned(p, q, zz, negative, x1, y1, z1, t1, x2, y2, z2, t2);
  }

  /** ge25519_nielsadd2: the sum with an entry of the base table. */
  method NielsAdd2(p: Ge, q: Entry, ghost x1: int, ghost y1: int, ghost z1: int, ghost t1: int,
                   ghost x2: int, ghost y2: int, ghost z2: int, ghost t2: int)
    returns (r: Ge, ghost x3: int, ghost y3: int, ghost z3: int, ghost t3: int)
    requires p.Below(SMALL) && p.Is(x1, y1, z1, t1) && q.Below(W53) && q.Of(x2, y2, z2, t2) && Cong(z2, 1)
    requires Cong(t1 * z1, x1 * y1) && Cong(t2 * z2, x2 * y2)
    ensures r.Below(CARRIED) && r.Is(x3, y3, z3, t3) && IsSum(4, x1, y1, z1, x2, y2, z2, x3, y3, z3, t3)
    ensures Extended(x1, y1, z1, t1) && Extended(x2, y2, z2, t2) ==> Extended(x3, y3, z3, t3)
  {
    CongMul(z1, z1, z2, 1);
    var c := Unsigned(p, q, p.z, x1, y1, z1, t1, x2, y2, z2, t2);
    r, x3, y3, z3, t3 := Complete(c, x1, y1, z1, t1, x2, y2, z2, t2);
  }

  /** ge25519_pnielsadd: the entry of the sum with the point of an entry. */
  method PnielsAdd(p: Ge, q: Entry, ghost x1: int, ghost y1: int, ghost z1: int, ghost t1: int,
                   ghost x2: int, ghost y2: int, ghost z2: int, ghost t2: int)
    returns (r: Entry, ghost x3: int, ghost y3: int, ghost z3: int, ghost t3: int)
    requires p.Below(SMALL) && p.Is(x1, y1, z1, t1) && q.Below(W53) && q.Of(x2, y2, z2, t2)
    requires Cong(t1 * z1, x1 * y1) && Cong(t2 * z2, x2 * y2)
    ensures r.Below(W53) && r.Of(x3, y3, z3, t3) && IsSum(4, x1, y1, z1, x2, y2, z2, x3, y3, z3, t3)
    ensures Extended(x1, y1, z1, t1) && Extended(x2, y2, z2, t2) ==> Extended(x3, y3, z3, t3)
  {
    var d := Product(p.z, q.z, z1, z2);
    var c := Unsigned(p, q, d, x1, y1, z1, t1, x2, y2, z2, t2);
    var full;
    full, x3, y3, z3, t3 := Complete(c, x1, y1, z1, t1, x2, y2, z2, t2);
    r := FromFull(full, x3, y3, z3, t3);
  }

  /** The completed sum, from d = z1*z2. */
  method Unsigned(p: Ge, q: Entry, d: Fe, ghost x1: int, ghost y1: int, ghost z1: int, ghost t1: int,
                  ghost x2: int, ghost y2: int, ghost z2: int, ghost t2: int)
    returns (r: Ge)
    requires p.Below(SMALL) && p.Is(x1, y1, z1, t1) && q.Below(W53) && q.Of(x2, y2, z2, t2)
    requires d.Below(SMALL) && Stands(d, z1 * z2)
    ensures r.Below(W54) && IsCompleted(r, x1, y1, z1, t1, x2, y2, z2, t2)
  {
    var x, y := CompleteXY(p.x, p.y, q.ysubx, q.xaddy, x1, y1, x2, y2);
    var c := EntryTerm(p.t, q.t2d, t1, t2);
    var z, t := CompleteZT(d, c, z1 * z2, D() * (t1 * t2));
    r := Ge(x, y, z, t);
  }
}
