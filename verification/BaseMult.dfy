/** ge25519_scalarmult_base_niels on limbs and packed rows (ed25519-donna-impl-base.h), without any assumption on
    the curve: the result is made from multiples of the base point by the addition law, and their total is the
    scalar. */
module BaseMult {
  import opened Words
  import opened Radix
  import opened Field25519
  import opened CurveLaw
  import opened Edwards
  import opened Niels
  import opened NielsTable
  import opened Groups
  import opened Chains
  import ModM
  import Recoding
  import ScalarMult

  /** The table as points with z = 1; row 8 * pos + k - 1 is for the multiple k * 256^pos. */
  ghost predicate Points(quads: seq<Quad>) {
    |quads| == 256 && forall j :: 0 <= j < 256 ==> quads[j].z == 1 && OnQuad(quads[j])
  }

  /** The packed rows hold y - x, y + x and 2dxy; at position 0 the last one is 2xy. */
  ghost predicate Packed(table: seq<seq<u64>>, quads: seq<Quad>) {
    && Points(quads) && |table| == 256
    && forall j :: 0 <= j < 256 ==> Holds(table[j], quads[j].x, quads[j].y, Third(quads[j], j / 8))
  }

  ghost function Third(q: Quad, pos: nat): int {
    if pos == 0 then 2 * q.t else 2 * (D() * q.t)
  }

  /** Row 8 * pos + k - 1 is the multiple k * 256^pos of the base point. */
  ghost function Weights(): (w: seq<int>)
    ensures |w| == 256
  {
    seq(256, j requires 0 <= j < 256 => (j % 8 + 1) * Pow(256, j / 8))
  }

  /** The point for digit b at a position: the entry for |b|, negated for a negative digit, or the neutral point. */
  ghost function Digit(pos: nat, b: int): Chain
    requires pos < 32 && -8 <= b <= 8
  {
    if b == 0 then Neutral else if b > 0 then Known(8 * pos + b - 1) else Negative(Known(8 * pos - b - 1))
  }

  ghost function Signed(quads: seq<Quad>, pos: nat, b: int): Quad
    requires |quads| == 256 && pos < 32 && -8 <= b <= 8
  {
    if b == 0 then NEUTRAL else if b > 0 then quads[8 * pos + b - 1] else Opposite(quads[8 * pos - b - 1])
  }

  lemma DigitTotal(quads: seq<Quad>, pos: nat, b: int)
    requires |quads| == 256 && pos < 32 && -8 <= b <= 8
    ensures Lawful(quads, Digit(pos, b)) && Root(quads, Digit(pos, b)) == Signed(quads, pos, b)
    ensures Total(Weights(), Digit(pos, b)) == b * Pow(256, pos)
  {
    if b != 0 {
      var u := if b < 0 then -b else b;
      assert Root(quads, Known(8 * pos + u - 1)) == quads[8 * pos + u - 1];
      assert Total(Weights(), Known(8 * pos + u - 1)) == Weights()[8 * pos + u - 1];
      ModUnique(8 * pos + u - 1, u - 1, pos, 8);
      assert Weights()[8 * pos + u - 1] == u * Pow(256, pos);
      NegatedProduct(u, Pow(256, pos));
    }
  }

  lemma SignedOnCurve(quads: seq<Quad>, pos: nat, b: int)
    requires Points(quads) && pos < 32 && -8 <= b <= 8
    ensures var q := Signed(quads, pos, b); q.z == 1 && OnQuad(q)
  {
    NeutralOnCurve();
    if b < 0 {
      OppositeOnCurve(quads[8 * pos - b - 1]);
    }
  }

  /** d is the point of a digit as a chain, and the multiple m. */
  ghost predicate IsDigit(quads: seq<Quad>, pos: nat, b: int, d: Chain, m: int)
    requires |quads| == 256 && pos < 32 && -8 <= b <= 8
  {
    Lawful(quads, d) && Root(quads, d) == Signed(quads, pos, b) && Total(Weights(), d) == m
  }

  lemma DigitOf(quads: seq<Quad>, pos: nat, b: int, m: int) returns (d: Chain)
    requires Points(quads) && pos < 32 && -8 <= b <= 8 && m == b * Pow(256, pos)
    ensures IsDigit(quads, pos, b, d, m)
  {
    DigitTotal(quads, pos, b);
    d := Digit(pos, b);
  }

  lemma AtZero(b: int, pos: nat)
    requires pos == 0
    ensures b == b * Pow(256, pos)
  {
  }

  /** r holds a point on the curve that is made by the law and is the n-th multiple. */
  ghost predicate Multiple(r: Ge, quads: seq<Quad>, c: Chain, n: int) {
    Made(r, quads, c) && Total(Weights(), c) == n
  }

  /** The entry for a digit at a position. */
  method ChooseEntry(table: seq<seq<u64>>, ghost quads: seq<Quad>, pos: nat, b: i8) returns (t: Entry)
    requires Packed(table, quads) && pos < 32 && -8 <= b <= 8
    ensures var q := Signed(quads, pos, b as int); Entered(t, q.x, q.y, Third(q, pos))
  {
    ghost var q, w := RowOf(table, quads, pos, b as int);
    RowSizes(table, quads);
    ghost var s := Signed(quads, pos, b as int);
    t := ChooseRow(table, pos, b, q.x, q.y, w, s.x, s.y, Third(s, pos));
  }

  method ChooseRow(table: seq<seq<u64>>, pos: nat, b: i8, ghost x: int, ghost y: int, ghost w: int,
                   ghost x': int, ghost y': int, ghost w': int)
    returns (t: Entry)
    requires |table| == 256 && pos < 32 && -8 <= b <= 8 && forall j :: 0 <= j < 256 ==> |table[j]| == 12
    requires b != 0 ==> Holds(table[8 * pos + (if b < 0 then -(b as int) else b as int) - 1], x, y, w)
    requires b > 0 ==> x' == x && y' == y && w' == w
    requires b < 0 ==> x' == -x && y' == y && w' == -w
    requires b == 0 ==> x' == 0 && y' == 1 && w' == 0
    ensures Entered(t, x', y', w')
  {
    t := ChooseNiels(table, pos, b, x, y, w);
  }

  /** What the row for a digit holds, and what that is for the point of the digit. */
  lemma RowOf(table: seq<seq<u64>>, quads: seq<Quad>, pos: nat, b: int) returns (q: Quad, w: int)
    requires Packed(table, quads) && pos < 32 && -8 <= b <= 8
    ensures b != 0 ==> Holds(table[8 * pos + (if b < 0 then -b else b) - 1], q.x, q.y, w)
    ensures var s := Signed(quads, pos, b);
            var v := Third(s, pos);
            && (b > 0 ==> s.x == q.x && s.y == q.y && v == w)
            && (b < 0 ==> s.x == -q.x && s.y == q.y && v == -w)
            && (b == 0 ==> s.x == 0 && s.y == 1 && v == 0)
  {
    q, w := RowHolds(table, quads, pos, b);
    SignedRow(quads, pos, b, q, w);
  }

  lemma RowHolds(table: seq<seq<u64>>, quads: seq<Quad>, pos: nat, b: int) returns (q: Quad, w: int)
    requires Packed(table, quads) && pos < 32 && -8 <= b <= 8
    ensures q == quads[Row(pos, b)] && w == Third(q, pos)
    ensures b != 0 ==> Holds(table[8 * pos + (if b < 0 then -b else b) - 1], q.x, q.y, w)
  {
    var j := Row(pos, b);
    q, w := quads[j], Third(quads[j], pos);
    assert Holds(table[j], q.x, q.y, Third(q, j / 8));
  }

  lemma SignedRow(quads: seq<Quad>, pos: nat, b: int, q: Quad, w: int)
    requires |quads| == 256 && pos < 32 && -8 <= b <= 8 && q == quads[Row(pos, b)] && w == Third(q, pos)
    ensures var s := Signed(quads, pos, b);
            var v := Third(s, pos);
            && (b > 0 ==> s.x == q.x && s.y == q.y && v == w)
            && (b < 0 ==> s.x == -q.x && s.y == q.y && v == -w)
            && (b == 0 ==> s.x == 0 && s.y == 1 && v == 0)
  {
    NegatedThird(q, pos);
  }

  lemma RowSizes(table: seq<seq<u64>>, quads: seq<Quad>)
    requires Packed(table, quads)
    ensures forall j :: 0 <= j < 256 ==> |table[j]| == 12
  {
    forall i | 0 <= i < 256
      ensures |table[i]| == 12
    {
      assert Holds(table[i], quads[i].x, quads[i].y, Third(quads[i], i / 8));
    }
  }

  // The row for digit b at a position, any of its rows for digit 0.
  ghost function Row(pos: nat, b: int): (j: nat)
    requires pos < 32 && -8 <= b <= 8
    ensures j < 256 && j / 8 == pos && j == 8 * pos + (if b > 0 then b - 1 else if b < 0 then -b - 1 else 0)
  {
    var k := if b > 0 then b - 1 else if b < 0 then -b - 1 else 0;
    ModUnique(8 * pos + k, k, pos, 8);
    8 * pos + k
  }

  lemma NegatedThird(q: Quad, pos: nat)
    ensures Third(Quad(-q.x, q.y, q.z, -q.t), pos) == -Third(q, pos) && Third(Quad(0, 1, 1, 0), pos) == 0
  {
    MulNegated(D(), q.t);
  }

  lemma MulNegated(a: int, b: int)
    ensures a * -b == -(a * b)
  {
  }

  /** The accumulator plus the entry for digit b at a position above 0, which is the multiple m. */
  method AddDigit(table: seq<seq<u64>>, ghost quads: seq<Quad>, pos: nat, b: i8, r: Ge, ghost c: Chain, ghost n: int,
                  ghost d: Chain, ghost m: int)
    returns (r': Ge, ghost c': Chain)
    requires Packed(table, quads) && 0 < pos < 32 && -8 <= b <= 8 && Multiple(r, quads, c, n)
    requires IsDigit(quads, pos, b as int, d, m)
    ensures r'.Below(SMALL) && Multiple(r', quads, c', n + m)
  {
    var t := ChooseEntry(table, quads, pos, b);
    ghost var p, q := Root(quads, c), Root(quads, d);
    SignedOnCurve(quads, pos, b as int);
    assert ONE.Num() == 1;
    ghost var x, y, z, w;
    r', x, y, z, w := NielsAdd2(r, t, p.x, p.y, p.z, p.t, q.x, q.y, q.z, q.t);
    c' := PlusLawful(quads, Weights(), c, d, Quad(x, y, z, w));
  }

  /** The accumulator plus the entry for digit b at position 0. */
  method AddAtZero(table: seq<seq<u64>>, ghost quads: seq<Quad>, b: i8, r: Ge, ghost c: Chain, ghost n: int,
                   ghost d: Chain)
    returns (r': Ge, ghost c': Chain)
    requires Packed(table, quads) && -8 <= b <= 8 && Multiple(r, quads, c, n)
    requires IsDigit(quads, 0, b as int, d, b as int)
    ensures r'.Below(SMALL) && Multiple(r', quads, c', n + b as int)
  {
    var t := ChooseEntry(table, quads, 0, b);
    ghost var p, q := Root(quads, c), Root(quads, d);
    SignedOnCurve(quads, 0, b as int);
    ghost var x, y, z, w;
    r', x, y, z, w := AddFirst(r, t, p.x, p.y, p.z, p.t, q.x, q.y, q.t);
    c' := PlusLawful(quads, Weights(), c, d, Quad(x, y, z, w));
  }

  /** The accumulator before the first loop: the entry for digit b at position 0 with all coordinates doubled. */
  method Start(table: seq<seq<u64>>, ghost quads: seq<Quad>, b: i8, ghost d: Chain) returns (r: Ge, ghost c: Chain)
    requires Packed(table, quads) && -8 <= b <= 8 && IsDigit(quads, 0, b as int, d, b as int)
    ensures r.Below(SMALL) && Multiple(r, quads, c, b as int)
  {
    var t := ChooseEntry(table, quads, 0, b);
    ghost var q := Root(quads, d);
    SignedOnCurve(quads, 0, b as int);
    r := FirstPoint(t, q.x, q.y, q.t);
    c := ScaledLawful(quads, Weights(), d, q);
  }

  /** One of the two loops over digits of one parity, from position 1. */
  method AddParity(table: seq<seq<u64>>, ghost quads: seq<Quad>, b: seq<i8>, parity: nat, r: Ge, ghost c: Chain,
                   ghost n: int, ghost n': int)
    returns (r': Ge, ghost c': Chain)
    requires Packed(table, quads) && parity <= 1 && |b| == 64 && forall i :: 0 <= i < 64 ==> -8 <= b[i] <= 8
    requires Multiple(r, quads, c, n) && n' == n + ScalarMult.Strided(b, parity, 32) - ScalarMult.Strided(b, parity, 1)
    ensures r'.Below(SMALL) && Multiple(r', quads, c', n')
  {
    r', c' := r, c;
    ghost var m := n;
    for k := 1 to 32
      invariant m == n + ScalarMult.Strided(b, parity, k) - ScalarMult.Strided(b, parity, 1)
      invariant Multiple(r', quads, c', m)
    {
      ghost var d, term := StridedDigit(quads, b, parity, k);
      r', c' := AddDigit(table, quads, k, b[2 * k + parity], r', c', m, d, term);
      m := m + term;
    }
  }

  lemma StridedDigit(quads: seq<Quad>, b: seq<i8>, parity: nat, k: nat) returns (d: Chain, m: int)
    requires Points(quads) && parity <= 1 && |b| == 64 && k < 32 && -8 <= b[2 * k + parity] <= 8
    ensures IsDigit(quads, k, b[2 * k + parity] as int, d, m)
    ensures m == ScalarMult.Strided(b, parity, k + 1) - ScalarMult.Strided(b, parity, k)
  {
    m := b[2 * k + parity] as int * Pow(256, k);
    d := DigitOf(quads, k, b[2 * k + parity] as int, m);
  }

  method TimesSixteen(ghost quads: seq<Quad>, r: Ge, ghost c: Chain, ghost n: int) returns (r': Ge, ghost c': Chain)
    requires Multiple(r, quads, c, n)
    ensures r'.Below(SMALL) && Multiple(r', quads, c', 16 * n)
  {
    ghost var x, y, z, w;
    r', x, y, z, w := DoubleFourTimes(r, Root(quads, c));
    c' := TwiceLawful(quads, c, x, n);
    c' := TwiceLawful(quads, c', y, 2 * n);
    c' := TwiceLawful(quads, c', z, 4 * n);
    c' := TwiceLawful(quads, c', w, 8 * n);
  }

  lemma TwiceLawful(quads: seq<Quad>, c: Chain, q: Quad, n: int) returns (c': Chain)
    requires Lawful(quads, c) && Total(Weights(), c) == n && Doubles(Root(quads, c), q)
    ensures Lawful(quads, c') && Total(Weights(), c') == 2 * n && Root(quads, c') == q
  {
    c' := Twice(c, q);
  }

  lemma FirstDigit(b: seq<i8>, parity: nat)
    requires |b| == 64 && parity <= 1
    ensures ScalarMult.Strided(b, parity, 1) == b[parity] as int
  {
    assert ScalarMult.Strided(b, parity, 0) == 0 && Pow(256, 0) == 1;
  }

  /** ge25519_scalarmult_base_niels: a point made by the addition law that is the multiple s of the base point, in
      limbs that never leave their range. */
  method ScalarmultBaseNiels(table: seq<seq<u64>>, ghost quads: seq<Quad>, s: array<u64>)
    returns (r: Ge, ghost c: Chain)
    requires Packed(table, quads) && ModM.Limbs(s) && s[4] < 0x8000_0000
    ensures r.Below(SMALL) && Multiple(r, quads, c, ModM.Val(s))
  {
    var digits := new i8[64];
    Recoding.Window4(digits, s);
    var b := digits[..];
    ScalarMult.StridedEval(b, 32);
    assert b[..64] == b;
    FirstDigit(b, 0);
    FirstDigit(b, 1);
    ghost var odd := ScalarMult.Strided(b, 1, 32);
    AtZero(b[0] as int, 0);
    AtZero(b[1] as int, 0);
    ghost var d0 := DigitOf(quads, 0, b[0] as int, b[0] as int);
    ghost var d1 := DigitOf(quads, 0, b[1] as int, b[1] as int);
    r, c := Start(table, quads, b[1], d1);
    r, c := AddParity(table, quads, b, 1, r, c, b[1] as int, odd);
    r, c := TimesSixteen(quads, r, c, odd);
    r, c := AddAtZero(table, quads, b[0], r, c, 16 * odd, d0);
    r, c := AddParity(table, quads, b, 0, r, c, 16 * odd + b[0] as int, ModM.Val(s));
  }

  /** Where the addition law is that of a group and the table holds multiples of a base point, the result is [s]B. */
  lemma BaseReads<T(!new)>(g: Group<T>, phi: Quad -> T, quads: seq<Quad>, base: T, c: Chain)
    requires Reads(g, phi) && Points(quads) && Lawful(quads, c)
    requires forall j :: 0 <= j < 256 ==> phi(quads[j]) == Groups.Mul(g, Weights()[j], base)
    ensures Regular(Root(quads, c)) && phi(Root(quads, c)) == Groups.Mul(g, Total(Weights(), c), base)
  {
    var zeros := seq(256, _ => 0);
    forall j | 0 <= j < 256
      ensures Regular(quads[j]) && phi(quads[j]) == Joint(g, zeros[j], base, Weights()[j], base)
    {
      UnitRegular(quads[j]);
      Units(g, Groups.Mul(g, Weights()[j], base));
    }
    ChainReads(g, phi, quads, zeros, base, Weights(), base, c);
    NoTotal(zeros, c);
    Units(g, Groups.Mul(g, Total(Weights(), c), base));
  }

  lemma {:induction false} NoTotal(w: seq<int>, c: Chain)
    requires forall i :: 0 <= i < |w| ==> w[i] == 0
    ensures Total(w, c) == 0
  {
    match c
    case Neutral =>
    case Known(i) =>
    case Negative(a) => NoTotal(w, a);
    case Plus(a, b, _) =>
      NoTotal(w, a);
      NoTotal(w, b);
    case Twice(a, _) => NoTotal(w, a);
    case Scaled(a) => NoTotal(w, a);
  }
}
