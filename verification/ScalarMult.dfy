/** Scalar multiplications (ed25519-donna-impl-base.h) over an abstract group of points. The tables
    of multiples are taken at their intended meaning. */
module ScalarMult {
  import opened Words
  import opened Radix
  import opened Groups
  import ModM
  import Recoding

  /** Entry k of a table of odd multiples is [2k + 1]p. */
  ghost predicate OddMultiples<T(!new)>(g: Group<T>, table: seq<T>, p: T) {
    forall k :: 0 <= k < |table| ==> table[k] == Groups.Mul(g, 2 * k + 1, p)
  }

  /** ge25519_pnielsadd_p1p1 and ge25519_nielsadd2_p1p1: the table entry for |d|, added or subtracted. */
  method AddDigit<T(!new)>(g: Group<T>, r: T, table: seq<T>, d: i8, ghost p: T) returns (r': T)
    requires Abelian(g) && OddMultiples(g, table, p)
    requires d as int % 2 == 1 && -2 * |table| < d as int < 2 * |table|
    ensures r' == g.add(r, Groups.Mul(g, d as int, p))
  {
    var u := if d < 0 then -(d as int) else d as int;
    var e := table[u / 2];
    assert 2 * (u / 2) + 1 == u;
    if d < 0 {
      MulNeg(g, u, p);
      r' := g.add(r, g.neg(e));
    } else {
      r' := g.add(r, e);
    }
  }

  /** pre1[i] = [2i + 1]p1, each entry from the one before by adding [2]p1. */
  method OddTable<T(!new)>(g: Group<T>, p1: T) returns (pre1: array<T>)
    requires Abelian(g)
    ensures pre1.Length == 8 && OddMultiples(g, pre1[..], p1)
  {
    var d1 := g.add(p1, p1);
    MulOne(g, p1);
    pre1 := new T[8](_ => p1);
    for i := 0 to 7
      invariant OddMultiples(g, pre1[..i + 1], p1)
    {
      MulAdd(g, 2 * i + 1, 2, p1);
      assert pre1[..i + 1][i] == pre1[i];
      pre1[i + 1] := g.add(pre1[i], d1);
      assert pre1[..i + 2] == pre1[..i + 1] + [pre1[i + 1]];
    }
    assert pre1[..8] == pre1[..];
  }

  /** One digit of the joint loop: doubling doubles both multipliers. */
  lemma DoubleBoth<T(!new)>(g: Group<T>, a: int, b: int, p: T, q: T)
    requires Abelian(g)
    ensures var r := g.add(Groups.Mul(g, a, p), Groups.Mul(g, b, q));
            g.add(r, r) == g.add(Groups.Mul(g, 2 * a, p), Groups.Mul(g, 2 * b, q))
  {
    MulAdd(g, a, a, p);
    MulAdd(g, b, b, q);
    Interchange(g, Groups.Mul(g, a, p), Groups.Mul(g, b, q), Groups.Mul(g, a, p), Groups.Mul(g, b, q));
  }

  lemma AddFirst<T(!new)>(g: Group<T>, a: int, d: int, b: int, p: T, q: T)
    requires Abelian(g)
    ensures g.add(g.add(Groups.Mul(g, a, p), Groups.Mul(g, b, q)), Groups.Mul(g, d, p))
            == g.add(Groups.Mul(g, a + d, p), Groups.Mul(g, b, q))
  {
    var x, y, z := Groups.Mul(g, a, p), Groups.Mul(g, b, q), Groups.Mul(g, d, p);
    MulAdd(g, a, d, p);
    Assoc(g, x, y, z);
    Comm(g, y, z);
    Assoc(g, x, z, y);
  }

  lemma AddSecond<T(!new)>(g: Group<T>, a: int, b: int, d: int, p: T, q: T)
    requires Abelian(g)
    ensures g.add(g.add(Groups.Mul(g, a, p), Groups.Mul(g, b, q)), Groups.Mul(g, d, q))
            == g.add(Groups.Mul(g, a, p), Groups.Mul(g, b + d, q))
  {
    MulAdd(g, b, d, q);
    Assoc(g, Groups.Mul(g, a, p), Groups.Mul(g, b, q), Groups.Mul(g, d, q));
  }

  ghost predicate ZeroOrOdd(d: i8, m: int) {
    d == 0 || (d as int % 2 == 1 && -m < d as int < m)
  }

  ghost predicate WindowDigits(d: seq<i8>, m: int) {
    forall i :: 0 <= i < |d| ==> ZeroOrOdd(d[i], m)
  }

  /** r is [a]p + [b]q. */
  ghost predicate IsJoint<T>(g: Group<T>, r: T, a: int, p: T, b: int, q: T) {
    r == g.add(Groups.Mul(g, a, p), Groups.Mul(g, b, q))
  }

  /** [a]p1 + [b]base becomes [2a + x]p1 + [2b + y]base. */
  method JointStep<T(!new)>(g: Group<T>, p1: T, pre1: seq<T>, base: T, table: seq<T>, r: T, x: i8, y: i8,
                            ghost a: int, ghost b: int, ghost a': int, ghost b': int) returns (r': T)
    requires Abelian(g) && |pre1| == 8 && OddMultiples(g, pre1, p1) && |table| == 32 && OddMultiples(g, table, base)
    requires ZeroOrOdd(x, 16) && ZeroOrOdd(y, 64) && IsJoint(g, r, a, p1, b, base)
    requires a' == 2 * a + x as int && b' == 2 * b + y as int
    ensures IsJoint(g, r', a', p1, b', base)
  {
    ghost var c, d := 2 * a, 2 * b;
    r' := StepDouble(g, p1, base, r, a, b, c, d);
    r' := StepFirst(g, p1, pre1, base, r', x, c, d, a');
    r' := StepSecond(g, p1, base, table, r', y, a', d, b');
  }

  method StepDouble<T(!new)>(g: Group<T>, ghost p1: T, ghost base: T, r: T, ghost a: int, ghost b: int,
                             ghost a': int, ghost b': int) returns (r': T)
    requires Abelian(g) && IsJoint(g, r, a, p1, b, base) && a' == 2 * a && b' == 2 * b
    ensures IsJoint(g, r', a', p1, b', base)
  {
    DoubleBoth(g, a, b, p1, base);
    r' := g.add(r, r);
  }

  method StepFirst<T(!new)>(g: Group<T>, p1: T, pre1: seq<T>, ghost base: T, r: T, x: i8, ghost a: int, ghost b: int,
                            ghost a': int) returns (r': T)
    requires Abelian(g) && |pre1| == 8 && OddMultiples(g, pre1, p1) && ZeroOrOdd(x, 16)
    requires IsJoint(g, r, a, p1, b, base) && a' == a + x as int
    ensures IsJoint(g, r', a', p1, b, base)
  {
    r' := r;
    if x != 0 {
      AddFirst(g, a, x as int, b, p1, base);
      r' := AddDigit(g, r, pre1, x, p1);
    }
  }

  method StepSecond<T(!new)>(g: Group<T>, ghost p1: T, base: T, table: seq<T>, r: T, y: i8, ghost a: int, ghost b: int,
                             ghost b': int) returns (r': T)
    requires Abelian(g) && |table| == 32 && OddMultiples(g, table, base) && ZeroOrOdd(y, 64)
    requires IsJoint(g, r, a, p1, b, base) && b' == b + y as int
    ensures IsJoint(g, r', a, p1, b', base)
  {
    r' := r;
    if y != 0 {
      AddSecond(g, a, b, y as int, p1, base);
      r' := AddDigit(g, r, table, y, base);
    }
  }

  method SkipZeros(d1: seq<i8>, d2: seq<i8>) returns (i: nat)
    requires |d1| == |d2|
    ensures i <= |d1| && Eval(2, d1[i..]) == 0 && Eval(2, d2[i..]) == 0
  {
    i := |d1|;
    while i > 0 && d1[i - 1] == 0 && d2[i - 1] == 0
      invariant 0 <= i <= |d1|
      invariant Eval(2, d1[i..]) == 0 && Eval(2, d2[i..]) == 0
    {
      EvalHead(2, d1, i - 1);
      EvalHead(2, d2, i - 1);
      i := i - 1;
    }
  }

  /** The loop over both digit strings, from the first position where one of them is not zero. */
  method JointLoop<T(!new)>(g: Group<T>, p1: T, pre1: seq<T>, base: T, table: seq<T>, d1: seq<i8>, d2: seq<i8>)
    returns (r: T)
    requires Abelian(g) && |d1| == |d2| && WindowDigits(d1, 16) && WindowDigits(d2, 64)
    requires |pre1| == 8 && OddMultiples(g, pre1, p1) && |table| == 32 && OddMultiples(g, table, base)
    ensures r == g.add(Groups.Mul(g, Eval(2, d1), p1), Groups.Mul(g, Eval(2, d2), base))
  {
    r := g.zero;
    Units(g, g.zero);
    var i := SkipZeros(d1, d2);
    ghost var a, b := 0, 0;
    while i > 0
      invariant 0 <= i <= |d1| && a == Eval(2, d1[i..]) && b == Eval(2, d2[i..])
      invariant IsJoint(g, r, a, p1, b, base)
    {
      i := i - 1;
      EvalHead(2, d1, i);
      EvalHead(2, d2, i);
      ghost var a', b' := 2 * a + d1[i] as int, 2 * b + d2[i] as int;
      r := JointStep(g, p1, pre1, base, table, r, d1[i], d2[i], a, b, a', b');
      a, b := a', b';
    }
    assert d1[0..] == d1 && d2[0..] == d2;
  }

  /** ge25519_double_scalarmult_vartime: [s1]p1 + [s2]base, for all scalars below 2^255. */
  method DoubleScalarmult<T(!new)>(g: Group<T>, p1: T, s1: array<u64>, s2: array<u64>, base: T, table: seq<T>)
    returns (r: T)
    requires Abelian(g) && |table| == 32 && OddMultiples(g, table, base)
    requires ModM.Limbs(s1) && s1[4] < 0x8000_0000 && ModM.Limbs(s2) && s2[4] < 0x8000_0000
    ensures r == g.add(Groups.Mul(g, ModM.Val(s1), p1), Groups.Mul(g, ModM.Val(s2), base))
  {
    var slide1, slide2 := new i8[256], new i8[256];
    Recoding.SlidingWindow(slide1, s1, 5);
    Recoding.SlidingWindow(slide2, s2, 7);
    var pre1 := OddTable(g, p1);
    assert Pow(2, 4) == 16 && Pow(2, 6) == 64;
    r := JointLoop(g, p1, pre1[..], base, table, slide1[..], slide2[..]);
  }

  /** Entry 8 * pos + k of the base-point table is [(k + 1) * 256^pos]base. */
  ghost predicate BaseMultiples<T(!new)>(g: Group<T>, table: seq<T>, base: T) {
    && |table| == 256
    && forall pos, k :: 0 <= pos < 32 && 0 <= k < 8 ==> BaseEntry(g, table, base, pos, k)
  }

  ghost predicate BaseEntry<T(!new)>(g: Group<T>, table: seq<T>, base: T, pos: nat, k: nat)
    requires |table| == 256 && pos < 32 && k < 8
  {
    table[8 * pos + k] == Groups.Mul(g, (k + 1) * Pow(256, pos), base)
  }

  /** ge25519_scalarmult_base_choose_niels: a scan of the eight entries of a row, then the sign. */
  method Choose<T(!new)>(g: Group<T>, table: seq<T>, pos: nat, b: i8, ghost base: T) returns (t: T)
    requires Abelian(g) && BaseMultiples(g, table, base) && pos < 32 && -8 <= b <= 8
    ensures t == Groups.Mul(g, b as int * Pow(256, pos), base)
  {
    var u := if b < 0 then -(b as int) else b as int;
    t := g.zero;
    assert 0 * Pow(256, pos) == 0;
    for i := 0 to 8
      invariant t == if 1 <= u <= i then Groups.Mul(g, u * Pow(256, pos), base) else g.zero
    {
      if u == i + 1 {
        assert BaseEntry(g, table, base, pos, i);
        t := table[8 * pos + i];
      }
    }
    if b < 0 {
      MulNeg(g, u * Pow(256, pos), base);
      assert -(u * Pow(256, pos)) == -u * Pow(256, pos);
      t := g.neg(t);
    }
  }

  /** The digits of one parity, in base 256. */
  ghost function Strided(b: seq<i8>, parity: nat, k: nat): int
    requires parity <= 1 && 2 * k <= |b|
  {
    if k == 0 then 0 else Strided(b, parity, k - 1) + b[2 * (k - 1) + parity] as int * Pow(256, k - 1)
  }

  lemma {:induction false} StridedEval(b: seq<i8>, k: nat)
    requires 2 * k <= |b|
    ensures Eval(16, b[..2 * k]) == Strided(b, 0, k) + 16 * Strided(b, 1, k)
  {
    if k == 0 {
      assert b[..0] == [];
    } else {
      StridedEval(b, k - 1);
      var n := 2 * (k - 1);
      EvalLast(16, b, n);
      EvalLast(16, b, n + 1);
      SquarePow(k - 1);
      StridedTerm(b[n] as int, b[n + 1] as int, Pow(256, k - 1));
    }
  }

  lemma StridedTerm(x: int, y: int, p: int)
    ensures p * x + 16 * p * y == x * p + 16 * (y * p)
  {
    MulAssoc(16, p, y);
  }

  lemma {:induction false} SquarePow(k: nat)
    ensures Pow(16, 2 * k) == Pow(256, k) && Pow(16, 2 * k + 1) == 16 * Pow(256, k)
  {
    if k > 0 {
      SquarePow(k - 1);
      assert Pow(16, 2 * k) == 16 * Pow(16, 2 * k - 1);
      assert Pow(16, 2 * k - 1) == Pow(16, 2 * (k - 1) + 1);
    }
  }

  /** One of the two loops over digits of one parity. */
  method AddParity<T(!new)>(g: Group<T>, table: seq<T>, b: seq<i8>, parity: nat, r: T, ghost base: T, ghost m: int,
                            ghost m': int)
    returns (r': T)
    requires Abelian(g) && BaseMultiples(g, table, base) && parity <= 1
    requires |b| == 64 && forall i :: 0 <= i < 64 ==> -8 <= b[i] <= 8
    requires r == Groups.Mul(g, m, base) && m' == m + Strided(b, parity, 32)
    ensures r' == Groups.Mul(g, m', base)
  {
    r' := r;
    ghost var n := m;
    for k := 0 to 32
      invariant n == m + Strided(b, parity, k) && r' == Groups.Mul(g, n, base)
    {
      ghost var n' := n + b[2 * k + parity] as int * Pow(256, k);
      r' := AddChosen(g, table, k, b[2 * k + parity], r', base, n, n');
      n := n';
    }
  }

  method AddChosen<T(!new)>(g: Group<T>, table: seq<T>, k: nat, d: i8, r: T, ghost base: T, ghost m: int, ghost m': int)
    returns (r': T)
    requires Abelian(g) && BaseMultiples(g, table, base) && k < 32 && -8 <= d <= 8
    requires r == Groups.Mul(g, m, base) && m' == m + d as int * Pow(256, k)
    ensures r' == Groups.Mul(g, m', base)
  {
    var t := Choose(g, table, k, d, base);
    MulAdd(g, m, d as int * Pow(256, k), base);
    r' := g.add(r, t);
  }

  /** ge25519_scalarmult_base_niels: odd digits, four doublings, even digits give [s]base. */
  method ScalarmultBase<T(!new)>(g: Group<T>, base: T, table: seq<T>, s: array<u64>) returns (r: T)
    requires Abelian(g) && BaseMultiples(g, table, base)
    requires ModM.Limbs(s) && s[4] < 0x8000_0000
    ensures r == Groups.Mul(g, ModM.Val(s), base)
  {
    var b := new i8[64];
    Recoding.Window4(b, s);
    StridedEval(b[..], 32);
    assert b[..][..64] == b[..];
    ghost var odd := Strided(b[..], 1, 32);
    ghost var odd16 := 16 * odd;
    r := AddParity(g, table, b[..], 1, g.zero, base, 0, odd);
    r := Quadruple(g, r, base, odd, odd16);
    r := AddParity(g, table, b[..], 0, r, base, odd16, ModM.Val(s));
  }

  /** Four doublings. */
  method Quadruple<T(!new)>(g: Group<T>, r: T, ghost base: T, ghost m: int, ghost m': int) returns (r': T)
    requires Abelian(g) && r == Groups.Mul(g, m, base) && m' == 16 * m
    ensures r' == Groups.Mul(g, m', base)
  {
    ghost var m2, m4, m8 := 2 * m, 4 * m, 8 * m;
    r' := Double(g, r, base, m, m2);
    r' := Double(g, r', base, m2, m4);
    r' := Double(g, r', base, m4, m8);
    r' := Double(g, r', base, m8, m');
  }

  method Double<T(!new)>(g: Group<T>, r: T, ghost base: T, ghost m: int, ghost m': int) returns (r': T)
    requires Abelian(g) && r == Groups.Mul(g, m, base) && m' == 2 * m
    ensures r' == Groups.Mul(g, m', base)
  {
    MulAdd(g, m, m, base);
    r' := g.add(r, r);
  }
}
