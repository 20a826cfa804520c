/** ge25519_double_scalarmult_vartime on limbs (ed25519-donna-impl-base.h), without any assumption on the curve: the
    result is made from the point and the odd multiples of the base point by the addition law, with the two scalars
    for its totals. */
module JointMult {
  import opened Words
  import opened Radix
  import opened Field25519
  import opened CurveLaw
  import opened Edwards
  import opened Niels
  import opened Groups
  import opened Chains
  import ModM
  import Recoding
  import ScalarMult

  /** The known points: p1, and the odd multiples of the base point up to 63. */
  ghost predicate Points(known: seq<Quad>) {
    |known| == 33 && forall i :: 0 <= i < 33 ==> OnQuad(known[i])
  }

  /** Their weights in p1 and in the base point. */
  ghost function First(): (w: seq<int>)
    ensures |w| == 33
  {
    seq(33, i => if i == 0 then 1 else 0)
  }

  ghost function Second(): (w: seq<int>)
    ensures |w| == 33
  {
    seq(33, i => if i == 0 then 0 else 2 * i - 1)
  }

  /** c is made by the law, is on the curve, and has the totals a and b. */
  ghost predicate Joins(known: seq<Quad>, c: Chain, a: int, b: int) {
    Lawful(known, c) && OnQuad(Root(known, c)) && Total(First(), c) == a && Total(Second(), c) == b
  }

  /** e is the entry of the point c. */
  ghost predicate EntryOf(e: Entry, known: seq<Quad>, c: Chain) {
    e.Below(W53) && var q := Root(known, c); e.Of(q.x, q.y, q.z, q.t)
  }

  /** The entries of the odd multiples of p1, and of the base point with z = 1. */
  ghost predicate Odd(pre: seq<Entry>, chains: seq<Chain>, known: seq<Quad>, n: nat) {
    && n <= |pre| && n <= |chains|
    && forall i :: 0 <= i < n ==> EntryOf(pre[i], known, chains[i]) && Joins(known, chains[i], 2 * i + 1, 0)
  }

  ghost predicate BaseTable(table: seq<Entry>, known: seq<Quad>) {
    && |table| == 32 && |known| == 33
    && forall k :: 0 <= k < 32 ==> EntryOf(table[k], known, Known(k + 1)) && known[k + 1].z == 1
  }

  lemma PointJoins(known: seq<Quad>)
    requires Points(known)
    ensures Joins(known, Known(0), 1, 0)
  {
  }

  lemma MultipleJoins(known: seq<Quad>, k: nat)
    requires Points(known) && k < 32
    ensures Joins(known, Known(k + 1), 0, 2 * k + 1)
  {
  }

  lemma NegativeJoins(known: seq<Quad>, c: Chain, a: int, b: int)
    requires Joins(known, c, a, b)
    ensures Joins(known, Negative(c), -a, -b) && Root(known, Negative(c)) == Opposite(Root(known, c))
  {
    OppositeOnCurve(Root(known, c));
  }

  lemma TwiceJoins(known: seq<Quad>, c: Chain, a: int, b: int, q: Quad) returns (c': Chain)
    requires Joins(known, c, a, b) && Doubles(Root(known, c), q)
    ensures Joins(known, c', 2 * a, 2 * b) && Root(known, c') == q
  {
    c' := Twice(c, q);
  }

  lemma PlusJoins(known: seq<Quad>, c: Chain, a: int, b: int, d: Chain, a': int, b': int, q: Quad) returns (c': Chain)
    requires Joins(known, c, a, b) && Joins(known, d, a', b') && Adds(Root(known, c), Root(known, d), q)
    ensures Joins(known, c', a + a', b + b') && Root(known, c') == q
  {
    c' := Plus(c, d, q);
  }

  /** The completed coordinates k of a point: x = e*f, y = h*g, z = g*f and t = e*h. */
  ghost function Completes(k: Quad): Quad {
    Quad(k.x * k.t, k.y * k.z, k.z * k.t, k.x * k.y)
  }

  /** t holds the completed coordinates k of the point c. */
  ghost predicate Pending(t: Ge, known: seq<Quad>, c: Chain, k: Quad) {
    t.Below(W54) && t.Is(k.x, k.y, k.z, k.t) && Root(known, c) == Completes(k)
  }

  /** The completed coordinates of a sum. */
  ghost function SumOf(a: Quad, b: Quad): Quad {
    Quad(2 * (a.x * b.y + a.y * b.x), 2 * (a.y * b.y + a.x * b.x), 2 * (a.z * b.z + D() * (a.t * b.t)),
      2 * (a.z * b.z - D() * (a.t * b.t)))
  }

  lemma SumAdds(a: Quad, b: Quad, k: Quad, q: Quad)
    requires OnQuad(a) && OnQuad(b) && k == SumOf(a, b) && q == Completes(k)
    ensures Adds(a, b, q)
  {
    AdditionLaw(a.x, a.y, a.z, a.t, b.x, b.y, b.z, b.t, k.x, k.y, k.z, k.t, q.x, q.y, q.z, q.t);
    SumOnCurve(a.x, a.y, a.z, a.t, b.x, b.y, b.z, b.t);
  }

  /** The completed coordinates of a double. */
  ghost function DoubleOf(a: Quad): Quad {
    Quad(2 * (a.x * a.y), a.y * a.y + a.x * a.x, a.y * a.y - a.x * a.x, 2 * (a.z * a.z) - (a.y * a.y - a.x * a.x))
  }

  lemma DoubleDoubles(a: Quad, k: Quad, q: Quad)
    requires OnQuad(a) && k == DoubleOf(a) && q == Completes(k)
    ensures Doubles(a, q)
  {
    ExtendedOnCurve(a.x, a.y, a.z, a.t);
    var x, y, z, t := DoubledCoordinates(a.x, a.y, a.z, a.t);
  }

  /** r holds x, y and z of the point c; t may be stale. */
  ghost predicate Holding(r: Ge, known: seq<Quad>, c: Chain) {
    var q := Root(known, c); r.IsPartial(q.x, q.y, q.z, SMALL)
  }

  method DoubleCoordinates(r: Ge, ghost q: Quad, ghost k: Quad) returns (t: Ge)
    requires r.IsPartial(q.x, q.y, q.z, SMALL) && k == DoubleOf(q)
    ensures t.Below(W54) && t.Is(k.x, k.y, k.z, k.t)
  {
    t := DoubleP1P1(r, q.x, q.y, q.z);
  }

  /** ge25519_double_p1p1 in the loop. */
  method DoubleStep(r: Ge, ghost known: seq<Quad>, ghost c: Chain, ghost a: int, ghost b: int)
    returns (t: Ge, ghost c': Chain, ghost k: Quad)
    requires Joins(known, c, a, b) && Holding(r, known, c)
    ensures t.Below(W54) && Joins(known, c', 2 * a, 2 * b) && Pending(t, known, c', k)
  {
    ghost var q := Root(known, c);
    k := DoubleOf(q);
    t := DoubleCoordinates(r, q, k);
    DoubleDoubles(q, k, Completes(k));
    c' := TwiceJoins(known, c, a, b, Completes(k));
  }

  /** r holds the coordinates q. */
  ghost predicate Full(r: Ge, q: Quad) {
    r.Below(SMALL) && r.Is(q.x, q.y, q.z, q.t)
  }

  // ge25519_p1p1_to_full
  method Refill(t: Ge, ghost known: seq<Quad>, ghost c: Chain, ghost k: Quad, ghost p: Quad) returns (r: Ge)
    requires Pending(t, known, c, k) && p == Root(known, c)
    ensures r.Below(SMALL) && Full(r, p)
  {
    r := ToFull(t, k.x, k.y, k.z, k.t);
  }

  ghost function Signed(q: Quad, negative: bool): Quad {
    if negative then Opposite(q) else q
  }

  /** k are the completed coordinates of the sum of p and q. */
  ghost predicate Sums(p: Quad, q: Quad, k: Quad) {
    k == SumOf(p, q)
  }

  /** ge25519_pnielsadd_p1p1, or ge25519_nielsadd2_p1p1 for an entry with z = 1. */
  method AddSigned(r: Ge, e: Entry, negative: bool, unit: bool, ghost p: Quad, ghost q: Quad, ghost s: Quad)
    returns (t: Ge, ghost k: Quad)
    requires Full(r, p) && e.Below(W53) && e.Of(q.x, q.y, q.z, q.t) && (unit ==> q.z == 1) && s == Signed(q, negative)
    ensures t.Below(W54) && t.Is(k.x, k.y, k.z, k.t) && Sums(p, s, k)
  {
    k := SumOf(p, s);
    if unit {
      t := AddUnit(r, e, negative, p, q, k);
    } else {
      t := AddAny(r, e, negative, p, q, k);
    }
  }

  method AddAny(r: Ge, e: Entry, negative: bool, ghost p: Quad, ghost q: Quad, ghost k: Quad) returns (t: Ge)
    requires Full(r, p) && e.Below(W53) && e.Of(q.x, q.y, q.z, q.t) && k == SumOf(p, Signed(q, negative))
    ensures t.Below(W54) && t.Is(k.x, k.y, k.z, k.t)
  {
    t := PnielsAddP1P1(r, e, negative, p.x, p.y, p.z, p.t, q.x, q.y, q.z, q.t);
    SignedSum(t, p, q, negative, k);
  }

  method AddUnit(r: Ge, e: Entry, negative: bool, ghost p: Quad, ghost q: Quad, ghost k: Quad) returns (t: Ge)
    requires Full(r, p) && e.Below(W53) && e.Of(q.x, q.y, q.z, q.t) && q.z == 1 && k == SumOf(p, Signed(q, negative))
    ensures t.Below(W54) && t.Is(k.x, k.y, k.z, k.t)
  {
    t := NielsAdd2P1P1(r, e, negative, p.x, p.y, p.z, p.t, q.x, q.y, q.z, q.t);
    SignedSum(t, p, q, negative, k);
  }

  lemma SignedSum(t: Ge, p: Quad, q: Quad, negative: bool, k: Quad)
    requires IsCompleted(t, p.x, p.y, p.z, p.t, if negative then -q.x else q.x, q.y, q.z, if negative then -q.t
                         else q.t)
    requires k == SumOf(p, Signed(q, negative))
    ensures t.Is(k.x, k.y, k.z, k.t)
  {
  }

  /** The point of an entry is added, or subtracted. */
  method AddEntry(t: Ge, e: Entry, negative: bool, unit: bool, ghost known: seq<Quad>, ghost c: Chain, ghost a: int,
                  ghost b: int, ghost k: Quad, ghost d: Chain, ghost a': int, ghost b': int)
    returns (t': Ge, ghost c': Chain, ghost k': Quad)
    requires Joins(known, c, a, b) && Pending(t, known, c, k) && Joins(known, d, a', b') && EntryOf(e, known, d)
    requires unit ==> Root(known, d).z == 1
    ensures t'.Below(W54) && Pending(t', known, c', k')
    ensures Joins(known, c', if negative then a - a' else a + a', if negative then b - b' else b + b')
  {
    var r := Refill(t, known, c, k, Root(known, c));
    ghost var d', q := SignedJoins(known, d, a', b', negative);
    t', k' := AddSigned(r, e, negative, unit, Root(known, c), Root(known, d), q);
    c' := AddJoins(known, c, a, b, d', if negative then -a' else a', if negative then -b' else b', q, k');
  }

  lemma SignedJoins(known: seq<Quad>, d: Chain, a: int, b: int, negative: bool) returns (d': Chain, q: Quad)
    requires Joins(known, d, a, b)
    ensures q == Signed(Root(known, d), negative) == Root(known, d')
    ensures Joins(known, d', if negative then -a else a, if negative then -b else b)
  {
    d', q := d, Root(known, d);
    if negative {
      NegativeJoins(known, d, a, b);
      d', q := Negative(d), Opposite(Root(known, d));
    }
  }

  lemma AddJoins(known: seq<Quad>, c: Chain, a: int, b: int, d: Chain, a': int, b': int, q: Quad, k: Quad)
    returns (c': Chain)
    requires Joins(known, c, a, b) && Joins(known, d, a', b') && q == Root(known, d) && Sums(Root(known, c), q, k)
    ensures Root(known, c') == Completes(k) && Joins(known, c', a + a', b + b')
  {
    SumAdds(Root(known, c), q, k, Completes(k));
    c' := PlusJoins(known, c, a, b, d, a', b', Completes(k));
  }

  // abs(d) / 2
  function Index(d: i8): (k: nat)
    requires d as int % 2 == 1
    ensures 2 * k + 1 == if d < 0 then -(d as int) else d as int
  {
    (if d < 0 then -(d as int) else d as int) / 2
  }

  /** The digit of the first scalar, if it is not zero. */
  method FirstDigit(t: Ge, pre: seq<Entry>, d: i8, ghost chains: seq<Chain>, ghost known: seq<Quad>, ghost c: Chain,
                    ghost a: int, ghost b: int, ghost k: Quad)
    returns (t': Ge, ghost c': Chain, ghost k': Quad)
    requires Odd(pre, chains, known, 8) && ScalarMult.ZeroOrOdd(d, 16)
    requires Joins(known, c, a, b) && Pending(t, known, c, k)
    ensures t'.Below(W54) && Pending(t', known, c', k') && Joins(known, c', a + d as int, b)
  {
    t', c', k' := t, c, k;
    if d != 0 {
      var i := Index(d);
      t', c', k' := AddEntry(t, pre[i], d < 0, false, known, c, a, b, k, chains[i], 2 * i + 1, 0);
    }
  }

  lemma TableEntry(table: seq<Entry>, known: seq<Quad>, i: nat) returns (m: Chain)
    requires Points(known) && BaseTable(table, known) && i < 32
    ensures EntryOf(table[i], known, m) && Root(known, m).z == 1 && Joins(known, m, 0, 2 * i + 1)
  {
    m := Known(i + 1);
    MultipleJoins(known, i);
  }

  /** The digit of the second scalar, if it is not zero. */
  method SecondDigit(t: Ge, table: seq<Entry>, d: i8, ghost known: seq<Quad>, ghost c: Chain, ghost a: int,
                     ghost b: int, ghost k: Quad)
    returns (t': Ge, ghost c': Chain, ghost k': Quad)
    requires Points(known) && BaseTable(table, known) && ScalarMult.ZeroOrOdd(d, 64)
    requires Joins(known, c, a, b) && Pending(t, known, c, k)
    ensures t'.Below(W54) && Pending(t', known, c', k') && Joins(known, c', a, b + d as int)
  {
    t', c', k' := t, c, k;
    if d != 0 {
      var i := Index(d);
      ghost var m := TableEntry(table, known, i);
      t', c', k' := AddEntry(t, table[i], d < 0, true, known, c, a, b, k, m, 0, 2 * i + 1);
    }
  }

  /** One pass of the loop: the totals are doubled and the digits added. */
  method JointStep(r: Ge, pre: seq<Entry>, table: seq<Entry>, x: i8, y: i8, ghost chains: seq<Chain>,
                   ghost known: seq<Quad>, ghost c: Chain, ghost a: int, ghost b: int)
    returns (r': Ge, ghost c': Chain)
    requires Points(known) && Odd(pre, chains, known, 8) && BaseTable(table, known)
    requires ScalarMult.ZeroOrOdd(x, 16) && ScalarMult.ZeroOrOdd(y, 64) && Joins(known, c, a, b) && Holding(r, known, c)
    ensures Joins(known, c', 2 * a + x as int, 2 * b + y as int) && Holding(r', known, c') && r'.x.Below(CARRIED)
  {
    var t;
    ghost var k;
    t, c', k := DoubleStep(r, known, c, a, b);
    t, c', k := FirstDigit(t, pre, x, chains, known, c', 2 * a, 2 * b, k);
    t, c', k := SecondDigit(t, table, y, known, c', 2 * a + x as int, 2 * b, k);
    r' := ToPartial(r, t, k.x, k.y, k.z, k.t);
  }

  /** The entries of p1, [3]p1, ..., [15]p1, each from the one before by adding [2]p1. */
  method OddTable(p1: Ge, ghost known: seq<Quad>) returns (pre: seq<Entry>, ghost chains: seq<Chain>)
    requires Points(known) && Made(p1, known, Known(0))
    ensures |pre| == 8 && Odd(pre, chains, known, 8)
  {
    ghost var q := known[0];
    PointJoins(known);
    var d1;
    ghost var double;
    d1, double := DoublePoint(p1, known);
    var e := FromFull(p1, q.x, q.y, q.z, q.t);
    pre, chains := [e], [Known(0)];
    for i := 0 to 7
      invariant |pre| == i + 1 == |chains| && Odd(pre, chains, known, i + 1)
    {
      ghost var c;
      e, c := NextOdd(d1, pre[i], known, double, chains[i], i);
      pre, chains := pre + [e], chains + [c];
    }
  }

  method DoublePoint(p1: Ge, ghost known: seq<Quad>) returns (d1: Ge, ghost c: Chain)
    requires Points(known) && Made(p1, known, Known(0))
    ensures Joins(known, c, 2, 0) && Made(d1, known, c)
  {
    ghost var q := known[0];
    ExtendedOnCurve(q.x, q.y, q.z, q.t);
    ghost var x, y, z, t;
    d1, x, y, z, t := Double(p1, q.x, q.y, q.z, q.t);
    PointJoins(known);
    c := TwiceJoins(known, Known(0), 1, 0, Quad(x, y, z, t));
  }

  method NextOdd(d1: Ge, e: Entry, ghost known: seq<Quad>, ghost double: Chain, ghost c: Chain, ghost i: nat)
    returns (e': Entry, ghost c': Chain)
    requires Joins(known, double, 2, 0) && Made(d1, known, double)
    requires EntryOf(e, known, c) && Joins(known, c, 2 * i + 1, 0)
    ensures e'.Below(W53) && EntryOf(e', known, c') && Joins(known, c', 2 * i + 3, 0)
  {
    ghost var p, q := Root(known, double), Root(known, c);
    ghost var x, y, z, t;
    e', x, y, z, t := PnielsAdd(d1, e, p.x, p.y, p.z, p.t, q.x, q.y, q.z, q.t);
    c' := PlusJoins(known, double, 2, 0, c, 2 * i + 1, 0, Quad(x, y, z, t));
  }

  const ONE: Fe := Fe(1, 0, 0, 0, 0)
  const ZERO: Fe := Fe(0, 0, 0, 0, 0)

  lemma NeutralJoins(known: seq<Quad>)
    ensures Joins(known, Neutral, 0, 0) && Holding(Ge(ZERO, ONE, ONE, ZERO), known, Neutral)
  {
    NeutralOnCurve();
    assert ZERO.Num() == 0 && ONE.Num() == 1;
  }

  /** The loop over both digit strings, from the first position where one of them is not zero. */
  method JointLoop(pre: seq<Entry>, table: seq<Entry>, d1: seq<i8>, d2: seq<i8>, ghost chains: seq<Chain>,
                   ghost known: seq<Quad>)
    returns (r: Ge, ghost c: Chain)
    requires Points(known) && Odd(pre, chains, known, 8) && BaseTable(table, known)
    requires |d1| == |d2| && ScalarMult.WindowDigits(d1, 16) && ScalarMult.WindowDigits(d2, 64)
    ensures r.x.Below(SMALL) && Holding(r, known, c) && Joins(known, c, Eval(2, d1), Eval(2, d2))
  {
    r, c := Ge(ZERO, ONE, ONE, ZERO), Neutral;
    NeutralJoins(known);
    var i := ScalarMult.SkipZeros(d1, d2);
    ghost var a, b := 0, 0;
    while i > 0
      invariant 0 <= i <= |d1| && a == Eval(2, d1[i..]) && b == Eval(2, d2[i..])
      invariant Joins(known, c, a, b) && Holding(r, known, c)
    {
      i := i - 1;
      EvalHead(2, d1, i);
      EvalHead(2, d2, i);
      r, c := JointStep(r, pre, table, d1[i], d2[i], chains, known, c, a, b);
      a, b := 2 * a + d1[i] as int, 2 * b + d2[i] as int;
    }
    assert d1[0..] == d1 && d2[0..] == d2;
  }

  /** ge25519_double_scalarmult_vartime: a point made by the addition law that is [s1]p1 + [s2]B, for all scalars below
      2^255, in limbs that never leave their range. Its t is stale. */
  method DoubleScalarmultVartime(p1: Ge, s1: array<u64>, s2: array<u64>, table: seq<Entry>, ghost known: seq<Quad>)
    returns (r: Ge, ghost c: Chain)
    requires Points(known) && Made(p1, known, Known(0)) && BaseTable(table, known)
    requires ModM.Limbs(s1) && s1[4] < 0x8000_0000 && ModM.Limbs(s2) && s2[4] < 0x8000_0000
    ensures r.x.Below(SMALL) && Holding(r, known, c) && Joins(known, c, ModM.Val(s1), ModM.Val(s2))
  {
    var slide1, slide2 := new i8[256], new i8[256];
    Recoding.SlidingWindow(slide1, s1, 5);
    Recoding.SlidingWindow(slide2, s2, 7);
    var pre;
    ghost var chains;
    pre, chains := OddTable(p1, known);
    assert Pow(2, 4) == 16 && Pow(2, 6) == 64;
    r, c := JointLoop(pre, table, slide1[..], slide2[..], chains, known);
  }

  /** Where the addition law is that of a group, the result is [s1]p + [s2]B. */
  lemma JointReads<T(!new)>(g: Group<T>, phi: Quad -> T, known: seq<Quad>, p: T, base: T, c: Chain, a: int, b: int)
    requires Reads(g, phi) && Joins(known, c, a, b) && KnownAs(g, phi, known, First(), p, Second(), base)
    ensures phi(Root(known, c)) == Joint(g, a, p, b, base)
  {
    ChainReads(g, phi, known, First(), p, Second(), base, c);
  }
}
