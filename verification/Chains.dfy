/** How points are made from known points by the addition law alone, and what that means where the law is the
    addition of a group. */
module Chains {
  import opened Words
  import opened Field25519
  import opened CurveLaw
  import opened Edwards
  import opened Groups

  /** A point as it was made: the neutral point, a known point, a negative, a sum, a double, or a point with all
      coordinates doubled, which leaves it as it is. */
  datatype Chain =
    | Neutral
    | Known(i: nat)
    | Negative(of: Chain)
    | Plus(left: Chain, right: Chain, sum: Quad)
    | Twice(half: Chain, double: Quad)
    | Scaled(same: Chain)

  const NEUTRAL: Quad := Quad(0, 1, 1, 0)

  ghost predicate OnQuad(q: Quad) {
    Extended(q.x, q.y, q.z, q.t)
  }

  ghost function Opposite(q: Quad): Quad {
    Quad(-q.x, q.y, q.z, -q.t)
  }

  ghost function Twofold(q: Quad): Quad {
    Quad(2 * q.x, 2 * q.y, 2 * q.z, 2 * q.t)
  }

  /** q is the sum of a and b, and on the curve. */
  ghost predicate Adds(a: Quad, b: Quad, q: Quad) {
    IsSum(4, a.x, a.y, a.z, b.x, b.y, b.z, q.x, q.y, q.z, q.t) && OnQuad(q)
  }

  /** Every node is what the addition law gives for its parts. */
  ghost predicate Lawful(known: seq<Quad>, c: Chain) {
    match c
    case Neutral => true
    case Known(i) => i < |known|
    case Negative(a) => Lawful(known, a)
    case Plus(a, b, q) => Lawful(known, a) && Lawful(known, b) && Adds(Root(known, a), Root(known, b), q)
    case Twice(a, q) => Lawful(known, a) && Doubles(Root(known, a), q)
    case Scaled(a) => Lawful(known, a)
  }

  /** The point itself. */
  ghost function Root(known: seq<Quad>, c: Chain): Quad {
    match c
    case Neutral => NEUTRAL
    case Known(i) => if i < |known| then known[i] else NEUTRAL
    case Negative(a) => Opposite(Root(known, a))
    case Plus(_, _, q) => q
    case Twice(_, q) => q
    case Scaled(a) => Twofold(Root(known, a))
  }

  /** The total of the weights w of the known points. */
  ghost function Total(w: seq<int>, c: Chain): int {
    match c
    case Neutral => 0
    case Known(i) => if i < |w| then w[i] else 0
    case Negative(a) => -Total(w, a)
    case Plus(a, b, _) => Total(w, a) + Total(w, b)
    case Twice(a, _) => 2 * Total(w, a)
    case Scaled(a) => Total(w, a)
  }

  /** r holds a point on the curve that is made by the law. */
  ghost predicate Made(r: Ge, known: seq<Quad>, c: Chain) {
    && Lawful(known, c) && OnQuad(Root(known, c)) && r.Below(SMALL)
    && var q := Root(known, c); r.Is(q.x, q.y, q.z, q.t)
  }

  /** A sum made by the law. */
  lemma PlusLawful(known: seq<Quad>, w: seq<int>, a: Chain, b: Chain, q: Quad) returns (c: Chain)
    requires Lawful(known, a) && Lawful(known, b) && Adds(Root(known, a), Root(known, b), q)
    ensures Lawful(known, c) && Root(known, c) == q && OnQuad(q) && Total(w, c) == Total(w, a) + Total(w, b)
    ensures c == Plus(a, b, q)
  {
    c := Plus(a, b, q);
  }

  lemma ScaledLawful(known: seq<Quad>, w: seq<int>, a: Chain, q: Quad) returns (c: Chain)
    requires Lawful(known, a) && Root(known, a) == q && OnQuad(q)
    ensures Lawful(known, c) && Root(known, c) == Twofold(q) && OnQuad(Twofold(q)) && Total(w, c) == Total(w, a)
  {
    c := Scaled(a);
    ScaledExtended(2, q.x, q.y, q.z, q.t);
  }

  lemma NeutralOnCurve()
    ensures OnQuad(NEUTRAL)
  {
  }

  lemma OppositeOnCurve(q: Quad)
    requires OnQuad(q)
    ensures OnQuad(Opposite(q))
  {
    CongMul(-1, -1, q.t * q.z, q.x * q.y);
    assert -1 * (q.t * q.z) == -q.t * q.z && -1 * (q.x * q.y) == -q.x * q.y;
    assert -q.x * -q.x == q.x * q.x && -q.t * -q.t == q.t * q.t;
  }

  /** A point with coordinates x/z and y/z. */
  ghost predicate Regular(q: Quad) {
    OnQuad(q) && exists i :: Inverse(q.z, i)
  }

  lemma UnitRegular(q: Quad)
    requires OnQuad(q) && q.z == 1
    ensures Regular(q)
  {
    CongMul(1, 1, 1, 1);
    assert Inverse(q.z, 1);
  }

  lemma OppositeRegular(q: Quad)
    requires Regular(q)
    ensures Regular(Opposite(q))
  {
    OppositeOnCurve(q);
  }

  lemma TwofoldRegular(q: Quad)
    requires Regular(q)
    ensures Regular(Twofold(q))
  {
    var i, half :| Inverse(q.z, i) && half == (P + 1) / 2;
    CongMultiple(2 * half, 1, 1);
    InverseProduct(2, half, q.z, i);
    ScaledExtended(2, q.x, q.y, q.z, q.t);
  }

  /** phi reads coordinates as elements of a group: the addition law is complete and is the addition of the group,
      negatives are negatives, and coordinates may be scaled. */
  ghost predicate Reads<T(!new)>(g: Group<T>, phi: Quad -> T) {
    && Abelian(g) && phi(NEUTRAL) == g.zero
    && (forall a, b, q {:trigger Adds(a, b, q)} ::
          Regular(a) && Regular(b) && Adds(a, b, q) ==> Regular(q) && phi(q) == g.add(phi(a), phi(b)))
    && (forall a, q {:trigger Doubles(a, q)} ::
          Regular(a) && Doubles(a, q) ==> Regular(q) && phi(q) == g.add(phi(a), phi(a)))
    && (forall a {:trigger Opposite(a)} :: Regular(a) ==> phi(Opposite(a)) == g.neg(phi(a)))
    && (forall a {:trigger Twofold(a)} :: Regular(a) ==> phi(Twofold(a)) == phi(a))
  }

  /** The known points are [v]p + [w]q. */
  ghost predicate KnownAs<T(!new)>(g: Group<T>, phi: Quad -> T, known: seq<Quad>, v: seq<int>, p: T, w: seq<int>,
                                   q: T) {
    && |known| == |v| == |w|
    && forall i :: 0 <= i < |known| ==> Regular(known[i]) && phi(known[i]) == Joint(g, v[i], p, w[i], q)
  }

  /** [a]p + [b]q */
  ghost function Joint<T>(g: Group<T>, a: int, p: T, b: int, q: T): T {
    g.add(Groups.Mul(g, a, p), Groups.Mul(g, b, q))
  }

  lemma JointAdd<T(!new)>(g: Group<T>, a: int, b: int, a': int, b': int, p: T, q: T)
    requires Abelian(g)
    ensures g.add(Joint(g, a, p, b, q), Joint(g, a', p, b', q)) == Joint(g, a + a', p, b + b', q)
  {
    Groups.MulAdd(g, a, a', p);
    Groups.MulAdd(g, b, b', q);
    Interchange(g, Groups.Mul(g, a, p), Groups.Mul(g, b, q), Groups.Mul(g, a', p), Groups.Mul(g, b', q));
  }

  lemma JointNeg<T(!new)>(g: Group<T>, a: int, b: int, p: T, q: T)
    requires Abelian(g)
    ensures g.neg(Joint(g, a, p, b, q)) == Joint(g, -a, p, -b, q)
  {
    NegSum(g, Groups.Mul(g, a, p), Groups.Mul(g, b, q));
    MulNeg(g, a, p);
    MulNeg(g, b, q);
  }

  /** A point made by the law is, as a group element, the combination that its totals say. */
  lemma {:induction false} ChainReads<T(!new)>(g: Group<T>, phi: Quad -> T, known: seq<Quad>, v: seq<int>, p: T,
                                               w: seq<int>, q: T, c: Chain)
    requires Reads(g, phi) && KnownAs(g, phi, known, v, p, w, q) && Lawful(known, c)
    ensures Regular(Root(known, c)) && phi(Root(known, c)) == Joint(g, Total(v, c), p, Total(w, c), q)
    decreases c, 2
  {
    if c.Plus? {
      PlusReads(g, phi, known, v, p, w, q, c);
    } else if c.Neutral? || c.Known? {
      LeafReads(g, phi, known, v, p, w, q, c);
    } else {
      UnaryReads(g, phi, known, v, p, w, q, c);
    }
  }

  lemma LeafReads<T(!new)>(g: Group<T>, phi: Quad -> T, known: seq<Quad>, v: seq<int>, p: T, w: seq<int>, q: T,
                           c: Chain)
    requires Reads(g, phi) && KnownAs(g, phi, known, v, p, w, q) && Lawful(known, c) && (c.Neutral? || c.Known?)
    ensures Regular(Root(known, c)) && phi(Root(known, c)) == Joint(g, Total(v, c), p, Total(w, c), q)
  {
    if c.Neutral? {
      NeutralReads(g, phi, p, q);
    } else {
      KnownReads(g, phi, known, v, p, w, q, c.i);
    }
  }

  lemma {:induction false} PlusReads<T(!new)>(g: Group<T>, phi: Quad -> T, known: seq<Quad>, v: seq<int>, p: T,
                                              w: seq<int>, q: T, c: Chain)
    requires Reads(g, phi) && KnownAs(g, phi, known, v, p, w, q) && Lawful(known, c) && c.Plus?
    ensures Regular(Root(known, c)) && phi(Root(known, c)) == Joint(g, Total(v, c), p, Total(w, c), q)
    decreases c, 1
  {
    var a, b, m, m', n, n' := PartsRead(g, phi, known, v, p, w, q, c);
    SumReads(g, phi, a, b, c.sum, m, m', Total(v, c), p, n, n', Total(w, c), q);
  }

  lemma {:induction false} PartsRead<T(!new)>(g: Group<T>, phi: Quad -> T, known: seq<Quad>, v: seq<int>, p: T,
                                              w: seq<int>, q: T, c: Chain)
    returns (a: Quad, b: Quad, m: int, m': int, n: int, n': int)
    requires Reads(g, phi) && KnownAs(g, phi, known, v, p, w, q) && Lawful(known, c) && c.Plus?
    ensures Regular(a) && Regular(b) && Adds(a, b, c.sum)
    ensures phi(a) == Joint(g, m, p, n, q) && phi(b) == Joint(g, m', p, n', q)
    ensures Total(v, c) == m + m' && Total(w, c) == n + n'
    decreases c, 0
  {
    ChainReads(g, phi, known, v, p, w, q, c.left);
    ChainReads(g, phi, known, v, p, w, q, c.right);
    a, m, n := Root(known, c.left), Total(v, c.left), Total(w, c.left);
    b, m', n' := Root(known, c.right), Total(v, c.right), Total(w, c.right);
  }

  lemma {:induction false} UnaryReads<T(!new)>(g: Group<T>, phi: Quad -> T, known: seq<Quad>, v: seq<int>, p: T,
                                               w: seq<int>, q: T, c: Chain)
    requires Reads(g, phi) && KnownAs(g, phi, known, v, p, w, q) && Lawful(known, c)
    requires c.Negative? || c.Twice? || c.Scaled?
    ensures Regular(Root(known, c)) && phi(Root(known, c)) == Joint(g, Total(v, c), p, Total(w, c), q)
    decreases c, 0
  {
    var a := match c case Negative(a) => a case Twice(a, _) => a case Scaled(a) => a;
    ChainReads(g, phi, known, v, p, w, q, a);
    var m, n := Total(v, a), Total(w, a);
    if c.Negative? {
      OppositeReads(g, phi, Root(known, a), m, p, n, q);
    } else if c.Twice? {
      DoubleReads(g, phi, Root(known, a), c.double, m, p, n, q);
    } else {
      TwofoldReads(g, phi, Root(known, a));
    }
  }

  lemma KnownReads<T(!new)>(g: Group<T>, phi: Quad -> T, known: seq<Quad>, v: seq<int>, p: T, w: seq<int>, q: T, i: nat)
    requires KnownAs(g, phi, known, v, p, w, q) && i < |known|
    ensures Regular(known[i]) && phi(known[i]) == Joint(g, v[i], p, w[i], q)
  {
  }

  lemma NeutralReads<T(!new)>(g: Group<T>, phi: Quad -> T, p: T, q: T)
    requires Reads(g, phi)
    ensures Regular(NEUTRAL) && phi(NEUTRAL) == Joint(g, 0, p, 0, q)
  {
    NeutralOnCurve();
    UnitRegular(NEUTRAL);
    Units(g, g.zero);
  }

  lemma OppositeReads<T(!new)>(g: Group<T>, phi: Quad -> T, a: Quad, m: int, p: T, n: int, q: T)
    requires Reads(g, phi) && Regular(a) && phi(a) == Joint(g, m, p, n, q)
    ensures Regular(Opposite(a)) && phi(Opposite(a)) == Joint(g, -m, p, -n, q)
  {
    OppositeRegular(a);
    JointNeg(g, m, n, p, q);
  }

  lemma SumReads<T(!new)>(g: Group<T>, phi: Quad -> T, a: Quad, b: Quad, s: Quad, m: int, m': int, x: int, p: T, n: int,
                          n': int, y: int, q: T)
    requires Reads(g, phi) && Regular(a) && Regular(b) && Adds(a, b, s) && x == m + m' && y == n + n'
    requires phi(a) == Joint(g, m, p, n, q) && phi(b) == Joint(g, m', p, n', q)
    ensures Regular(s) && phi(s) == Joint(g, x, p, y, q)
  {
    JointAdd(g, m, n, m', n', p, q);
  }

  lemma DoubleReads<T(!new)>(g: Group<T>, phi: Quad -> T, a: Quad, s: Quad, m: int, p: T, n: int, q: T)
    requires Reads(g, phi) && Regular(a) && Doubles(a, s) && phi(a) == Joint(g, m, p, n, q)
    ensures Regular(s) && phi(s) == Joint(g, 2 * m, p, 2 * n, q)
  {
    JointAdd(g, m, n, m, n, p, q);
  }

  lemma TwofoldReads<T(!new)>(g: Group<T>, phi: Quad -> T, a: Quad)
    requires Reads(g, phi) && Regular(a)
    ensures Regular(Twofold(a)) && phi(Twofold(a)) == phi(a)
  {
    TwofoldRegular(a);
  }
}
