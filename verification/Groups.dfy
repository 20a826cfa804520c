/** Abelian groups, standing for the points of the curve, and integer multiples in them. */
module Groups {
  import opened Words

  datatype Group<!T> = Group(zero: T, add: (T, T) -> T, neg: T -> T)

  // The laws are instantiated only where Terms names the elements.
  ghost predicate Terms<T>(a: T, b: T, c: T) {
    true
  }

  ghost predicate Abelian<T(!new)>(g: Group<T>) {
    forall a, b, c {:trigger Terms(a, b, c)} ::
      Terms(a, b, c) ==>
        && g.add(g.add(a, b), c) == g.add(a, g.add(b, c))
        && g.add(a, b) == g.add(b, a)
        && g.add(a, g.zero) == a
        && g.add(a, g.neg(a)) == g.zero
  }

  lemma Assoc<T(!new)>(g: Group<T>, a: T, b: T, c: T)
    requires Abelian(g)
    ensures g.add(g.add(a, b), c) == g.add(a, g.add(b, c))
  {
    assert Terms(a, b, c);
  }

  lemma Comm<T(!new)>(g: Group<T>, a: T, b: T)
    requires Abelian(g)
    ensures g.add(a, b) == g.add(b, a)
  {
    assert Terms(a, b, b);
  }

  lemma Units<T(!new)>(g: Group<T>, a: T)
    requires Abelian(g)
    ensures g.add(a, g.zero) == a && g.add(g.zero, a) == a
    ensures g.add(a, g.neg(a)) == g.zero && g.add(g.neg(a), a) == g.zero
  {
    assert Terms(a, g.zero, g.zero);
    Comm(g, g.zero, a);
    Comm(g, a, g.neg(a));
  }

  /** (a + b) + (c + d) = (a + c) + (b + d) */
  lemma Interchange<T(!new)>(g: Group<T>, a: T, b: T, c: T, d: T)
    requires Abelian(g)
    ensures g.add(g.add(a, b), g.add(c, d)) == g.add(g.add(a, c), g.add(b, d))
  {
    Assoc(g, a, b, g.add(c, d));
    Assoc(g, b, c, d);
    Comm(g, b, c);
    Assoc(g, c, b, d);
    Assoc(g, a, c, g.add(b, d));
  }

  lemma CancelRight<T(!new)>(g: Group<T>, a: T, b: T)
    requires Abelian(g)
    ensures g.add(g.add(a, b), g.neg(b)) == a && g.add(g.add(a, g.neg(b)), b) == a
  {
    Assoc(g, a, b, g.neg(b));
    Assoc(g, a, g.neg(b), b);
    Units(g, b);
    Units(g, a);
  }

  lemma NegUnique<T(!new)>(g: Group<T>, a: T, b: T)
    requires Abelian(g) && g.add(a, b) == g.zero
    ensures b == g.neg(a)
  {
    CancelRight(g, b, a);
    Comm(g, b, a);
    Units(g, g.neg(a));
  }

  function Times<T>(g: Group<T>, n: nat, p: T): T {
    if n == 0 then g.zero else g.add(Times(g, n - 1, p), p)
  }

  /** [n]p for any integer n. */
  function Mul<T>(g: Group<T>, n: int, p: T): T {
    if n >= 0 then Times(g, n, p) else g.neg(Times(g, -n, p))
  }

  lemma MulSucc<T(!new)>(g: Group<T>, n: int, p: T)
    requires Abelian(g)
    ensures Mul(g, n + 1, p) == g.add(Mul(g, n, p), p)
    ensures Mul(g, n - 1, p) == g.add(Mul(g, n, p), g.neg(p))
  {
    MulUp(g, n, p);
    MulUp(g, n - 1, p);
    CancelRight(g, Mul(g, n - 1, p), p);
  }

  lemma MulUp<T(!new)>(g: Group<T>, n: int, p: T)
    requires Abelian(g)
    ensures Mul(g, n + 1, p) == g.add(Mul(g, n, p), p)
  {
    if n < 0 {
      var a := Times(g, -n - 1, p);
      NegSum(g, a, p);
      CancelRight(g, g.neg(a), p);
      if n == -1 {
        Units(g, g.zero);
        NegUnique(g, g.zero, g.zero);
      }
    }
  }

  lemma NegSum<T(!new)>(g: Group<T>, a: T, b: T)
    requires Abelian(g)
    ensures g.neg(g.add(a, b)) == g.add(g.neg(a), g.neg(b))
  {
    Interchange(g, a, b, g.neg(a), g.neg(b));
    Units(g, a);
    Units(g, b);
    Units(g, g.zero);
    NegUnique(g, g.add(a, b), g.add(g.neg(a), g.neg(b)));
  }

  lemma {:induction false} MulAdd<T(!new)>(g: Group<T>, m: int, n: int, p: T)
    requires Abelian(g)
    ensures Mul(g, m + n, p) == g.add(Mul(g, m, p), Mul(g, n, p))
    decreases if n < 0 then -n else n
  {
    if n == 0 {
      Units(g, Mul(g, m, p));
    } else {
      var k, q := if n > 0 then n - 1 else n + 1, if n > 0 then p else g.neg(p);
      MulAdd(g, m, k, p);
      MulSucc(g, m + k, p);
      MulSucc(g, k, p);
      Assoc(g, Mul(g, m, p), Mul(g, k, p), q);
    }
  }

  lemma MulNeg<T(!new)>(g: Group<T>, n: int, p: T)
    requires Abelian(g)
    ensures Mul(g, -n, p) == g.neg(Mul(g, n, p))
  {
    MulAdd(g, n, -n, p);
    NegUnique(g, Mul(g, n, p), Mul(g, -n, p));
  }

  lemma {:induction false} MulSum<T(!new)>(g: Group<T>, n: nat, p: T, q: T)
    requires Abelian(g)
    ensures Mul(g, n, g.add(p, q)) == g.add(Mul(g, n, p), Mul(g, n, q))
  {
    if n == 0 {
      Units(g, g.zero);
    } else {
      MulSum(g, n - 1, p, q);
      Interchange(g, Mul(g, n - 1, p), Mul(g, n - 1, q), p, q);
    }
  }

  lemma {:induction false} MulMul<T(!new)>(g: Group<T>, m: nat, n: int, p: T)
    requires Abelian(g)
    ensures Mul(g, m, Mul(g, n, p)) == Mul(g, m * n, p)
  {
    if m == 0 {
      assert m * n == 0;
    } else {
      MulMul(g, m - 1, n, p);
      MulAdd(g, (m - 1) * n, n, p);
      assert (m - 1) * n + n == m * n;
    }
  }

  lemma MulOne<T(!new)>(g: Group<T>, p: T)
    requires Abelian(g)
    ensures Mul(g, 1, p) == p && Mul(g, 2, p) == g.add(p, p)
  {
    Units(g, p);
    assert Times(g, 1, p) == g.add(Times(g, 0, p), p);
  }

  /** Multiples of a point of order m depend only on the multiplier modulo m. */
  lemma MulMod<T(!new)>(g: Group<T>, n: int, m: nat, p: T)
    requires Abelian(g) && m > 0 && Mul(g, m, p) == g.zero
    ensures Mul(g, n, p) == Mul(g, n % m, p)
  {
    var q := n / m;
    assert n == q * m + n % m;
    MulAdd(g, q * m, n % m, p);
    ZeroMultiple(g, q, m, p);
    Units(g, Mul(g, n % m, p));
  }

  lemma ZeroMultiple<T(!new)>(g: Group<T>, q: int, m: nat, p: T)
    requires Abelian(g) && Mul(g, m, p) == g.zero
    ensures Mul(g, q * m, p) == g.zero
  {
    var k := if q < 0 then -q else q;
    MulMul(g, k, m, p);
    MulZero(g, k);
    if q < 0 {
      assert q * m == -(k * m);
      MulNeg(g, k * m, p);
      Units(g, g.zero);
      NegUnique(g, g.zero, g.zero);
    }
  }

  lemma {:induction false} MulZero<T(!new)>(g: Group<T>, n: nat)
    requires Abelian(g)
    ensures Mul(g, n, g.zero) == g.zero
  {
    if n > 0 {
      MulZero(g, n - 1);
      Units(g, g.zero);
    }
  }

  ghost predicate ZeroAt<T>(g: Group<T>, m: nat, p: T, n: int)
    requires m > 0
  {
    Mul(g, n, p) == g.zero <==> n % m == 0
  }

  /** p has order exactly m. */
  ghost predicate HasOrder<T>(g: Group<T>, m: nat, p: T) {
    m > 0 && forall n: int :: ZeroAt(g, m, p, n)
  }

  /** [x]p = [y]p exactly when x and y agree modulo the order. */
  lemma SameMultiple<T(!new)>(g: Group<T>, m: nat, p: T, x: int, y: int)
    requires Abelian(g) && HasOrder(g, m, p)
    ensures Mul(g, x, p) == Mul(g, y, p) <==> (x - y) % m == 0
  {
    assert ZeroAt(g, m, p, x - y);
    MulAdd(g, x - y, y, p);
    Units(g, Mul(g, y, p));
    if Mul(g, x, p) == Mul(g, y, p) {
      CancelRight(g, Mul(g, x - y, p), Mul(g, y, p));
    }
  }
}
