/** The addition law of the curve -x^2 + y^2 = 1 + d*x^2*y^2 on projective and extended coordinates, for
    integers modulo p = 2^255 - 19. */
module CurveLaw {
  import opened Words
  import opened Field25519

  /** d = -121665/121666 */
  ghost predicate IsD(d: int) {
    Cong(121666 * d, -121665)
  }

  lemma DExists()
    ensures exists d :: IsD(d)
  {
    var d := 0x52036cee2b6ffe738cc740797779e89800700a4d4141d8ab75eb4dca135978a3;
    CongMod(121666 * d, -121665);
    assert IsD(d);
  }

  /** The parameter of the curve. Which representative it is does not matter, so that the solver never computes
      with one. */
  ghost function D(): (d: int)
    ensures IsD(d)
  {
    DExists();
    var d :| IsD(d);
    d
  }

  /** The equation determines d, since d + 1 is the inverse of 121666. */
  lemma DUnique(e: int)
    requires IsD(e)
    ensures Cong(e, D())
  {
    var d := D();
    CongAdd(121666 * e, -121665, 121666, 121666);
    CongAdd(121666 * d, -121665, 121666, 121666);
    CongMul(121666 * (e + 1), 1, d + 1, d + 1);
    CongMul(e + 1, e + 1, 121666 * (d + 1), 1);
    assert (e + 1) * (121666 * (d + 1)) == 121666 * (e + 1) * (d + 1);
    CongAdd(e + 1, d + 1, 1, 1);
  }

  /** The addition law, cleared of denominators: with z = z1*z2 and k = d*x1*y1*x2*y2, the point p + q has
      x3/z3 = z*(x1*y2 + y1*x2)/(z^2 + k) and y3/z3 = z*(y1*y2 + x1*x2)/(z^2 - k), and z3 itself is the product
      of the denominators over z^2, times c. */
  ghost predicate IsSum(c: int, x1: int, y1: int, z1: int, x2: int, y2: int, z2: int,
                        x3: int, y3: int, z3: int, t3: int) {
    var z, k := z1 * z2, D() * (x1 * y1 * (x2 * y2));
    && Cong(x3 * (z * z + k), z3 * (z * (x1 * y2 + y1 * x2)))
    && Cong(y3 * (z * z - k), z3 * (z * (y1 * y2 + x1 * x2)))
    && Cong(z * z * z3, c * ((z * z + k) * (z * z - k)))
    && Cong(t3 * z3, x3 * y3)
  }

  /** A point of the curve in extended coordinates: t = x*y/z and y^2 - x^2 = z^2 + d*t^2. */
  ghost predicate Extended(x: int, y: int, z: int, t: int) {
    Cong(t * z, x * y) && Cong(y * y - x * x, z * z + D() * (t * t))
  }

  /** The curve equation in projective form. */
  ghost predicate OnCurve(x: int, y: int, z: int) {
    Cong((y * y - x * x) * (z * z), z * z * (z * z) + D() * (x * y * (x * y)))
  }

  lemma AdditionLaw(x1: int, y1: int, z1: int, t1: int, x2: int, y2: int, z2: int, t2: int,
                    e: int, h: int, g: int, f: int, x3: int, y3: int, z3: int, t3: int)
    requires Cong(t1 * z1, x1 * y1) && Cong(t2 * z2, x2 * y2)
    requires Cong(e, 2 * (x1 * y2 + y1 * x2)) && Cong(h, 2 * (y1 * y2 + x1 * x2))
    requires Cong(g, 2 * (z1 * z2 + D() * (t1 * t2))) && Cong(f, 2 * (z1 * z2 - D() * (t1 * t2)))
    requires Cong(x3, e * f) && Cong(y3, h * g) && Cong(z3, g * f) && Cong(t3, e * h)
    ensures IsSum(4, x1, y1, z1, x2, y2, z2, x3, y3, z3, t3)
  {
    var z, k, w := z1 * z2, D() * (x1 * y1 * (x2 * y2)), D() * (t1 * t2);
    var n, m := x1 * y2 + y1 * x2, y1 * y2 + x1 * x2;
    ProductOfTs(x1, y1, z1, t1, x2, y2, z2, t2);
    CrossMultiply(2, n, z + w, z, e, g, f, x3, z3);
    CrossMultiply(2, m, z - w, z, h, f, g, y3, z3);
    ClearedDenominator(z, w, k, x3);
    ClearedDenominator(z, -w, -k, y3);
    Denominator(2, z, w, k, g, f, z3);
    CrossProducts(e, h, g, f, x3, y3, z3, t3);
  }

  /** z3 = g*f with g = c*(z + w), f = c*(z - w) and z*w = k gives z^2*z3 = c^2*(z^2 + k)*(z^2 - k). */
  lemma Denominator(c: int, z: int, w: int, k: int, g: int, f: int, z3: int)
    requires Cong(z * w, k) && Cong(g, c * (z + w)) && Cong(f, c * (z - w)) && Cong(z3, g * f)
    ensures Cong(z * z * z3, c * c * ((z * z + k) * (z * z - k)))
  {
    CongMul(g, c * (z + w), f, c * (z - w));
    CongMul(z * z, z * z, z3, c * (z + w) * (c * (z - w)));
    CongAdd(z * z, z * z, z * w, k);
    CongMul(z * z + z * w, z * z + k, z * z - z * w, z * z - k);
    CongMul(c * c, c * c, (z * z + z * w) * (z * z - z * w), (z * z + k) * (z * z - k));
    DenominatorIdentity(c, z, w);
  }

  lemma DenominatorIdentity(c: int, z: int, w: int)
    ensures z * z * (c * (z + w) * (c * (z - w))) == c * c * ((z * z + z * w) * (z * z - z * w))
  {
    var a, b := z + w, z - w;
    assert z * z + z * w == z * a && z * z - z * w == z * b;
    assert z * z * (c * a * (c * b)) == c * c * (z * a * (z * b));
  }

  lemma ProductOfTs(x1: int, y1: int, z1: int, t1: int, x2: int, y2: int, z2: int, t2: int)
    requires Cong(t1 * z1, x1 * y1) && Cong(t2 * z2, x2 * y2)
    ensures Cong(z1 * z2 * (D() * (t1 * t2)), D() * (x1 * y1 * (x2 * y2)))
    ensures Cong(z1 * z2 * -(D() * (t1 * t2)), -(D() * (x1 * y1 * (x2 * y2))))
  {
    CongMul(t1 * z1, x1 * y1, t2 * z2, x2 * y2);
    CongMul(D(), D(), t1 * z1 * (t2 * z2), x1 * y1 * (x2 * y2));
    Rearrange(z1, z2, t1, t2);
    CongAdd(0, 0, z1 * z2 * (D() * (t1 * t2)), D() * (x1 * y1 * (x2 * y2)));
    assert z1 * z2 * -(D() * (t1 * t2)) == -(z1 * z2 * (D() * (t1 * t2)));
  }

  lemma Rearrange(z1: int, z2: int, t1: int, t2: int)
    ensures z1 * z2 * (D() * (t1 * t2)) == D() * (t1 * z1 * (t2 * z2))
  {
    var a, b := z1 * z2, t1 * t2;
    assert t1 * z1 * (t2 * z2) == a * b by {
      MulAssoc(t1, z1, t2 * z2);
      MulAssoc(z1, t2, z2);
      MulAssoc(t2, z1, z2);
      MulAssoc(t1, t2, a);
    }
    MulAssoc(a, D(), b);
    MulAssoc(D(), a, b);
  }

  lemma ClearedDenominator(z: int, w: int, k: int, x: int)
    requires Cong(z * w, k)
    ensures Cong(x * (z * (z + w)), x * (z * z + k))
  {
    MulDist(z, z, w);
    CongAdd(z * z, z * z, z * w, k);
    CongMul(x, x, z * (z + w), z * z + k);
  }

  lemma CrossProducts(e: int, h: int, g: int, f: int, x: int, y: int, z: int, t: int)
    requires Cong(x, e * f) && Cong(y, h * g) && Cong(z, g * f) && Cong(t, e * h)
    ensures Cong(t * z, x * y)
  {
    CongMul(t, e * h, z, g * f);
    CongMul(x, e * f, y, h * g);
    assert e * h * (g * f) == e * f * (h * g) by {
      MulAssoc(e * h, g, f);
      MulAssoc(e * f, h, g);
      assert e * h * g * f == e * f * h * g;
    }
  }

  /** x3 = e*f and z3 = g*f with e = c*n and g = c*u give x3*(z*u) = z3*(z*n). */
  lemma CrossMultiply(c: int, n: int, u: int, z: int, e: int, g: int, f: int, x3: int, z3: int)
    requires Cong(e, c * n) && Cong(g, c * u) && Cong(x3, e * f) && Cong(z3, g * f)
    ensures Cong(x3 * (z * u), z3 * (z * n))
  {
    CongMul(e, c * n, f, f);
    CongMul(g, c * u, f, f);
    CongMul(x3, c * n * f, z * u, z * u);
    CongMul(z3, c * u * f, z * n, z * n);
    CrossIdentity(c, n, u, z, f);
  }

  lemma CrossIdentity(c: int, n: int, u: int, z: int, f: int)
    ensures c * n * f * (z * u) == c * u * f * (z * n)
  {
  }

  lemma SquareOfSum(x: int, y: int)
    ensures (x + y) * (x + y) == x * x + 2 * (x * y) + y * y
  {
  }

  /** The doubling formulas satisfy the addition law, coordinate by coordinate; z is z1^2. */
  lemma DoublingX(x1: int, y1: int, z: int, k: int, u: int, e: int, g: int, f: int, x3: int, z3: int)
    requires Cong(u * z, z * z + k) && Cong(e, 2 * (x1 * y1)) && Cong(g, u) && Cong(x3, e * f) && Cong(z3, g * f)
    ensures Cong(x3 * (z * z + k), z3 * (z * (2 * (x1 * y1))))
  {
    CrossMultiply(1, 2 * (x1 * y1), u, z, e, g, f, x3, z3);
    CongMul(x3, x3, z * u, z * z + k);
  }

  lemma DoublingY(m: int, z: int, k: int, u: int, h: int, g: int, f: int, y3: int, z3: int)
    requires Cong(u * z, z * z + k) && Cong(h, m) && Cong(f, 2 * z - u) && Cong(y3, h * g) && Cong(z3, g * f)
    ensures Cong(y3 * (z * z - k), z3 * (z * m))
  {
    CongAdd(2 * (z * z), 2 * (z * z), u * z, z * z + k);
    TwiceSquare(z, u);
    CrossMultiply(1, m, 2 * z - u, z, h, f, g, y3, z3);
    CongMul(y3, y3, z * (2 * z - u), z * z - k);
  }

  lemma DoublingZ(z: int, k: int, u: int, g: int, f: int, z3: int)
    requires Cong(u * z, z * z + k) && Cong(g, u) && Cong(f, 2 * z - u) && Cong(z3, g * f)
    ensures Cong(z * z * z3, (z * z + k) * (z * z - k))
  {
    CongAdd(u * z, z * z + k, z * z, z * z);
    assert z * (u - z) == u * z - z * z;
    Denominator(1, z, u - z, k, g, f, z3);
  }

  lemma TwiceSquare(z: int, u: int)
    ensures z * (2 * z - u) == 2 * (z * z) - u * z
  {
  }

  lemma DoublingLaw(x1: int, y1: int, z1: int, e: int, h: int, g: int, f: int, x3: int, y3: int, z3: int, t3: int)
    requires OnCurve(x1, y1, z1)
    requires Cong(e, 2 * (x1 * y1)) && Cong(h, y1 * y1 + x1 * x1) && Cong(g, y1 * y1 - x1 * x1)
    requires Cong(f, 2 * (z1 * z1) - (y1 * y1 - x1 * x1))
    requires Cong(x3, e * f) && Cong(y3, h * g) && Cong(z3, g * f) && Cong(t3, e * h)
    ensures IsSum(1, x1, y1, z1, x1, y1, z1, x3, y3, z3, t3)
  {
    var z, k, u := z1 * z1, D() * (x1 * y1 * (x1 * y1)), y1 * y1 - x1 * x1;
    DoublingX(x1, y1, z, k, u, e, g, f, x3, z3);
    DoublingY(y1 * y1 + x1 * x1, z, k, u, h, g, f, y3, z3);
    DoublingZ(z, k, u, g, f, z3);
    CrossProducts(e, h, g, f, x3, y3, z3, t3);
    assert x1 * y1 + y1 * x1 == 2 * (x1 * y1);
  }

  /** Products of the coordinates of a sum, from the squares and products of the operands. */
  lemma SumProducts(x1: int, y1: int, x2: int, y2: int)
    ensures var e, h := x1 * y2 + y1 * x2, y1 * y2 + x1 * x2;
            && e * h == x1 * y1 * (y2 * y2 + x2 * x2) + x2 * y2 * (y1 * y1 + x1 * x1)
            && h * h - e * e == (y1 * y1 - x1 * x1) * (y2 * y2 - x2 * x2)
            && h * h + e * e == (y1 * y1 + x1 * x1) * (y2 * y2 + x2 * x2) + 4 * (x1 * y1 * (x2 * y2))
  {
  }

  /** With the coordinates e*f, h*g, g*f and e*h, where g = z + w and f = z - w, both sides of the curve
      equation in terms of h^2 - e^2, h^2 + e^2 and e*h. */
  lemma CurveSides(e: int, h: int, z: int, w: int)
    ensures var g, f := z + w, z - w;
            && h * g * (h * g) - e * f * (e * f)
               == 2 * (z * w) * (h * h + e * e) + (z * z + w * w) * (h * h - e * e)
            && g * f * (g * f) == (z * z - w * w) * (z * z - w * w)
  {
    var g, f, hh, ee := z + w, z - w, h * h, e * e;
    assert h * g * (h * g) == hh * (g * g) && e * f * (e * f) == ee * (f * f);
    assert g * g == z * z + 2 * (z * w) + w * w && f * f == z * z - 2 * (z * w) + w * w;
    assert g * f == z * z - w * w;
  }

  /** The sum of two squares, squared. */
  lemma SumSquared(x: int, y: int, z: int, t: int)
    requires Extended(x, y, z, t)
    ensures var s, c, p := y * y + x * x, z * z + D() * (t * t), t * z; Cong(s * s, c * c + 4 * (p * p))
  {
    var u, m := y * y - x * x, x * y;
    CongMul(u, z * z + D() * (t * t), u, z * z + D() * (t * t));
    CongMul(m, t * z, m, t * z);
    CongMul(4, 4, m * m, t * z * (t * z));
    CongAdd(u * u, (z * z + D() * (t * t)) * (z * z + D() * (t * t)), 4 * (m * m), 4 * (t * z * (t * z)));
    SquareSplit(x, y);
  }

  lemma SquareSplit(x: int, y: int)
    ensures (y * y + x * x) * (y * y + x * x) == (y * y - x * x) * (y * y - x * x) + 4 * (x * y * (x * y))
  {
    var a, b := y * y, x * x;
    assert x * y * (x * y) == a * b;
    assert (a + b) * (a + b) == (a - b) * (a - b) + 4 * (a * b);
  }

  /** The left-hand side of the curve equation for a sum, free of x and y but for the product s of
      y1^2 + x1^2 and y2^2 + x2^2. */
  lemma LeftSide(zw: int, ss: int, m: int, n: int, p: int, q: int, r: int, a: int, b: int, c: int, d: int)
    requires Cong(m, p) && Cong(n, q) && Cong(a, c) && Cong(b, d)
    ensures Cong(2 * zw * (ss + 4 * (m * n)) + r * (a * b), 2 * zw * (ss + 4 * (p * q)) + r * (c * d))
  {
    CongMul(m, p, n, q);
    CongMul(4, 4, m * n, p * q);
    CongAdd(ss, ss, 4 * (m * n), 4 * (p * q));
    CongMul(2 * zw, 2 * zw, ss + 4 * (m * n), ss + 4 * (p * q));
    CongMul(a, c, b, d);
    CongMul(r, r, a * b, c * d);
    CongAdd(2 * zw * (ss + 4 * (m * n)), 2 * zw * (ss + 4 * (p * q)), r * (a * b), r * (c * d));
  }

  /** The square of m*b + n*a likewise, with a^2 and b^2 given. */
  lemma RightSquare(m: int, n: int, a: int, b: int, p: int, q: int, aa: int, bb: int)
    requires Cong(m, p) && Cong(n, q) && Cong(a * a, aa) && Cong(b * b, bb)
    ensures Cong((m * b + n * a) * (m * b + n * a), p * p * bb + q * q * aa + 2 * (p * q) * (a * b))
  {
    CongMul(m, p, b, b);
    CongMul(n, q, a, a);
    CongAdd(m * b, p * b, n * a, q * a);
    CongMul(m * b + n * a, p * b + q * a, m * b + n * a, p * b + q * a);
    CrossSquare(p, q, a, b);
    CongMul(p * p, p * p, b * b, bb);
    CongMul(q * q, q * q, a * a, aa);
    CongAdd(p * p * (b * b), p * p * bb, q * q * (a * a), q * q * aa);
    CongAdd(p * p * (b * b) + q * q * (a * a), p * p * bb + q * q * aa, 2 * (p * q) * (a * b), 2 * (p * q) * (a * b));
  }

  lemma CrossSquare(p: int, q: int, a: int, b: int)
    ensures (p * b + q * a) * (p * b + q * a) == p * p * (b * b) + q * q * (a * a) + 2 * (p * q) * (a * b)
  {
    SquareOfSum(p * b, q * a);
    PairProduct(p, b, p, b);
    PairProduct(q, a, q, a);
    PairProduct(p, b, q, a);
  }

  /** The two sides agree: a and a' stand for z1^2 and z2^2, b and b' for d*t1^2 and d*t2^2. */
  lemma SidesAgree(a: int, b: int, a': int, b': int)
    ensures var c, c' := a + b, a' + b';
            (a * a' + b * b') * (c * c')
            == (a * a' - b * b') * (a * a' - b * b') + a * b * (c' * c') + a' * b' * (c * c)
  {
    var c, c', u, v, r, s := a + b, a' + b', a * a', b * b', a * b', b * a';
    assert r * s == u * v;
    assert a * c' == u + r && b * c' == s + v && a' * c == u + s && b' * c == r + v;
    FourProducts(a, b, c');
    FourProducts(a', b', c);
    assert c * c' == u + r + s + v;
    FourTerms(u, v, r, s);
  }

  lemma FourProducts(a: int, b: int, c: int)
    ensures a * b * (c * c) == a * c * (b * c)
  {
  }

  lemma FourTerms(u: int, v: int, r: int, s: int)
    requires r * s == u * v
    ensures (u + v) * (u + r + s + v) == (u - v) * (u - v) + (u + r) * (s + v) + (u + s) * (r + v)
  {
  }

  lemma SidesOfSum(d: int, z1: int, t1: int, z2: int, t2: int, s: int)
    ensures var z, w, p, q := z1 * z2, d * (t1 * t2), t1 * z1, t2 * z2;
            var c, c' := z1 * z1 + d * (t1 * t1), z2 * z2 + d * (t2 * t2);
            2 * (z * w) * (s + 4 * (p * q)) + (z * z + w * w) * (c * c')
            == (z * z - w * w) * (z * z - w * w)
               + d * (p * p * (c' * c' + 4 * (q * q)) + q * q * (c * c + 4 * (p * p)) + 2 * (p * q) * s)
  {
    var z, w, p, q := z1 * z2, d * (t1 * t2), t1 * z1, t2 * z2;
    var c, c' := z1 * z1 + d * (t1 * t1), z2 * z2 + d * (t2 * t2);
    SidesAgree(z1 * z1, d * (t1 * t1), z2 * z2, d * (t2 * t2));
    ProductsOfSum(d, z1, t1, z2, t2);
    PullOut(d, z1 * z1, t1 * t1, c' * c');
    PullOut(d, z2 * z2, t2 * t2, c * c);
    FourProducts(p, p, q);
    Regroup(d, p * q, p * p, q * q, c * c, c' * c', s);
  }

  lemma ProductsOfSum(d: int, z1: int, t1: int, z2: int, t2: int)
    ensures var z, w, p, q := z1 * z2, d * (t1 * t2), t1 * z1, t2 * z2;
            && z * z == z1 * z1 * (z2 * z2) && p * p == t1 * t1 * (z1 * z1) && q * q == t2 * t2 * (z2 * z2)
            && w * w == d * (t1 * t1) * (d * (t2 * t2)) && z * w == d * (p * q)
  {
    var z, t, p, q := z1 * z2, t1 * t2, t1 * z1, t2 * z2;
    FourProducts(z1, z1, z2);
    FourProducts(t1, t1, z1);
    FourProducts(t2, t2, z2);
    FourProducts(t1, t1, t2);
    PairProduct(d, t, d, t);
    PairProduct(d, t1 * t1, d, t2 * t2);
    PairProduct(t1, z1, t2, z2);
    MulAssoc(z, d, t);
    MulAssoc(d, z, t);
  }

  lemma PullOut(d: int, a: int, b: int, c: int)
    ensures a * (d * b) * c == d * (b * a * c)
  {
    var e := b * a;
    assert a * (d * b) == d * e;
    MulAssoc(d, e, c);
  }

  lemma Regroup(d: int, r: int, pp: int, qq: int, cc: int, cc': int, s: int)
    requires r * r == pp * qq
    ensures d * (pp * (cc' + 4 * qq) + qq * (cc + 4 * pp) + 2 * r * s)
            == d * (pp * cc') + d * (qq * cc) + 2 * (d * r) * (s + 4 * r)
  {
    MulDist(pp, cc', 4 * qq);
    MulDist(qq, cc, 4 * pp);
    var u := pp * cc' + qq * cc;
    MulDist(d, pp * cc', qq * cc);
    assert 2 * (d * r) * (s + 4 * r) == d * (2 * r * s + 8 * (r * r));
    MulDist(d, u, 2 * r * s + 8 * (r * r));
  }

  /** The completed coordinates of a sum, without their common factor 2, satisfy the curve equation. */
  lemma CompletedOnCurve(x1: int, y1: int, z1: int, t1: int, x2: int, y2: int, z2: int, t2: int)
    requires Extended(x1, y1, z1, t1) && Extended(x2, y2, z2, t2)
    ensures var e, h, g, f := x1 * y2 + y1 * x2, y1 * y2 + x1 * x2, z1 * z2 + D() * (t1 * t2),
            z1 * z2 - D() * (t1 * t2);
            Cong(h * g * (h * g) - e * f * (e * f), g * f * (g * f) + D() * (e * h * (e * h)))
  {
    var e, h, z, w := x1 * y2 + y1 * x2, y1 * y2 + x1 * x2, z1 * z2, D() * (t1 * t2);
    var m, n, p, q := x1 * y1, x2 * y2, t1 * z1, t2 * z2;
    var a, b, c, c' := y1 * y1 + x1 * x1, y2 * y2 + x2 * x2, z1 * z1 + D() * (t1 * t1), z2 * z2 + D() * (t2 * t2);
    SumProducts(x1, y1, x2, y2);
    CurveSides(e, h, z, w);
    LeftSide(z * w, a * b, m, n, p, q, z * z + w * w, y1 * y1 - x1 * x1, y2 * y2 - x2 * x2, c, c');
    SumSquared(x1, y1, z1, t1);
    SumSquared(x2, y2, z2, t2);
    var r := p * p * (c' * c' + 4 * (q * q)) + q * q * (c * c + 4 * (p * p)) + 2 * (p * q) * (a * b);
    RightSquare(m, n, a, b, p, q, c * c + 4 * (p * p), c' * c' + 4 * (q * q));
    CongMul(D(), D(), e * h * (e * h), r);
    var g := (z * z - w * w) * (z * z - w * w);
    CongAdd(g, g, D() * (e * h * (e * h)), D() * r);
    SidesOfSum(D(), z1, t1, z2, t2, a * b);
  }

  /** A common factor of the completed coordinates does not matter, and the products are extended. */
  lemma ProductsExtended(c: int, e: int, h: int, g: int, f: int)
    requires Cong(h * g * (h * g) - e * f * (e * f), g * f * (g * f) + D() * (e * h * (e * h)))
    ensures Extended(c * e * (c * f), c * h * (c * g), c * g * (c * f), c * e * (c * h))
  {
    var k := c * c;
    var x, y, z, t := e * f, h * g, g * f, e * h;
    PairProduct(c, e, c, f);
    PairProduct(c, h, c, g);
    PairProduct(c, g, c, f);
    PairProduct(c, e, c, h);
    CrossProducts(e, h, g, f, x, y, z, t);
    ScaledExtended(k, x, y, z, t);
  }

  lemma PairProduct(a: int, b: int, c: int, d: int)
    ensures a * b * (c * d) == a * c * (b * d)
  {
  }

  lemma ScaledExtended(k: int, x: int, y: int, z: int, t: int)
    requires Extended(x, y, z, t)
    ensures Extended(k * x, k * y, k * z, k * t)
  {
    CongMul(k * k, k * k, t * z, x * y);
    PairProduct(k, t, k, z);
    PairProduct(k, x, k, y);
    CongMul(k * k, k * k, y * y - x * x, z * z + D() * (t * t));
    ScaledCurve(k, x, y, z, t);
  }

  lemma ScaledCurve(k: int, x: int, y: int, z: int, t: int)
    ensures k * y * (k * y) - k * x * (k * x) == k * k * (y * y - x * x)
    ensures k * z * (k * z) + D() * (k * t * (k * t)) == k * k * (z * z + D() * (t * t))
  {
    var kk, xx, yy, zz, tt := k * k, x * x, y * y, z * z, t * t;
    PairProduct(k, x, k, x);
    PairProduct(k, y, k, y);
    PairProduct(k, z, k, z);
    PairProduct(k, t, k, t);
    MulAssoc(D(), kk, tt);
    MulAssoc(kk, D(), tt);
    MulDist(kk, zz, D() * tt);
    MulDist(kk, yy, -xx);
  }

  /** The sum of two points of the curve is on the curve. */
  lemma SumOnCurve(x1: int, y1: int, z1: int, t1: int, x2: int, y2: int, z2: int, t2: int)
    requires Extended(x1, y1, z1, t1) && Extended(x2, y2, z2, t2)
    ensures var e, h := 2 * (x1 * y2 + y1 * x2), 2 * (y1 * y2 + x1 * x2);
            var g, f := 2 * (z1 * z2 + D() * (t1 * t2)), 2 * (z1 * z2 - D() * (t1 * t2));
            Extended(e * f, h * g, g * f, e * h)
  {
    CompletedOnCurve(x1, y1, z1, t1, x2, y2, z2, t2);
    ProductsExtended(2, x1 * y2 + y1 * x2, y1 * y2 + x1 * x2, z1 * z2 + D() * (t1 * t2), z1 * z2 - D() * (t1 * t2));
  }

  lemma DoubleSides(e: int, h: int, g: int, f: int)
    requires h * h == g * g + e * e
    ensures h * g * (h * g) - e * f * (e * f) - g * f * (g * f) == h * h * (g * g - f * f)
    ensures e * h * (e * h) == h * h * (e * e)
  {
    var ee, gg, ff := e * e, g * g, f * f;
    assert h * g * (h * g) == (gg + ee) * gg && e * f * (e * f) == ee * ff && g * f * (g * f) == gg * ff;
    assert (gg + ee) * (gg - ff) == (gg + ee) * gg - ee * ff - gg * ff;
  }

  /** g^2 - f^2 = d*e^2 for the completed coordinates of a double. */
  lemma DoubleDifference(x: int, y: int, z: int, t: int)
    requires Extended(x, y, z, t)
    ensures var e, g := 2 * (x * y), y * y - x * x;
            var f := 2 * (z * z) - g; Cong(g * g - f * f, D() * (e * e))
  {
    var m, g, zz, dt := x * y, y * y - x * x, z * z, D() * (t * t);
    CongAdd(g, zz + dt, zz, zz);
    CongMul(4 * zz, 4 * zz, g - zz, dt);
    CongMul(m, t * z, m, t * z);
    CongMul(4 * D(), 4 * D(), m * m, t * z * (t * z));
    FactorDifference(g, zz);
    DoubleTerms(D(), m, z, t);
  }

  lemma FactorDifference(g: int, s: int)
    ensures var f := 2 * s - g; g * g - f * f == 4 * s * (g - s)
  {
  }

  lemma DoubleTerms(d: int, m: int, z: int, t: int)
    ensures d * (2 * m * (2 * m)) == 4 * d * (m * m)
    ensures 4 * d * (t * z * (t * z)) == 4 * (z * z) * (d * (t * t))
  {
    PairProduct(2, m, 2, m);
    PairProduct(t, z, t, z);
    var a, b := t * t, z * z;
    assert 4 * d * (a * b) == 4 * b * (d * a);
    MulAssoc(d, 4, m * m);
  }

  /** The double of a point of the curve is on the curve. */
  lemma DoubleOnCurve(x: int, y: int, z: int, t: int)
    requires Extended(x, y, z, t)
    ensures var e, h, g := 2 * (x * y), y * y + x * x, y * y - x * x;
            var f := 2 * (z * z) - g; Extended(e * f, h * g, g * f, e * h)
  {
    var e, h, g := 2 * (x * y), y * y + x * x, y * y - x * x;
    var f := 2 * (z * z) - g;
    SquareSplit(x, y);
    assert e * e == 4 * (x * y * (x * y));
    DoubleSides(e, h, g, f);
    DoubleDifference(x, y, z, t);
    CongMul(h * h, h * h, g * g - f * f, D() * (e * e));
    assert h * h * (D() * (e * e)) == D() * (h * h * (e * e));
    var gf := g * f * (g * f);
    CongAdd(h * h * (g * g - f * f), D() * (e * h * (e * h)), gf, gf);
    ProductsExtended(1, e, h, g, f);
  }

  /** Extended coordinates satisfy the projective equation. */
  lemma ExtendedOnCurve(x: int, y: int, z: int, t: int)
    requires Extended(x, y, z, t)
    ensures OnCurve(x, y, z)
  {
    var zz, dt := z * z, D() * (t * t);
    CongMul(y * y - x * x, zz + dt, zz, zz);
    CongMul(t * z, x * y, t * z, x * y);
    CongMul(D(), D(), t * z * (t * z), x * y * (x * y));
    assert t * z * (t * z) == zz * (t * t);
    assert (zz + dt) * zz == zz * zz + D() * (zz * (t * t));
    CongAdd(zz * zz, zz * zz, D() * (t * z * (t * z)), D() * (x * y * (x * y)));
  }

  ghost predicate Inverse(a: int, i: int) {
    Cong(a * i, 1)
  }

  lemma InverseProduct(a: int, i: int, b: int, j: int)
    requires Inverse(a, i) && Inverse(b, j)
    ensures Inverse(a * b, i * j)
  {
    CongMul(a * i, 1, b * j, 1);
    PairProduct(a, b, i, j);
  }

  lemma InverseOf(a: int, b: int, i: int)
    requires Cong(a, b) && Inverse(b, i)
    ensures Inverse(a, i)
  {
    CongMul(a, b, i, i);
  }

  /** Division by b. */
  lemma Divide(a: int, b: int, i: int, r: int)
    requires Cong(a * b, r) && Inverse(b, i)
    ensures Cong(a, r * i)
  {
    CongMul(a * b, r, i, i);
    CongMul(a, a, b * i, 1);
    MulAssoc(a, b, i);
  }

  /** The denominators of the law, from those of the affine one: z^2 + k = z^2*(1 + k/z^2). */
  lemma AffineDenominator(q: int, j: int, k: int, u: int)
    requires Inverse(q, j) && Inverse(1 + k * j, u)
    ensures Inverse(q + k, j * u)
  {
    InverseProduct(q, j, 1 + k * j, u);
    CongMul(k, k, q * j, 1);
    CongAdd(q, q, k * (q * j), k);
    assert q * (1 + k * j) == q + k * (q * j);
    InverseOf(q + k, q * (1 + k * j), j * u);
  }

  /** x3/z3 = z*n/q is i*n*u, where i = 1/z and 1/q = i^2*u. */
  lemma AffineCoordinate(x3: int, z3: int, i3: int, z: int, i: int, n: int, q: int, u: int)
    requires Inverse(z3, i3) && Inverse(z, i) && Inverse(q, i * i * u) && Cong(x3 * q, z3 * (z * n))
    ensures Cong(x3 * i3, i * n * u)
  {
    Divide(x3, q, i * i * u, z3 * (z * n));
    CongMul(x3, z3 * (z * n) * (i * i * u), i3, i3);
    CongMul(z3 * i3, 1, z * i, 1);
    CongMul(z3 * i3 * (z * i), 1, i * n * u, i * n * u);
    SevenFactors(z3, z, n, i, u, i3);
  }

  lemma SevenFactors(z3: int, z: int, n: int, i: int, u: int, i3: int)
    ensures z3 * (z * n) * (i * i * u) * i3 == z3 * i3 * (z * i) * (i * n * u)
  {
    var a, b := z3 * i3, z * i;
    assert z3 * (z * n) * (i * i * u) * i3 == a * (z * n * (i * i * u));
    assert z * n * (i * i * u) == b * (i * n * u);
    MulAssoc(a, b, i * n * u);
  }

  /** The law is that of affine points: where z1, z2 and the denominators 1 + kappa and 1 - kappa, with
      kappa = d*x1*x2*y1*y2 in affine coordinates, have inverses, so has z3, and
      x3 = (x1*y2 + y1*x2)/(1 + kappa), y3 = (y1*y2 + x1*x2)/(1 - kappa). */
  lemma AffineSum(c: int, ci: int, x1: int, y1: int, z1: int, i1: int, x2: int, y2: int, z2: int, i2: int,
                  x3: int, y3: int, z3: int, t3: int, u: int, v: int)
    returns (i3: int)
    requires IsSum(c, x1, y1, z1, x2, y2, z2, x3, y3, z3, t3)
    requires Inverse(c, ci) && Inverse(z1, i1) && Inverse(z2, i2)
    requires var kappa := D() * (x1 * i1 * (y1 * i1) * (x2 * i2 * (y2 * i2)));
             Inverse(1 + kappa, u) && Inverse(1 - kappa, v)
    ensures Inverse(z3, i3)
    ensures Cong(x3 * i3, (x1 * i1 * (y2 * i2) + y1 * i1 * (x2 * i2)) * u)
    ensures Cong(y3 * i3, (y1 * i1 * (y2 * i2) + x1 * i1 * (x2 * i2)) * v)
  {
    var z, i, k := z1 * z2, i1 * i2, D() * (x1 * y1 * (x2 * y2));
    InverseProduct(z1, i1, z2, i2);
    AffineProducts(x1, y1, i1, x2, y2, i2);
    i3 := AffineFraction(c, ci, z, i, k, u, v, x1 * y2 + y1 * x2, y1 * y2 + x1 * x2, x3, y3, z3);
  }

  /** 4 * (3p + 1)/4 = 3p + 1 */
  lemma FourInverse() returns (i: int)
    ensures Inverse(4, i)
  {
    i := (3 * P + 1) / 4;
    CongMultiple(4 * i, 1, 3);
  }

  /** The same with z = z1*z2, its inverse i, and the numerators n and m. */
  lemma AffineFraction(c: int, ci: int, z: int, i: int, k: int, u: int, v: int, n: int, m: int, x3: int, y3: int,
                       z3: int)
    returns (i3: int)
    requires Inverse(c, ci) && Inverse(z, i) && Inverse(1 + k * (i * i), u) && Inverse(1 - k * (i * i), v)
    requires Cong(x3 * (z * z + k), z3 * (z * n)) && Cong(y3 * (z * z - k), z3 * (z * m))
    requires Cong(z * z * z3, c * ((z * z + k) * (z * z - k)))
    ensures Inverse(z3, i3) && Cong(x3 * i3, i * n * u) && Cong(y3 * i3, i * m * v)
  {
    i3 := AffineInverse(c, ci, z * z, i * i, z, i, k, u, v, z3);
    AffineCoordinate(x3, z3, i3, z, i, n, z * z + k, u);
    AffineCoordinate(y3, z3, i3, z, i, m, z * z - k, v);
  }

  lemma AffineInverse(c: int, ci: int, q: int, j: int, z: int, i: int, k: int, u: int, v: int, z3: int)
    returns (i3: int)
    requires Inverse(c, ci) && Inverse(z, i) && q == z * z && j == i * i && Inverse(1 + k * j, u)
             && Inverse(1 - k * j, v)
    requires Cong(q * z3, c * ((q + k) * (q - k)))
    ensures Inverse(z3, i3) && Inverse(q + k, j * u) && Inverse(q - k, j * v)
  {
    var k', u', v' := -k, j * u, j * v;
    InverseProduct(z, i, z, i);
    NegatedProduct(k, j);
    AffineDenominator(q, j, k, u);
    AffineDenominator(q, j, k', v);
    i3 := SumInverse(c, ci, q, j, k, u', v', z3);
  }

  lemma NegatedProduct(a: int, b: int)
    ensures -a * b == -(a * b)
  {
  }

  lemma AffineProducts(x1: int, y1: int, i1: int, x2: int, y2: int, i2: int)
    ensures var i := i1 * i2;
            && D() * (x1 * i1 * (y1 * i1) * (x2 * i2 * (y2 * i2))) == D() * (x1 * y1 * (x2 * y2)) * (i * i)
            && x1 * i1 * (y2 * i2) + y1 * i1 * (x2 * i2) == i * (x1 * y2 + y1 * x2)
            && y1 * i1 * (y2 * i2) + x1 * i1 * (x2 * i2) == i * (y1 * y2 + x1 * x2)
  {
    PairProduct(x1, i1, y1, i1);
    PairProduct(x2, i2, y2, i2);
    PairProduct(x1 * y1, i1 * i1, x2 * y2, i2 * i2);
    PairProduct(i1, i1, i2, i2);
    MulAssoc(D(), x1 * y1 * (x2 * y2), i1 * i2 * (i1 * i2));
    PairProduct(x1, i1, y2, i2);
    PairProduct(y1, i1, x2, i2);
    PairProduct(y1, i1, y2, i2);
    PairProduct(x1, i1, x2, i2);
    MulDist(i1 * i2, x1 * y2, y1 * x2);
    MulDist(i1 * i2, y1 * y2, x1 * x2);
  }

  lemma SumInverse(c: int, ci: int, q: int, j: int, k: int, u: int, v: int, z3: int) returns (i3: int)
    requires Inverse(c, ci) && Inverse(q, j) && Inverse(q + k, u) && Inverse(q - k, v)
    requires Cong(q * z3, c * ((q + k) * (q - k)))
    ensures Inverse(z3, i3)
  {
    InverseProduct(q + k, u, q - k, v);
    InverseProduct(c, ci, (q + k) * (q - k), u * v);
    var r := c * ((q + k) * (q - k));
    Divide(z3, q, j, r);
    InverseProduct(r, ci * (u * v), j, q);
    InverseOf(z3, r * j, ci * (u * v) * q);
    i3 := ci * (u * v) * q;
  }
}
