/** Batch verification (ed25519_sign_open_batch). The random numbers are arguments, and what is proved holds for
    all of them. */
module BatchVerify {
  import opened Words
  import opened Bytes
  import opened Groups
  import opened Options
  import opened Ed25519
  import opened BosCoster
  import BatchHeap
  import BatchLimbs
  import MultiScalar
  import ModM
  import Radix
  import Sha512

  type Bytes16 = s: seq<u8> | |s| == 16 witness seq(16, _ => 0)

  /** A message, the key it is said to be signed with, and the signature. */
  datatype Item = Item(m: seq<u8>, pk: Bytes32, sig: Bytes64)

  const MAX_BATCH_SIZE: nat := 64
  const HEAP_BATCH_SIZE: nat := 2 * MAX_BATCH_SIZE + 1

  ghost predicate Accepted<T>(c: Curve<T>, i: Item) {
    Accepts(c, i.pk, i.m, i.sig)
  }

  /** S, the second half of a signature, modulo the group order. */
  ghost function S(i: Item): nat {
    LeVal(i.sig[32..]) % ModM.M
  }

  /** H(R, A, m) modulo the group order. */
  ghost function H<T>(c: Curve<T>, i: Item): nat {
    Challenge(c, i.sig[..32], i.pk, i.m) % ModM.M
  }

  ghost function Ss(items: seq<Item>): seq<nat> {
    seq(|items|, i requires 0 <= i < |items| => S(items[i]))
  }

  ghost function Hs<T>(c: Curve<T>, items: seq<Item>): seq<nat> {
    seq(|items|, i requires 0 <= i < |items| => H(c, items[i]))
  }

  /** r1*s1 + ... + rn*sn */
  ghost function Weighted(ss: seq<nat>, rs: seq<nat>, n: nat): nat
    requires n <= |ss| == |rs|
  {
    if n == 0 then 0 else Weighted(ss, rs, n - 1) + rs[n - 1] * ss[n - 1]
  }

  /** The products ri*hi modulo the group order, and what the reduction takes off them. */
  ghost function Reduced(hs: seq<nat>, rs: seq<nat>): seq<nat>
    requires |hs| == |rs|
  {
    seq(|hs|, i requires 0 <= i < |hs| => rs[i] * hs[i] % ModM.M)
  }

  ghost function Excess(hs: seq<nat>, rs: seq<nat>): seq<nat>
    requires |hs| == |rs|
  {
    seq(|hs|, i requires 0 <= i < |hs| => rs[i] * hs[i] / ModM.M * ModM.M)
  }

  /** The points -A and -R. */
  ghost predicate Unpacked<T>(c: Curve<T>, items: seq<Item>, na: seq<T>, nr: seq<T>) {
    && |na| == |nr| == |items|
    && forall i :: 0 <= i < |items| ==>
         c.unpackNegative(items[i].pk) == Some(na[i]) && c.unpackNegative(items[i].sig[..32]) == Some(nr[i])
  }

  /** The terms from k on are those of t and q. */
  ghost predicate At<T>(s: seq<nat>, p: seq<T>, k: nat, t: seq<nat>, q: seq<T>) {
    |t| == |q| && k + |t| <= |s| && k + |q| <= |p| && s[k..k + |t|] == t && p[k..k + |q|] == q
  }

  /** The scalars and points of a batch: [r1*S1 + ...]B, [ri*Hi](-Ai), [ri](-Ri). */
  ghost predicate Terms<T>(c: Curve<T>, ss: seq<nat>, hs: seq<nat>, rs: seq<nat>, na: seq<T>, nr: seq<T>, s: seq<nat>,
                           p: seq<T>) {
    && |ss| == |hs| == |rs| && 1 + 2 * |rs| <= |s| && 1 + 2 * |rs| <= |p|
    && s[0] == Weighted(ss, rs, |rs|) % ModM.M && p[0] == c.base
    && At(s, p, 1, Reduced(hs, rs), na) && At(s, p, 1 + |rs|, rs, nr)
  }

  lemma {:induction false} SumPart<T(!new)>(g: Group<T>, s: seq<nat>, p: seq<T>, k: nat, t: seq<nat>, q: seq<T>, n: nat)
    requires Abelian(g) && At(s, p, k, t, q) && n <= |t|
    ensures Sum(g, s, p, k + n) == g.add(Sum(g, s, p, k), Sum(g, t, q, n))
  {
    if n == 0 {
      Units(g, Sum(g, s, p, k));
    } else {
      SumPart(g, s, p, k, t, q, n - 1);
      assert t[n - 1] == s[k..k + |t|][n - 1] && q[n - 1] == p[k..k + |q|][n - 1];
      Assoc(g, Sum(g, s, p, k), Sum(g, t, q, n - 1), Groups.Mul(g, t[n - 1], q[n - 1]));
    }
  }

  /** [s]B + [h](-A) + (-R) is neutral. */
  ghost predicate Balanced<T>(c: Curve<T>, s: nat, h: nat, na: T, nr: T) {
    c.g.add(c.g.add(Mult(c, s), Groups.Mul(c.g, h, na)), nr) == c.g.zero
  }

  ghost predicate AllBalanced<T>(c: Curve<T>, ss: seq<nat>, hs: seq<nat>, na: seq<T>, nr: seq<T>) {
    |ss| == |hs| == |na| == |nr| && forall i :: 0 <= i < |ss| ==> Balanced(c, ss[i], hs[i], na[i], nr[i])
  }

  /** An accepted signature is balanced. */
  lemma AcceptedBalanced<T(!new)>(c: Curve<T>, i: Item, na: T, nr: T)
    requires Sound(c) && Accepted(c, i) && c.unpackNegative(i.pk) == Some(na)
             && c.unpackNegative(i.sig[..32]) == Some(nr)
    ensures Balanced(c, S(i), H(c, i), na, nr)
  {
    var r := c.g.add(Groups.Mul(c.g, H(c, i), na), Mult(c, S(i)));
    assert i.sig[..32] == c.pack(r);
    Comm(c.g, Groups.Mul(c.g, H(c, i), na), Mult(c, S(i)));
    Units(c.g, r);
  }

  /** [v]B + [x](-A) + [r](-R) + [y](-A) is neutral. */
  ghost predicate BalancedTerm<T>(c: Curve<T>, v: nat, r: nat, x: nat, y: nat, na: T, nr: T) {
    c.g.add(c.g.add(Mult(c, v), Groups.Mul(c.g, x, na)), c.g.add(Groups.Mul(c.g, r, nr), Groups.Mul(c.g, y, na)))
      == c.g.zero
  }

  /** Balanced times any r, with r*h split as x + y. */
  lemma BalancedMultiple<T(!new)>(c: Curve<T>, s: nat, h: nat, na: T, nr: T, r: nat, x: nat, y: nat)
    requires Abelian(c.g) && Balanced(c, s, h, na, nr) && r * h == x + y
    ensures BalancedTerm(c, r * s, r, x, y, na, nr)
  {
    var g, b, a := c.g, Mult(c, s), Groups.Mul(c.g, h, na);
    MulZero(g, r);
    MulSum(g, r, g.add(b, a), nr);
    MulSum(g, r, b, a);
    MulMul(g, r, s, c.base);
    MulMul(g, r, h, na);
    MulAdd(g, x, y, na);
    FourParts(g, Mult(c, r * s), Groups.Mul(g, x, na), Groups.Mul(g, y, na), Groups.Mul(g, r, nr));
  }

  /** (a + (b + d)) + e = (a + b) + (e + d) */
  lemma FourParts<T(!new)>(g: Group<T>, a: T, b: T, d: T, e: T)
    requires Abelian(g)
    ensures g.add(g.add(a, g.add(b, d)), e) == g.add(g.add(a, b), g.add(e, d))
  {
    Assoc(g, a, b, d);
    Assoc(g, g.add(a, b), d, e);
    Comm(g, d, e);
  }

  /** The products ri*hi split as xi + yi. */
  ghost predicate Split(hs: seq<nat>, rs: seq<nat>, xs: seq<nat>, ys: seq<nat>) {
    && |hs| == |rs| == |xs| == |ys|
    && forall i :: 0 <= i < |hs| ==> rs[i] * hs[i] == xs[i] + ys[i]
  }

  ghost function Products(ss: seq<nat>, rs: seq<nat>): seq<nat>
    requires |ss| == |rs|
  {
    seq(|rs|, i requires 0 <= i < |rs| => rs[i] * ss[i])
  }

  lemma {:induction false} WeightedTotal(ss: seq<nat>, rs: seq<nat>, vs: seq<nat>, n: nat)
    requires n <= |ss| == |rs| && vs == Products(ss, rs)
    ensures Weighted(ss, rs, n) == Total(vs, n)
  {
    if n > 0 {
      WeightedTotal(ss, rs, vs, n - 1);
    }
  }

  ghost predicate AllTerms<T>(c: Curve<T>, vs: seq<nat>, rs: seq<nat>, na: seq<T>, nr: seq<T>, xs: seq<nat>,
                              ys: seq<nat>) {
    && |vs| == |rs| == |na| == |nr| == |xs| == |ys|
    && forall k :: 0 <= k < |rs| ==> BalancedTerm(c, vs[k], rs[k], xs[k], ys[k], na[k], nr[k])
  }

  lemma TermsBalanced<T(!new)>(c: Curve<T>, ss: seq<nat>, hs: seq<nat>, rs: seq<nat>, na: seq<T>, nr: seq<T>,
                               xs: seq<nat>, ys: seq<nat>)
    requires Abelian(c.g) && Split(hs, rs, xs, ys) && AllBalanced(c, ss, hs, na, nr)
    ensures AllTerms(c, Products(ss, rs), rs, na, nr, xs, ys)
  {
    forall k | 0 <= k < |rs|
      ensures BalancedTerm(c, Products(ss, rs)[k], rs[k], xs[k], ys[k], na[k], nr[k])
    {
      BalancedMultiple(c, ss[k], hs[k], na[k], nr[k], rs[k], xs[k], ys[k]);
    }
  }

  /** The sums over the first n terms are neutral. */
  ghost predicate SumsBalanced<T>(c: Curve<T>, vs: seq<nat>, rs: seq<nat>, na: seq<T>, nr: seq<T>, xs: seq<nat>,
                                  ys: seq<nat>, n: nat)
    requires n <= |vs| == |rs| == |na| == |nr| == |xs| == |ys|
  {
    c.g.add(c.g.add(Mult(c, Total(vs, n)), Sum(c.g, xs, na, n)), c.g.add(Sum(c.g, rs, nr, n), Sum(c.g, ys, na, n)))
      == c.g.zero
  }

  lemma {:induction false} BalancedSums<T(!new)>(c: Curve<T>, vs: seq<nat>, rs: seq<nat>, na: seq<T>, nr: seq<T>,
                                                 xs: seq<nat>, ys: seq<nat>, n: nat)
    requires Abelian(c.g) && n <= |rs| && AllTerms(c, vs, rs, na, nr, xs, ys)
    ensures SumsBalanced(c, vs, rs, na, nr, xs, ys, n)
  {
    if n == 0 {
      Units(c.g, c.g.zero);
    } else {
      BalancedSums(c, vs, rs, na, nr, xs, ys, n - 1);
      OneMoreTerm(c, vs, rs, na, nr, xs, ys, n - 1);
    }
  }

  lemma OneMoreTerm<T(!new)>(c: Curve<T>, vs: seq<nat>, rs: seq<nat>, na: seq<T>, nr: seq<T>, xs: seq<nat>,
                             ys: seq<nat>, k: nat)
    requires Abelian(c.g) && k < |vs| == |rs| == |na| == |nr| == |xs| == |ys|
    requires SumsBalanced(c, vs, rs, na, nr, xs, ys, k) && BalancedTerm(c, vs[k], rs[k], xs[k], ys[k], na[k], nr[k])
    ensures SumsBalanced(c, vs, rs, na, nr, xs, ys, k + 1)
  {
    NextSums(c, Total(vs, k), vs[k], Sum(c.g, xs, na, k), Groups.Mul(c.g, xs[k], na[k]), Sum(c.g, rs, nr, k),
      Groups.Mul(c.g, rs[k], nr[k]), Sum(c.g, ys, na, k), Groups.Mul(c.g, ys[k], na[k]));
  }

  lemma NextSums<T(!new)>(c: Curve<T>, w: nat, v: nat, b: T, b': T, d: T, d': T, e: T, e': T)
    requires Abelian(c.g) && c.g.add(c.g.add(Mult(c, w), b), c.g.add(d, e)) == c.g.zero
    requires c.g.add(c.g.add(Mult(c, v), b'), c.g.add(d', e')) == c.g.zero
    ensures c.g.add(c.g.add(Mult(c, w + v), c.g.add(b, b')), c.g.add(c.g.add(d, d'), c.g.add(e, e'))) == c.g.zero
  {
    MulAdd(c.g, w, v, c.base);
    Eight(c.g, Mult(c, w), Mult(c, v), b, b', d, d', e, e');
  }

  /** If both the even and the odd ones of eight points add to the neutral one, so do all. */
  lemma Eight<T(!new)>(g: Group<T>, a: T, a': T, b: T, b': T, d: T, d': T, e: T, e': T)
    requires Abelian(g) && g.add(g.add(a, b), g.add(d, e)) == g.zero && g.add(g.add(a', b'), g.add(d', e')) == g.zero
    ensures g.add(g.add(g.add(a, a'), g.add(b, b')), g.add(g.add(d, d'), g.add(e, e'))) == g.zero
  {
    Interchange(g, a, a', b, b');
    Interchange(g, d, d', e, e');
    Interchange(g, g.add(a, b), g.add(a', b'), g.add(d, e), g.add(d', e'));
    Units(g, g.zero);
  }

  /** What the reductions modulo the group order take off: [m*(ri*Hi / m)](-Ai) for all i. */
  ghost function Lost<T>(g: Group<T>, hs: seq<nat>, rs: seq<nat>, na: seq<T>): T
    requires |hs| == |rs| == |na|
  {
    Sum(g, Excess(hs, rs), na, |rs|)
  }

  /** For accepted signatures the terms of the batch and what the reductions took off add to the neutral point:
      the batch is neutral exactly when nothing was lost. */
  lemma BatchSum<T(!new)>(c: Curve<T>, items: seq<Item>, rs: seq<nat>, na: seq<T>, nr: seq<T>, s: seq<nat>, p: seq<T>)
    requires Sound(c) && Unpacked(c, items, na, nr) && |items| == |rs|
    requires Terms(c, Ss(items), Hs(c, items), rs, na, nr, s, p) && forall i :: 0 <= i < |items| ==>
               Accepted(c, items[i])
    ensures c.g.add(Sum(c.g, s, p, 1 + 2 * |rs|), Lost(c.g, Hs(c, items), rs, na)) == c.g.zero
    ensures Sum(c.g, s, p, 1 + 2 * |rs|) == c.g.zero <==> Lost(c.g, Hs(c, items), rs, na) == c.g.zero
  {
    forall i | 0 <= i < |items|
      ensures Balanced(c, Ss(items)[i], Hs(c, items)[i], na[i], nr[i])
    {
      AcceptedBalanced(c, items[i], na[i], nr[i]);
    }
    BalancedBatch(c, Ss(items), Hs(c, items), rs, na, nr, s, p);
    Units(c.g, Sum(c.g, s, p, 1 + 2 * |rs|));
    Units(c.g, Lost(c.g, Hs(c, items), rs, na));
  }

  lemma BalancedBatch<T(!new)>(c: Curve<T>, ss: seq<nat>, hs: seq<nat>, rs: seq<nat>, na: seq<T>, nr: seq<T>,
                               s: seq<nat>, p: seq<T>)
    requires Sound(c) && Terms(c, ss, hs, rs, na, nr, s, p) && AllBalanced(c, ss, hs, na, nr)
    ensures c.g.add(Sum(c.g, s, p, 1 + 2 * |rs|), Lost(c.g, hs, rs, na)) == c.g.zero
  {
    SplitByOrder(hs, rs);
    TermsBalanced(c, ss, hs, rs, na, nr, Reduced(hs, rs), Excess(hs, rs));
    BalancedSums(c, Products(ss, rs), rs, na, nr, Reduced(hs, rs), Excess(hs, rs), |rs|);
    WeightedTotal(ss, rs, Products(ss, rs), |rs|);
    SplitSum(c, s, p, Weighted(ss, rs, |rs|), Reduced(hs, rs), na, rs, nr, |rs|, Lost(c.g, hs, rs, na));
  }

  lemma SplitByOrder(hs: seq<nat>, rs: seq<nat>)
    requires |hs| == |rs|
    ensures Split(hs, rs, Reduced(hs, rs), Excess(hs, rs))
  {
    forall i | 0 <= i < |hs|
      ensures rs[i] * hs[i] == Reduced(hs, rs)[i] + Excess(hs, rs)[i]
    {
      Parts(rs[i] * hs[i], ModM.M);
    }
  }

  lemma Parts(x: nat, m: nat)
    requires m > 0
    ensures x == x % m + x / m * m
  {
  }

  lemma SplitSum<T(!new)>(c: Curve<T>, s: seq<nat>, p: seq<T>, w: nat, xs: seq<nat>, na: seq<T>, rs: seq<nat>,
                          nr: seq<T>, n: nat, lost: T)
    requires Sound(c) && |s| > 0 && |p| > 0 && s[0] == w % ModM.M && p[0] == c.base
    requires n == |xs| == |rs| && At(s, p, 1, xs, na) && At(s, p, 1 + n, rs, nr)
    requires c.g.add(c.g.add(Mult(c, w), Sum(c.g, xs, na, n)), c.g.add(Sum(c.g, rs, nr, n), lost)) == c.g.zero
    ensures c.g.add(Sum(c.g, s, p, 1 + 2 * n), lost) == c.g.zero
  {
    var g := c.g;
    BaseTerm(c, s, p, w);
    var total := ThreeParts(g, s, p, xs, na, rs, nr, n);
    Regrouped(g, Sum(g, s, p, total), Mult(c, w), Sum(g, xs, na, n), Sum(g, rs, nr, n), lost);
  }

  lemma Regrouped<T(!new)>(g: Group<T>, total: T, a: T, b: T, d: T, e: T)
    requires Abelian(g) && total == g.add(g.add(a, b), d) && g.add(g.add(a, b), g.add(d, e)) == g.zero
    ensures g.add(total, e) == g.zero
  {
    Assoc(g, g.add(a, b), d, e);
  }

  lemma ThreeParts<T(!new)>(g: Group<T>, s: seq<nat>, p: seq<T>, xs: seq<nat>, na: seq<T>, rs: seq<nat>, nr: seq<T>,
                            n: nat)
    returns (total: nat)
    requires Abelian(g) && n == |xs| == |rs| && At(s, p, 1, xs, na) && At(s, p, 1 + n, rs, nr)
    ensures total == 1 + 2 * n
    ensures Sum(g, s, p, total) == g.add(g.add(Sum(g, s, p, 1), Sum(g, xs, na, n)), Sum(g, rs, nr, n))
  {
    var k := 1 + n;
    SumPart(g, s, p, 1, xs, na, n);
    SumPart(g, s, p, k, rs, nr, n);
    total := k + n;
  }

  lemma BaseTerm<T(!new)>(c: Curve<T>, s: seq<nat>, p: seq<T>, w: nat)
    requires Sound(c) && |s| > 0 && |p| > 0 && s[0] == w % ModM.M && p[0] == c.base
    ensures Sum(c.g, s, p, 1) == Mult(c, w)
  {
    assert ZeroAt(c.g, ModM.M, c.base, ModM.M);
    MulMod(c.g, w, ModM.M, c.base);
    Units(c.g, Mult(c, w));
    assert Sum(c.g, s, p, 0) == c.g.zero;
  }

  /** Nothing is lost when every key is a point whose order divides m, as the keys made by publickey are. */
  lemma NothingLost<T(!new)>(g: Group<T>, hs: seq<nat>, rs: seq<nat>, na: seq<T>)
    requires Abelian(g) && |hs| == |rs| == |na|
    requires forall i :: 0 <= i < |na| ==> Groups.Mul(g, ModM.M, na[i]) == g.zero || rs[i] * hs[i] < ModM.M
    ensures Lost(g, hs, rs, na) == g.zero
  {
    var xs := Excess(hs, rs);
    forall i | 0 <= i < |rs|
      ensures Groups.Mul(g, xs[i], na[i]) == g.zero
    {
      if rs[i] * hs[i] < ModM.M {
        ModUnique(rs[i] * hs[i], rs[i] * hs[i], 0, ModM.M);
        MulZero(g, 0);
      } else {
        ZeroMultiple(g, rs[i] * hs[i] / ModM.M, ModM.M, na[i]);
      }
    }
    SumZero(g, xs, na, |rs|);
  }

  lemma {:induction false} SumZero<T(!new)>(g: Group<T>, s: seq<nat>, p: seq<T>, n: nat)
    requires Abelian(g) && n <= |s| && n <= |p| && forall i :: 0 <= i < n ==> Groups.Mul(g, s[i], p[i]) == g.zero
    ensures Sum(g, s, p, n) == g.zero
  {
    if n > 0 {
      SumZero(g, s, p, n - 1);
      Units(g, g.zero);
    }
  }

  /** Nothing is lost with these random numbers. */
  ghost predicate Keeps<T>(g: Group<T>, hs: seq<nat>, na: seq<T>, rs: seq<nat>)
    requires |hs| == |na|
  {
    |rs| == |hs| && (forall i :: 0 <= i < |rs| ==> rs[i] < P128) ==> Lost(g, hs, rs, na) == g.zero
  }

  /** Whether a key can lose nothing, from what is known before the random numbers are drawn. */
  ghost predicate Safe<T>(g: Group<T>, h: nat, na: T) {
    Groups.Mul(g, ModM.M, na) == g.zero || h * (P128 - 1) < ModM.M
  }

  /** Nothing is lost for all random numbers exactly when for each signature the order of the key divides m, or
      H(R, A, m) is too small to be reduced. */
  lemma LostNever<T(!new)>(g: Group<T>, hs: seq<nat>, na: seq<T>)
    requires Abelian(g) && |hs| == |na| && forall i :: 0 <= i < |hs| ==> hs[i] < ModM.M
    ensures (forall rs :: Keeps(g, hs, na, rs)) <==> forall i :: 0 <= i < |hs| ==> Safe(g, hs[i], na[i])
  {
    if forall i :: 0 <= i < |hs| ==> Safe(g, hs[i], na[i]) {
      forall rs
        ensures Keeps(g, hs, na, rs)
      {
        if |rs| == |hs| && forall i :: 0 <= i < |rs| ==> rs[i] < P128 {
          AllSafe(g, hs, na, rs);
        }
      }
    }
    if forall rs :: Keeps(g, hs, na, rs) {
      forall i | 0 <= i < |hs|
        ensures Safe(g, hs[i], na[i])
      {
        if hs[i] * (P128 - 1) >= ModM.M {
          var rs := LosesOne(g, hs, na, i);
          assert Keeps(g, hs, na, rs);
        }
      }
    }
  }

  lemma AllSafe<T(!new)>(g: Group<T>, hs: seq<nat>, na: seq<T>, rs: seq<nat>)
    requires Abelian(g) && |hs| == |na| == |rs| && forall i :: 0 <= i < |hs| ==> rs[i] < P128 && Safe(g, hs[i], na[i])
    ensures Lost(g, hs, rs, na) == g.zero
  {
    forall i | 0 <= i < |na|
      ensures Groups.Mul(g, ModM.M, na[i]) == g.zero || rs[i] * hs[i] < ModM.M
    {
      assert Safe(g, hs[i], na[i]);
      MulMono(hs[i], rs[i], P128 - 1);
    }
    NothingLost(g, hs, rs, na);
  }

  /** Random numbers for which just [m](-Ai) is lost. */
  lemma LosesOne<T(!new)>(g: Group<T>, hs: seq<nat>, na: seq<T>, i: nat) returns (rs: seq<nat>)
    requires Abelian(g) && i < |hs| == |na| && hs[i] < ModM.M && hs[i] * (P128 - 1) >= ModM.M
    ensures |rs| == |hs| && (forall j :: 0 <= j < |rs| ==> rs[j] < P128)
            && Lost(g, hs, rs, na) == Groups.Mul(g, ModM.M, na[i])
  {
    var r := Ceiling(ModM.M, hs[i], P128 - 1);
    rs := seq(|hs|, j => if j == i then r else 0);
    var xs := Excess(hs, rs);
    OnlyExcess(hs, rs, i, r);
    SumSingle(g, xs, na, i, |rs|);
  }

  lemma OnlyExcess(hs: seq<nat>, rs: seq<nat>, i: nat, r: nat)
    requires i < |hs| == |rs| && ModM.M <= r * hs[i] < 2 * ModM.M
    requires forall j :: 0 <= j < |rs| ==> rs[j] == if j == i then r else 0
    ensures forall j :: 0 <= j < |rs| ==> Excess(hs, rs)[j] == if j == i then ModM.M else 0
  {
    ModUnique(r * hs[i], r * hs[i] - ModM.M, 1, ModM.M);
  }

  lemma Ceiling(m: nat, h: nat, b: nat) returns (r: nat)
    requires h < m <= h * b
    ensures m <= r * h < 2 * m && r <= b
  {
    var q := if h == 0 then 0 else (m - 1) / h;
    r := q + 1;
    assert h > 0;
    assert m - 1 == h * q + (m - 1) % h;
    MulAtLeast(h, q, b);
  }

  /** Keys made by publickey. */
  lemma MadeKeys<T(!new)>(c: Curve<T>, sk: seq<u8>)
    requires Sound(c)
    ensures var na := c.unpackNegative(PublicKey(c, sk));
            na.Some? && Groups.Mul(c.g, ModM.M, na.value) == c.g.zero
  {
    var a := Secret(c, sk);
    assert c.unpackNegative(c.pack(Mult(c, a))) == Some(c.g.neg(Mult(c, a)));
    assert ZeroAt(c.g, ModM.M, c.base, ModM.M);
    MulNeg(c.g, a, c.base);
    MulMul(c.g, ModM.M, -(a as int), c.base);
    ZeroMultiple(c.g, -(a as int), ModM.M, c.base);
    assert ModM.M * -(a as int) == -(a as int) * ModM.M;
  }

  /** The number in the limbs. */
  method Number(a: array<u64>) returns (v: nat)
    requires ModM.Limbs(a)
    ensures v == ModM.Val(a)
  {
    v := a[0] as int + P56 * a[1] as int + P112 * a[2] as int + P168 * a[3] as int + P224 * a[4] as int;
  }

  lemma {:induction false} LeBound(s: seq<u8>)
    ensures LeVal(s) < Radix.Pow(0x100, |s|)
  {
    if s != [] {
      LeBound(s[1..]);
    }
  }

  lemma RandomBound(s: Bytes16)
    ensures LeVal(s) < P128 && LeVal(s) % ModM.M == LeVal(s)
  {
    var n := 8;
    LeBound(s);
    assert Radix.Pow(0x100, 8) == P64;
    Radix.PowAdd(0x100, n, n);
  }

  // expand256_modm and mul256_modm by r
  method TimesRandom(input: seq<u8>, r: array<u64>, ghost k: nat) returns (a: array<u64>)
    requires |input| <= 64 && ModM.Limbs(r) && r[4] < W32 && ModM.Val(r) == k
    ensures fresh(a) && ModM.Limbs(a) && a[4] < W32 && ModM.Val(a) == k * (LeVal(input) % ModM.M) % ModM.M
  {
    a := new u64[5];
    ModM.Expand256(a, input);
    ghost var v := LeVal(input) % ModM.M;
    assert v * k == k * v;
    ModM.Mul256(a, a, r);
  }

  /** The three scalars of an item: r, r*H, and the term r*S that is added to the first scalar. */
  method ItemScalars<T>(c: Curve<T>, f: Sha512.Compression, item: Item, random: Bytes16, acc: array<u64>, ghost w: nat,
                        ghost total: nat)
    returns (r: nat, h: nat)
    requires Hashes(c, f) && Holds(acc, w) && total == w + LeVal(random) * S(item)
    modifies acc
    ensures r == LeVal(random) < P128 && h == r * H(c, item) % ModM.M && Holds(acc, total)
  {
    var rs := new u64[5];
    ModM.Expand256(rs, random);
    RandomBound(random);
    r := Number(rs);
    AddTerm(acc, item.sig[32..], rs, w, r, S(item), total);
    var hash := HashChallenge(c, f, item.sig[..32], item.pk, item.m);
    var b := TimesRandom(hash, rs, r);
    h := Number(b);
  }

  // add256_modm of r*S
  method AddTerm(acc: array<u64>, input: seq<u8>, r: array<u64>, ghost w: nat, ghost k: nat, ghost s: nat,
                 ghost total: nat)
    requires |input| <= 64 && ModM.Limbs(r) && r[4] < W32 && ModM.Val(r) == k && s == LeVal(input) % ModM.M
             && Holds(acc, w) && total == w + k * s
    modifies acc
    ensures Holds(acc, total)
  {
    var a := TimesRandom(input, r, k);
    SumMod(k * s, w, ModM.M);
    ModM.Add256(acc, acc, a);
  }

  ghost function Rs(random: seq<Bytes16>): seq<nat> {
    seq(|random|, i requires 0 <= i < |random| => LeVal(random[i]))
  }

  /** The scalars of the first n items are in place. */
  ghost predicate Filled(s: seq<nat>, xs: seq<nat>, rs: seq<nat>, n: nat) {
    && n <= |xs| == |rs| && 1 + 2 * |rs| <= |s|
    && forall i :: 0 <= i < n ==> xs[i] == s[1 + i] && rs[i] == s[1 + |rs| + i]
  }

  lemma FilledSlices(s: seq<nat>, xs: seq<nat>, rs: seq<nat>, n: nat)
    requires n == |rs| && Filled(s, xs, rs, n)
    ensures s[1..1 + n] == xs && s[1 + n..1 + n + n] == rs
  {
  }

  /** acc holds w modulo the group order. */
  ghost predicate Holds(acc: array<u64>, w: nat)
    reads acc
  {
    ModM.Limbs(acc) && acc[4] < W32 && ModM.Val(acc) == w % ModM.M
  }

  /** The scalars of a batch. */
  ghost predicate Scalars(s: seq<nat>, ss: seq<nat>, xs: seq<nat>, rs: seq<nat>) {
    && |ss| == |xs| == |rs| && 1 + 2 * |rs| <= |s| && s[0] == Weighted(ss, rs, |rs|) % ModM.M
    && s[1..1 + |xs|] == xs && s[1 + |rs|..1 + |rs| + |rs|] == rs
  }

  /** The loops that compute the scalars, item by item. */
  method FillScalars<T>(c: Curve<T>, f: Sha512.Compression, items: seq<Item>, random: seq<Bytes16>, scalars: array<nat>,
                        ghost ss: seq<nat>, ghost xs: seq<nat>, ghost rs: seq<nat>)
    requires Hashes(c, f) && |items| == |random| && 1 + 2 * |items| <= scalars.Length
    requires ss == Ss(items) && rs == Rs(random) && xs == Reduced(Hs(c, items), rs)
    modifies scalars
    ensures Scalars(scalars[..], ss, xs, rs)
  {
    var n, acc := |items|, new u64[5](_ => 0);
    for i := 0 to n
      invariant Holds(acc, Weighted(ss, rs, i)) && Filled(scalars[..], xs, rs, i)
    {
      FillOne(c, f, items[i], random[i], acc, scalars, n, i, ss, xs, rs);
    }
    var first := Number(acc);
    scalars[0] := first;
    FilledSlices(scalars[..], xs, rs, n);
  }

  method FillOne<T>(c: Curve<T>, f: Sha512.Compression, item: Item, random: Bytes16, acc: array<u64>,
                    scalars: array<nat>, n: nat, i: nat, ghost ss: seq<nat>, ghost xs: seq<nat>, ghost rs: seq<nat>)
    requires Hashes(c, f) && i < n == |ss| == |xs| == |rs|
    requires ss[i] == S(item) && rs[i] == LeVal(random) && xs[i] == rs[i] * H(c, item) % ModM.M
    requires Filled(scalars[..], xs, rs, i) && Holds(acc, Weighted(ss, rs, i))
    modifies acc, scalars
    ensures Filled(scalars[..], xs, rs, i + 1) && Holds(acc, Weighted(ss, rs, i + 1))
  {
    var r, h := ItemScalars(c, f, item, random, acc, Weighted(ss, rs, i), Weighted(ss, rs, i + 1));
    scalars[1 + i] := h;
    scalars[1 + n + i] := r;
  }

  /** The points of the first n keys, and of the first k commitments, are in place. */
  ghost predicate Placed<T>(c: Curve<T>, items: seq<Item>, p: seq<T>, n: nat, k: nat) {
    && k <= n <= |items| && 1 + 2 * |items| <= |p| && p[0] == c.base
    && (forall i :: 0 <= i < n ==> c.unpackNegative(items[i].pk) == Some(p[1 + i]))
    && (forall i :: 0 <= i < k ==> c.unpackNegative(items[i].sig[..32]) == Some(p[1 + |items| + i]))
  }

  /** A key or a commitment does not decode. */
  ghost predicate Undecoded<T>(c: Curve<T>, i: Item) {
    c.unpackNegative(i.pk).None? || c.unpackNegative(i.sig[..32]).None?
  }

  method FillPoints<T>(c: Curve<T>, items: seq<Item>, points: array<T>) returns (ok: bool)
    requires 1 + 2 * |items| <= points.Length
    modifies points
    ensures ok ==> Placed(c, items, points[..], |items|, |items|)
    ensures !ok ==> exists i :: 0 <= i < |items| && Undecoded(c, items[i])
  {
    var n := |items|;
    points[0] := c.base;
    for i := 0 to n
      invariant Placed(c, items, points[..], i, 0)
    {
      var p := c.unpackNegative(items[i].pk);
      if p.None? {
        assert Undecoded(c, items[i]);
        return false;
      }
      points[1 + i] := p.value;
    }
    for i := 0 to n
      invariant Placed(c, items, points[..], n, i)
    {
      var p := c.unpackNegative(items[i].sig[..32]);
      if p.None? {
        assert Undecoded(c, items[i]);
        return false;
      }
      points[1 + n + i] := p.value;
    }
    return true;
  }

  lemma Weight5(n: nat)
    requires n == 3
    ensures BatchLimbs.Weight(n + 2) == P224 * P56
  {
    Weights(n - 1);
    assert BatchLimbs.Weight(n + 1) == P56 * BatchLimbs.Weight(n);
    assert BatchLimbs.Weight(n + 2) == P56 * BatchLimbs.Weight(n + 1);
  }

  /** The scalars are of the sizes that the multi-scalar multiplication expects. */
  lemma ScalarsSized(s: seq<nat>, ss: seq<nat>, xs: seq<nat>, rs: seq<nat>)
    requires Scalars(s, ss, xs, rs) && |rs| > 0 && forall i :: 0 <= i < |rs| ==> xs[i] < ModM.M && rs[i] < P128
    ensures Sized(s, 1 + 2 * |rs|)
  {
    var n := |rs|;
    Weight5(3);
    forall i | 0 <= i < 1 + 2 * n
      ensures s[i] < ModM.M && (1 + n <= i ==> s[i] < P128)
    {
      if 1 + n <= i {
        assert s[i] == s[1 + n..1 + n + n][i - 1 - n] == rs[i - 1 - n];
      } else if i > 0 {
        assert s[i] == s[1..1 + n][i - 1] == xs[i - 1];
      }
    }
  }

  lemma SmallScalars(hs: seq<nat>, random: seq<Bytes16>)
    requires |hs| == |random|
    ensures forall i :: 0 <= i < |random| ==> Reduced(hs, Rs(random))[i] < ModM.M && Rs(random)[i] < P128
  {
    forall i | 0 <= i < |random|
      ensures Rs(random)[i] < P128
    {
      RandomBound(random[i]);
    }
  }

  // The terms of a batch are looked into only where Viewed names a number.
  ghost predicate Viewed(k: int) {
    true
  }

  /** s and p are the terms of the batch, with the points -A and -R. */
  ghost predicate TermsOf<T(!new)>(c: Curve<T>, items: seq<Item>, rs: seq<nat>, na: seq<T>, nr: seq<T>, s: seq<nat>,
                                   p: seq<T>) {
    forall k {:trigger Viewed(k)} ::
      Viewed(k) ==> Unpacked(c, items, na, nr) && Terms(c, Ss(items), Hs(c, items), rs, na, nr, s, p)
  }

  lemma View<T(!new)>(c: Curve<T>, items: seq<Item>, rs: seq<nat>, na: seq<T>, nr: seq<T>, s: seq<nat>, p: seq<T>)
    requires TermsOf(c, items, rs, na, nr, s, p)
    ensures Unpacked(c, items, na, nr) && Terms(c, Ss(items), Hs(c, items), rs, na, nr, s, p)
  {
    assert Viewed(0);
  }

  /** s and p are the terms of the batch. */
  ghost predicate Posed<T(!new)>(c: Curve<T>, items: seq<Item>, rs: seq<nat>, s: seq<nat>, p: seq<T>) {
    exists na, nr :: TermsOf(c, items, rs, na, nr, s, p)
  }

  lemma PlacedUnpacked<T>(c: Curve<T>, items: seq<Item>, p: seq<T>, n: nat) returns (na: seq<T>, nr: seq<T>)
    requires n == |items| && Placed(c, items, p, n, n)
    ensures na == p[1..1 + n] && nr == p[1 + n..1 + n + n] && Unpacked(c, items, na, nr)
  {
    na, nr := p[1..1 + n], p[1 + n..1 + n + n];
  }

  lemma Pose<T(!new)>(c: Curve<T>, items: seq<Item>, xs: seq<nat>, rs: seq<nat>, s: seq<nat>, p: seq<T>)
    requires |items| == |rs| && Scalars(s, Ss(items), xs, rs) && xs == Reduced(Hs(c, items), rs)
    requires Placed(c, items, p, |items|, |items|)
    ensures Posed(c, items, rs, s, p)
  {
    var na, nr := PlacedUnpacked(c, items, p, |items|);
    assert Terms(c, Ss(items), Hs(c, items), rs, na, nr, s, p);
    assert TermsOf(c, items, rs, na, nr, s, p);
  }

  lemma Prepared<T(!new)>(c: Curve<T>, items: seq<Item>, random: seq<Bytes16>, ss: seq<nat>, xs: seq<nat>, rs: seq<nat>,
                          s: seq<nat>, p: seq<T>)
    requires 0 < |items| == |random| && rs == Rs(random) && ss == Ss(items) && xs == Reduced(Hs(c, items), rs)
    requires Scalars(s, ss, xs, rs) && Placed(c, items, p, |items|, |items|)
    ensures Sized(s, 1 + 2 * |items|) && Posed(c, items, rs, s, p)
  {
    SmallScalars(Hs(c, items), random);
    ScalarsSized(s, ss, xs, rs);
    Pose(c, items, xs, rs, s, p);
  }

  /** The points and scalars of a batch, and the scalar and point that remain. */
  datatype Trace<T> = Trace(na: seq<T>, nr: seq<T>, s: seq<nat>, p: seq<T>, d: nat, q: T)

  /** How many of the terms the multi-scalar multiplication covers. */
  ghost function Reached(s: seq<nat>, count: nat): nat
    requires FirstPart(count) <= count <= |s|
  {
    if Reaches(s, FirstPart(count)) then count else FirstPart(count)
  }

  /** What the multi-scalar multiplication of a batch saw, and what it found. */
  ghost predicate Traced<T(!new)>(c: Curve<T>, items: seq<Item>, rs: seq<nat>, neutral: bool, b: Trace<T>) {
    && |items| == |rs| && TermsOf(c, items, rs, b.na, b.nr, b.s, b.p)
    && var count := 1 + 2 * |items|;
       FirstPart(count) <= count <= |b.s| && Judges(c.g, b.s, b.p, Reached(b.s, count), neutral, b.d, b.q)
  }

  ghost predicate Multiplied<T(!new)>(c: Curve<T>, items: seq<Item>, rs: seq<nat>, neutral: bool) {
    exists b :: Traced(c, items, rs, neutral, b)
  }

  /** One batch up to the test of its result. Where the multiplication leaves the limbs of its scalar, the
      result may be anything. */
  method Batch<T(==, !new)>(c: Curve<T>, f: Sha512.Compression, items: seq<Item>, random: seq<Bytes16>)
    returns (ran: bool, neutral: bool)
    requires Sound(c) && Hashes(c, f) && 3 < |items| == |random| <= MAX_BATCH_SIZE
    ensures ran ==> Multiplied(c, items, Rs(random), neutral)
    ensures !ran ==> exists i :: 0 <= i < |items| && Undecoded(c, items[i])
  {
    var heap, scalars := new nat[HEAP_BATCH_SIZE], new nat[HEAP_BATCH_SIZE];
    var points := new T[HEAP_BATCH_SIZE](_ => c.base);
    ran := Fill(c, f, items, random, scalars, points, Rs(random));
    neutral := false;
    if ran {
      neutral := Test(c, items, Rs(random), heap, scalars, points, 1 + 2 * |items|, scalars[..], points[..]);
    }
  }

  /** The scalars and the points. */
  method Fill<T(!new)>(c: Curve<T>, f: Sha512.Compression, items: seq<Item>, random: seq<Bytes16>, scalars: array<nat>,
                       points: array<T>, ghost rs: seq<nat>)
    returns (ran: bool)
    requires Hashes(c, f) && 0 < |items| == |random| && rs == Rs(random) && scalars as object != points
    requires 1 + 2 * |items| <= scalars.Length && 1 + 2 * |items| <= points.Length
    modifies scalars, points
    ensures ran ==> Sized(scalars[..], 1 + 2 * |items|) && Posed(c, items, rs, scalars[..], points[..])
    ensures !ran ==> exists i :: 0 <= i < |items| && Undecoded(c, items[i])
  {
    ghost var ss, xs := Ss(items), Reduced(Hs(c, items), rs);
    FillScalars(c, f, items, random, scalars, ss, xs, rs);
    ghost var s := scalars[..];
    ran := FillPoints(c, items, points);
    if ran {
      Prepared(c, items, random, ss, xs, rs, s, points[..]);
    }
  }

  method Test<T(==, !new)>(c: Curve<T>, ghost items: seq<Item>, ghost rs: seq<nat>, heap: array<nat>,
                           scalars: array<nat>, points: array<T>, count: nat, ghost s: seq<nat>, ghost p: seq<T>)
    returns (neutral: bool)
    requires Abelian(c.g) && |items| == |rs| && count == 1 + 2 * |items| && Separate(heap, scalars, points, count)
    requires scalars[..] == s && points[..] == p && Sized(s, count) && Posed(c, items, rs, s, p)
    modifies heap, scalars, points
    ensures Multiplied(c, items, rs, neutral)
  {
    neutral := AddsToNeutral(c.g, heap, scalars, points, count, s, p);
    Witness(c, items, rs, s, p, neutral, count);
  }

  lemma Witness<T(!new)>(c: Curve<T>, items: seq<Item>, rs: seq<nat>, s: seq<nat>, p: seq<T>, neutral: bool, count: nat)
    requires |items| == |rs| && count == 1 + 2 * |items| && Posed(c, items, rs, s, p)
             && Tested(c.g, s, p, count, neutral)
    ensures Multiplied(c, items, rs, neutral)
  {
    var na, nr :| TermsOf(c, items, rs, na, nr, s, p);
    var d, q :| Judges(c.g, s, p, Reached(s, count), neutral, d, q);
    assert Traced(c, items, rs, neutral, Trace(na, nr, s, p, d, q));
  }

  /** d is the greatest common divisor of the first n scalars, their terms add to [d]q, and neutral tells whether
      what the last step makes of d and q is the neutral point. */
  ghost predicate Judges<T(!new)>(g: Group<T>, s: seq<nat>, p: seq<T>, n: nat, neutral: bool, d: nat, q: T)
    requires n <= |s|
  {
    && n <= |p| && IsGcd(d, s, n) && Sum(g, s, p, n) == Groups.Mul(g, d, q)
    && var r := MultiScalar.FinalOf(g, d, q);
       r.Some? ==> (neutral <==> r.value == g.zero)
  }

  ghost predicate Tested<T(!new)>(g: Group<T>, s: seq<nat>, p: seq<T>, count: nat, neutral: bool) {
    FirstPart(count) <= count <= |s| && exists d, q :: Judges(g, s, p, Reached(s, count), neutral, d, q)
  }

  /** ge25519_multi_scalarmult_vartime and ge25519_is_neutral_vartime */
  method AddsToNeutral<T(==, !new)>(g: Group<T>, heap: array<nat>, scalars: array<nat>, points: array<T>, count: nat,
                                    ghost s: seq<nat>, ghost p: seq<T>)
    returns (neutral: bool)
    requires Abelian(g) && Separate(heap, scalars, points, count) && count % 2 == 1
    requires scalars[..] == s && points[..] == p && Sized(s, count)
    modifies heap, scalars, points
    ensures Tested(g, s, p, count, neutral)
  {
    var r, extended;
    ghost var d, q, rest;
    r, extended, d, q, rest := MultiScalar.Compute(g, heap, scalars, points, count);
    neutral := *;
    if r.Some? {
      neutral := r.value == g.zero;
    }
    Units(g, Groups.Mul(g, d, q));
    assert Judges(g, s, p, Reached(s, count), neutral, d, q);
  }

  /** Where all terms are covered and the greatest common divisor of the scalars is at most 1, a batch of accepted
      signatures passes exactly when nothing is lost. */
  lemma BatchPasses<T(!new)>(c: Curve<T>, items: seq<Item>, rs: seq<nat>, neutral: bool, b: Trace<T>)
    requires Sound(c) && Traced(c, items, rs, neutral, b) && Reached(b.s, 1 + 2 * |items|) == 1 + 2 * |items|
             && b.d <= 1
    requires forall i :: 0 <= i < |items| ==> Accepted(c, items[i])
    ensures |b.na| == |items| && (neutral <==> Lost(c.g, Hs(c, items), rs, b.na) == c.g.zero)
  {
    View(c, items, rs, b.na, b.nr, b.s, b.p);
    BatchSum(c, items, rs, b.na, b.nr, b.s, b.p);
  }

  /** The scalars of a batch, as the caller could compute them. */
  ghost function ScalarsOf<T>(c: Curve<T>, items: seq<Item>, rs: seq<nat>): seq<nat>
    requires |items| == |rs|
  {
    [Weighted(Ss(items), rs, |rs|) % ModM.M] + Reduced(Hs(c, items), rs) + rs
  }

  /** The multiplication covers all terms of the batch, and their scalars have no common divisor. */
  ghost predicate Covered<T>(c: Curve<T>, items: seq<Item>, rs: seq<nat>)
    requires |items| == |rs|
  {
    var s := ScalarsOf(c, items, rs);
    FirstPart(|s|) <= |s| && Reaches(s, FirstPart(|s|)) && IsGcd(1, s, |s|)
  }

  lemma SamePrefix(s: seq<nat>, t: seq<nat>, n: nat)
    requires n <= |s| && n <= |t| && s[..n] == t[..n]
    ensures TwoNonzero(s, n) ==> TwoNonzero(t, n)
    ensures forall d: nat :: d > 0 ==> (Common(d, s, n) <==> Common(d, t, n))
  {
    assert forall i :: 0 <= i < n ==> s[i] == s[..n][i] == t[..n][i] == t[i];
  }

  lemma GcdIsOne(d: nat, s: seq<nat>, t: seq<nat>, n: nat)
    requires n <= |s| && n <= |t| && s[..n] == t[..n] && IsGcd(1, s, n) && IsGcd(d, t, n)
    ensures d == 1
  {
    var e := if d == 0 then 2 else d;
    SamePrefix(s, t, n);
    assert (Common(e, s, n) <==> 1 % e == 0) && (Common(e, t, n) <==> d % e == 0);
    MultiScalar.OneMod(e);
  }

  lemma TermsScalars<T>(c: Curve<T>, items: seq<Item>, rs: seq<nat>, na: seq<T>, nr: seq<T>, s: seq<nat>, p: seq<T>)
    requires |items| == |rs| && Terms(c, Ss(items), Hs(c, items), rs, na, nr, s, p)
    ensures s[..1 + 2 * |items|] == ScalarsOf(c, items, rs)
  {
    JoinParts(s, Reduced(Hs(c, items), rs), rs, |items|);
  }

  lemma JoinParts(s: seq<nat>, xs: seq<nat>, rs: seq<nat>, n: nat)
    requires 1 + 2 * n <= |s| && |xs| == |rs| == n && s[1..1 + n] == xs && s[1 + n..1 + n + n] == rs
    ensures s[..1 + 2 * n] == [s[0]] + xs + rs
  {
    assert s[..1 + 2 * n] == s[..1] + s[1..1 + n] + s[1 + n..1 + n + n];
  }

  /** A batch that is covered was multiplied out in full. */
  lemma CoveredReached<T(!new)>(c: Curve<T>, items: seq<Item>, rs: seq<nat>, neutral: bool, b: Trace<T>)
    requires Traced(c, items, rs, neutral, b) && Covered(c, items, rs)
    ensures Reached(b.s, 1 + 2 * |items|) == 1 + 2 * |items| && b.d == 1
  {
    var s, n := ScalarsOf(c, items, rs), 1 + 2 * |items|;
    View(c, items, rs, b.na, b.nr, b.s, b.p);
    TermsScalars(c, items, rs, b.na, b.nr, b.s, b.p);
    ReachesSame(s, b.s, n);
    GcdIsOne(b.d, s, b.s, n);
  }

  lemma ReachesSame(s: seq<nat>, t: seq<nat>, n: nat)
    requires FirstPart(n) <= n == |s| <= |t| && t[..n] == s && Reaches(s, FirstPart(n))
    ensures Reaches(t, FirstPart(n))
  {
    var k := FirstPart(n);
    assert s[..k] == t[..n][..k] == t[..k];
    SamePrefix(s, t, k);
  }

  /** The key decodes to a point whose order divides m. */
  ghost predicate InSubgroup<T>(c: Curve<T>, i: Item) {
    c.unpackNegative(i.pk).Some? && Groups.Mul(c.g, ModM.M, c.unpackNegative(i.pk).value) == c.g.zero
  }

  /** A covered batch of accepted signatures under such keys passes. */
  lemma CoveredPasses<T(!new)>(c: Curve<T>, items: seq<Item>, rs: seq<nat>, neutral: bool)
    requires Sound(c) && |items| == |rs| && Multiplied(c, items, rs, neutral) && Covered(c, items, rs)
    requires forall i :: 0 <= i < |items| ==> Accepted(c, items[i]) && InSubgroup(c, items[i])
    ensures neutral
  {
    var b :| Traced(c, items, rs, neutral, b);
    CoveredReached(c, items, rs, neutral, b);
    BatchPasses(c, items, rs, neutral, b);
    View(c, items, rs, b.na, b.nr, b.s, b.p);
    NothingLost(c.g, Hs(c, items), rs, b.na);
  }

  /** An accepted signature decodes. */
  lemma AcceptedDecodes<T(!new)>(c: Curve<T>, i: Item)
    requires Sound(c) && Accepted(c, i)
    ensures !Undecoded(c, i)
  {
    var r := c.g.add(Groups.Mul(c.g, H(c, i), c.unpackNegative(i.pk).value), Mult(c, S(i)));
    assert i.sig[..32] == c.pack(r);
  }

  /** Where the batch of item i starts, and where a batch ends. */
  function Start(i: nat): nat {
    i - i % MAX_BATCH_SIZE
  }

  function End(lo: nat, n: nat): nat {
    if lo + MAX_BATCH_SIZE < n then lo + MAX_BATCH_SIZE else n
  }

  lemma StartIs(lo: nat, i: nat)
    requires lo % MAX_BATCH_SIZE == 0 && lo <= i < lo + MAX_BATCH_SIZE
    ensures Start(i) == lo
  {
  }

  /** Item i is in a batch whose outcome is true. */
  ghost predicate Passed(outcome: map<nat, bool>, i: nat) {
    Start(i) in outcome && outcome[Start(i)]
  }

  /** The answers for the first n items: 1 for those accepted or in a batch that passed, and 0 for the others. */
  ghost predicate Answered<T>(c: Curve<T>, items: seq<Item>, valid: seq<int>, outcome: map<nat, bool>, n: nat) {
    && n <= |items| <= |valid|
    && forall i :: 0 <= i < n ==> valid[i] == if Accepted(c, items[i]) || Passed(outcome, i) then 1 else 0
  }

  /** lo is the start of a batch: there is one at every multiple of 64 with more than three items from there on. */
  predicate IsBatch(lo: nat, n: nat) {
    lo % MAX_BATCH_SIZE == 0 && lo + 3 < n
  }

  /** The batch at lo was multiplied out with the given result. */
  ghost predicate Ran<T(!new)>(c: Curve<T>, items: seq<Item>, random: seq<Bytes16>, lo: nat, neutral: bool) {
    && IsBatch(lo, |items|) && |items| == |random|
    && Multiplied(c, items[lo..End(lo, |items|)], Rs(random[lo..End(lo, |items|)]), neutral)
  }

  /** Some point of the batch at lo does not decode. */
  ghost predicate Unfit<T>(c: Curve<T>, items: seq<Item>, lo: nat) {
    exists i :: lo <= i < End(lo, |items|) && i < |items| && Undecoded(c, items[i])
  }

  /** The outcomes of the batches before at, of all but those with a point that does not decode. */
  ghost predicate Outcomes<T(!new)>(c: Curve<T>, items: seq<Item>, random: seq<Bytes16>, outcome: map<nat, bool>,
                                    at: nat) {
    && (forall lo :: lo in outcome ==> lo < at && Ran(c, items, random, lo, outcome[lo]))
    && (forall lo :: 0 <= lo < at && IsBatch(lo, |items|) && lo !in outcome ==> Unfit(c, items, lo))
  }

  ghost predicate SomeFailed(outcome: map<nat, bool>) {
    exists lo :: lo in outcome && !outcome[lo]
  }

  /** An answer from lo to hi is 0. */
  ghost predicate SomeZero(valid: seq<int>, lo: nat, hi: nat) {
    exists i :: lo <= i < hi && i < |valid| && valid[i] == 0
  }

  lemma OneMore(before: seq<int>, valid: seq<int>, lo: nat, k: nat)
    requires lo <= k < |valid| == |before| && valid == before[k := valid[k]]
    ensures SomeZero(valid, lo, k + 1) <==> SomeZero(before, lo, k) || valid[k] == 0
  {
    assert forall i :: 0 <= i < |valid| && i != k ==> valid[i] == before[i];
    if SomeZero(before, lo, k) {
      var i :| lo <= i < k && i < |before| && before[i] == 0;
      assert valid[i] == 0;
    }
  }

  lemma ZeroJoin(before: seq<int>, valid: seq<int>, lo: nat, hi: nat)
    requires lo <= hi <= |valid| == |before| && before[..lo] == valid[..lo]
    ensures SomeZero(valid, 0, hi) <==> SomeZero(before, 0, lo) || SomeZero(valid, lo, hi)
  {
    assert forall i :: 0 <= i < lo ==> before[i] == before[..lo][i] == valid[..lo][i] == valid[i];
  }

  // valid[i] = sign_open(...) ? 0 : 1 for the items from lo to hi
  method OpenEach<T(!new)>(c: Curve<T>, f: Sha512.Compression, items: seq<Item>, lo: nat, hi: nat, valid: array<int>,
                           ghost outcome: map<nat, bool>)
    returns (invalid: bool)
    requires Sound(c) && Hashes(c, f) && lo <= hi && Answered(c, items, valid[..], outcome, lo) && hi <= |items|
    requires forall i :: lo <= i < hi ==> !Passed(outcome, i)
    modifies valid
    ensures Answered(c, items, valid[..], outcome, hi)
    ensures invalid <==> SomeZero(valid[..], lo, hi)
    ensures forall i :: 0 <= i < lo || hi <= i < valid.Length ==> valid[i] == old(valid[i])
  {
    invalid := false;
    for k := lo to hi
      invariant forall i :: 0 <= i < lo || k <= i < valid.Length ==> valid[i] == old(valid[i])
      invariant Answered(c, items, valid[..], outcome, k)
      invariant invalid <==> SomeZero(valid[..], lo, k)
    {
      var r := SignOpen(c, f, items[k].m, items[k].pk, items[k].sig);
      ghost var before := valid[..];
      valid[k] := if r != 0 then 0 else 1;
      OneMore(before, valid[..], lo, k);
      invalid := invalid || valid[k] == 0;
    }
  }

  /** What ed25519_sign_open_batch promises. The answer is 1 exactly for the signatures that sign_open accepts and for
      all in a batch of more than three that passed. Bit 0 of the result tells whether an answer is 0, and bit 1
      whether a batch did not pass. */
  ghost predicate Opened<T(!new)>(c: Curve<T>, items: seq<Item>, random: seq<Bytes16>, valid: seq<int>,
                                  outcome: map<nat, bool>, ret: int)
  {
    && Outcomes(c, items, random, outcome, |items|) && Answered(c, items, valid, outcome, |items|)
    && 0 <= ret < 4 && (ret % 2 == 1 <==> SomeZero(valid, 0, |items|)) && (ret >= 2 <==> SomeFailed(outcome))
  }

  /** ed25519_sign_open_batch, with 16 random bytes for each item. */
  method OpenBatch<T(==, !new)>(c: Curve<T>, f: Sha512.Compression, items: seq<Item>, random: seq<Bytes16>,
                                valid: array<int>)
    returns (ret: int, ghost outcome: map<nat, bool>)
    requires Sound(c) && Hashes(c, f) && |random| == |items| == valid.Length
    modifies valid
    ensures Opened(c, items, random, valid[..], outcome, ret)
  {
    forall i | 0 <= i < |items| {
      valid[i] := 1;
    }
    var at, invalid, alarm;
    at, invalid, alarm, outcome := OpenBatches(c, f, items, random, valid);
    NoBatchLeft(c, items, random, outcome, at);
    invalid := Settle(c, f, items, at, |items|, valid, outcome, invalid, false);
    ret := Flags(invalid, alarm);
  }

  // The bits of ret.
  function Flags(invalid: bool, alarm: bool): (ret: int)
    ensures 0 <= ret < 4 && (ret % 2 == 1 <==> invalid) && (ret >= 2 <==> alarm)
  {
    (if invalid then 1 else 0) + if alarm then 2 else 0
  }

  // while (num > 3)
  method OpenBatches<T(==, !new)>(c: Curve<T>, f: Sha512.Compression, items: seq<Item>, random: seq<Bytes16>,
                                  valid: array<int>)
    returns (at: nat, invalid: bool, alarm: bool, ghost outcome: map<nat, bool>)
    requires Sound(c) && Hashes(c, f) && |random| == |items| == valid.Length
    requires forall i :: 0 <= i < |items| ==> valid[i] == 1
    modifies valid
    ensures at <= |items| <= at + 3 && (at == |items| || at % MAX_BATCH_SIZE == 0)
    ensures Progress(c, items, random, valid[..], outcome, at, invalid, alarm)
  {
    at, invalid, alarm, outcome := 0, false, false, map[];
    while |items| - at > 3
      invariant at <= |items| && (at == |items| || at % MAX_BATCH_SIZE == 0)
      invariant Progress(c, items, random, valid[..], outcome, at, invalid, alarm)
    {
      NextBatch(at, |items|);
      var hi := End(at, |items|);
      invalid, alarm, outcome := OneBatch(c, f, items, random, at, hi, valid, outcome, invalid, alarm);
      at := hi;
    }
  }

  lemma NextBatch(lo: nat, n: nat)
    requires IsBatch(lo, n)
    ensures lo < End(lo, n) <= n && (End(lo, n) == n || End(lo, n) % MAX_BATCH_SIZE == 0)
  {
  }

  /** The items after the last batch are in none. */
  lemma NoBatchLeft<T(!new)>(c: Curve<T>, items: seq<Item>, random: seq<Bytes16>, outcome: map<nat, bool>, at: nat)
    requires at <= |items| <= at + 3 && (at == |items| || at % MAX_BATCH_SIZE == 0)
    requires Outcomes(c, items, random, outcome, at)
    ensures Outcomes(c, items, random, outcome, |items|) && forall i :: at <= i < |items| ==> !Passed(outcome, i)
  {
    forall i | at <= i < |items|
      ensures !Passed(outcome, i)
    {
      StartIs(at, i);
    }
  }

  /** Between batches: the items before at are answered, and the others still have the answer 1. */
  ghost predicate Progress<T(!new)>(c: Curve<T>, items: seq<Item>, random: seq<Bytes16>, valid: seq<int>,
                                    outcome: map<nat, bool>, at: nat, invalid: bool, alarm: bool)
  {
    && Answered(c, items, valid, outcome, at) && (forall i :: at <= i < |items| ==> valid[i] == 1)
    && (invalid <==> SomeZero(valid, 0, at)) && Outcomes(c, items, random, outcome, at)
    && (alarm <==> SomeFailed(outcome))
  }

  /** The batch from lo to hi, by itself or item by item. */
  ghost function Recorded(outcome: map<nat, bool>, lo: nat, ran: bool, neutral: bool): map<nat, bool> {
    if ran then outcome[lo := neutral] else outcome
  }

  lemma OutcomesStep<T(!new)>(c: Curve<T>, items: seq<Item>, random: seq<Bytes16>, outcome: map<nat, bool>, lo: nat,
                              hi: nat, ran: bool, neutral: bool, after: map<nat, bool>)
    requires IsBatch(lo, |items|) && hi == End(lo, |items|) && Outcomes(c, items, random, outcome, lo)
    requires after == Recorded(outcome, lo, ran, neutral)
    requires if ran then Ran(c, items, random, lo, neutral) else Unfit(c, items, lo)
    ensures Outcomes(c, items, random, after, hi)
  {
    forall k | k in after
      ensures k < hi && Ran(c, items, random, k, after[k])
    {
      StillRan(c, items, random, outcome, lo, hi, ran, neutral, after, k);
    }
    forall k | 0 <= k < hi && IsBatch(k, |items|) && k !in after
      ensures Unfit(c, items, k)
    {
      NoneBetween(lo, k, hi);
    }
  }

  lemma StillRan<T(!new)>(c: Curve<T>, items: seq<Item>, random: seq<Bytes16>, outcome: map<nat, bool>, lo: nat,
                          hi: nat, ran: bool, neutral: bool, after: map<nat, bool>, k: nat)
    requires IsBatch(lo, |items|) && hi == End(lo, |items|) && after == Recorded(outcome, lo, ran, neutral)
    requires forall j :: j in outcome ==> j < lo && Ran(c, items, random, j, outcome[j])
    requires (ran ==> Ran(c, items, random, lo, neutral)) && k in after
    ensures k < hi && Ran(c, items, random, k, after[k])
  {
    if k in outcome {
      assert Ran(c, items, random, k, outcome[k]);
    }
  }

  /** What a batch changes about who passed and what failed. */
  lemma RecordedStep(outcome: map<nat, bool>, lo: nat, hi: nat, ran: bool, neutral: bool, after: map<nat, bool>)
    requires lo % MAX_BATCH_SIZE == 0 && hi <= lo + MAX_BATCH_SIZE && lo !in outcome
    requires after == Recorded(outcome, lo, ran, neutral)
    ensures SomeFailed(after) <==> SomeFailed(outcome) || (ran && !neutral)
    ensures forall i :: 0 <= i < lo ==> (Passed(after, i) <==> Passed(outcome, i))
    ensures forall i :: lo <= i < hi ==> (Passed(after, i) <==> ran && neutral)
  {
    forall i | lo <= i < hi
      ensures Passed(after, i) <==> ran && neutral
    {
      StartIs(lo, i);
    }
    if SomeFailed(outcome) {
      var k :| k in outcome && !outcome[k];
      assert k in after && !after[k];
    } else if ran && !neutral {
      assert lo in after && !after[lo];
    }
  }

  lemma NoneBetween(lo: nat, k: nat, hi: nat)
    requires lo % MAX_BATCH_SIZE == 0 && k % MAX_BATCH_SIZE == 0 && k < hi <= lo + MAX_BATCH_SIZE
    ensures k <= lo
  {
  }

  /** One pass of the outer loop: the batch, and each signature by itself if it does not pass. */
  method OneBatch<T(==, !new)>(c: Curve<T>, f: Sha512.Compression, items: seq<Item>, random: seq<Bytes16>, lo: nat,
                               hi: nat, valid: array<int>, ghost outcome: map<nat, bool>, invalid: bool, alarm: bool)
    returns (invalid': bool, alarm': bool, ghost outcome': map<nat, bool>)
    requires Sound(c) && Hashes(c, f) && |random| == |items| == valid.Length && IsBatch(lo, |items|)
    requires hi == End(lo, |items|) && Progress(c, items, random, valid[..], outcome, lo, invalid, alarm)
    modifies valid
    ensures Progress(c, items, random, valid[..], outcome', hi, invalid', alarm')
  {
    var pass;
    pass, alarm', outcome' := Record(c, f, items, random, lo, hi, outcome, alarm);
    invalid' := Settle(c, f, items, lo, hi, valid, outcome', invalid, pass);
  }

  method Record<T(==, !new)>(c: Curve<T>, f: Sha512.Compression, items: seq<Item>, random: seq<Bytes16>, lo: nat,
                             hi: nat, ghost outcome: map<nat, bool>, alarm: bool)
    returns (pass: bool, alarm': bool, ghost outcome': map<nat, bool>)
    requires Sound(c) && Hashes(c, f) && |random| == |items| && IsBatch(lo, |items|) && hi == End(lo, |items|)
    requires Outcomes(c, items, random, outcome, lo) && (alarm <==> SomeFailed(outcome))
    ensures Outcomes(c, items, random, outcome', hi) && (alarm' <==> SomeFailed(outcome'))
    ensures forall i :: 0 <= i < lo ==> (Passed(outcome', i) <==> Passed(outcome, i))
    ensures forall i :: lo <= i < hi ==> (Passed(outcome', i) <==> pass)
  {
    var ran, neutral := RunBatch(c, f, items, random, lo, hi);
    pass, alarm' := ran && neutral, alarm || (ran && !neutral);
    outcome' := Recorded(outcome, lo, ran, neutral);
    OutcomesStep(c, items, random, outcome, lo, hi, ran, neutral, outcome');
    RecordedStep(outcome, lo, hi, ran, neutral, outcome');
  }

  method RunBatch<T(==, !new)>(c: Curve<T>, f: Sha512.Compression, items: seq<Item>, random: seq<Bytes16>, lo: nat,
                               hi: nat)
    returns (ran: bool, neutral: bool)
    requires Sound(c) && Hashes(c, f) && |random| == |items| && IsBatch(lo, |items|) && hi == End(lo, |items|)
    ensures if ran then Ran(c, items, random, lo, neutral) else Unfit(c, items, lo)
  {
    ran, neutral := Batch(c, f, items[lo..hi], random[lo..hi]);
    if !ran {
      ghost var i :| 0 <= i < hi - lo && Undecoded(c, items[lo..hi][i]);
      assert Undecoded(c, items[lo + i]);
    }
  }

  /** The answers of a batch: left at 1 if it passed, or each by itself. */
  method Settle<T(!new)>(c: Curve<T>, f: Sha512.Compression, items: seq<Item>, lo: nat, hi: nat, valid: array<int>,
                         ghost outcome: map<nat, bool>, invalid: bool, pass: bool)
    returns (invalid': bool)
    requires Sound(c) && Hashes(c, f) && lo <= hi <= |items| == valid.Length
    requires Answered(c, items, valid[..], outcome, lo) && (forall i :: lo <= i < |items| ==> valid[i] == 1)
    requires (invalid <==> SomeZero(valid[..], 0, lo)) && forall i :: lo <= i < hi ==> (Passed(outcome, i) <==> pass)
    modifies valid
    ensures Answered(c, items, valid[..], outcome, hi) && (forall i :: hi <= i < |items| ==> valid[i] == 1)
    ensures invalid' <==> SomeZero(valid[..], 0, hi)
  {
    ghost var before := valid[..];
    invalid' := invalid;
    if !pass {
      var bad := OpenEach(c, f, items, lo, hi, valid, outcome);
      invalid' := invalid || bad;
    }
    ZeroJoin(before, valid[..], lo, hi);
  }

  /** If every signature is accepted under a key whose order divides m, and every batch is covered, the result is 0:
      no signature is looked at by itself but the last three or fewer. */
  lemma AllPass<T(!new)>(c: Curve<T>, items: seq<Item>, random: seq<Bytes16>, valid: seq<int>, outcome: map<nat, bool>,
                         ret: int)
    requires Sound(c) && |items| == |random| && Opened(c, items, random, valid, outcome, ret)
    requires forall i :: 0 <= i < |items| ==> Accepted(c, items[i]) && InSubgroup(c, items[i])
    requires forall lo :: 0 <= lo && IsBatch(lo, |items|) ==> CoveredAt(c, items, random, lo)
    ensures ret == 0 && forall lo: nat :: IsBatch(lo, |items|) ==> lo in outcome && outcome[lo]
  {
    forall lo: nat | IsBatch(lo, |items|)
      ensures lo in outcome && outcome[lo]
    {
      BatchFit(c, items, lo);
      BatchPass(c, items, random, outcome, lo);
    }
    NoZero(c, items, valid, outcome);
    BitsOf(ret, SomeFailed(outcome));
  }

  ghost predicate CoveredAt<T>(c: Curve<T>, items: seq<Item>, random: seq<Bytes16>, lo: nat)
    requires IsBatch(lo, |items|) && |items| == |random|
  {
    Covered(c, items[lo..End(lo, |items|)], Rs(random[lo..End(lo, |items|)]))
  }

  lemma BatchFit<T(!new)>(c: Curve<T>, items: seq<Item>, lo: nat)
    requires Sound(c) && IsBatch(lo, |items|) && forall i :: 0 <= i < |items| ==> Accepted(c, items[i])
    ensures !Unfit(c, items, lo)
  {
    forall i | lo <= i < End(lo, |items|)
      ensures !Undecoded(c, items[i])
    {
      AcceptedDecodes(c, items[i]);
    }
  }

  lemma BatchPass<T(!new)>(c: Curve<T>, items: seq<Item>, random: seq<Bytes16>, outcome: map<nat, bool>, lo: nat)
    requires Sound(c) && |items| == |random| && IsBatch(lo, |items|) && lo in outcome
    requires Ran(c, items, random, lo, outcome[lo]) && CoveredAt(c, items, random, lo)
    requires forall i :: 0 <= i < |items| ==> Accepted(c, items[i]) && InSubgroup(c, items[i])
    ensures outcome[lo]
  {
    var hi := End(lo, |items|);
    CoveredPasses(c, items[lo..hi], Rs(random[lo..hi]), outcome[lo]);
  }

  /** A single batch of accepted signatures: the result is what the multiplication found. */
  lemma SingleBatch<T(!new)>(c: Curve<T>, items: seq<Item>, random: seq<Bytes16>, valid: seq<int>,
                             outcome: map<nat, bool>, ret: int)
    requires Sound(c) && 3 < |items| == |random| <= MAX_BATCH_SIZE && Opened(c, items, random, valid, outcome, ret)
    requires forall i :: 0 <= i < |items| ==> Accepted(c, items[i])
    ensures 0 in outcome && Multiplied(c, items, Rs(random), outcome[0]) && ret == if outcome[0] then 0 else 2
    ensures |items| <= |valid| && forall i :: 0 <= i < |items| ==> valid[i] == 1
  {
    BatchFit(c, items, 0);
    FirstRan(c, items, random, outcome);
    OnlyFirst(c, items, random, outcome);
    NoZero(c, items, valid, outcome);
    BitsOf(ret, SomeFailed(outcome));
  }

  /** The batches start at the multiples of 64 from which on there are more than three items, and have up to 64. All of
      them have outcomes, but those with a point that does not decode. */
  lemma OutcomesExactly<T(!new)>(c: Curve<T>, items: seq<Item>, random: seq<Bytes16>, valid: seq<int>,
                                 outcome: map<nat, bool>, ret: int, lo: nat, hi: nat)
    requires Opened(c, items, random, valid, outcome, ret) && |items| == |random|
    requires lo <= hi && hi == if lo + 64 < |items| then lo + 64 else |items|
    ensures lo in outcome ==> && lo % 64 == 0 && lo + 3 < |items|
                              && Multiplied(c, items[lo..hi], Rs(random[lo..hi]), outcome[lo])
    ensures lo % 64 == 0 && lo + 3 < |items| && lo !in outcome ==>
              exists i :: lo <= i < hi && (c.unpackNegative(items[i].pk).None?
                                           || c.unpackNegative(items[i].sig[..32]).None?)
  {
    assert lo in outcome ==> Ran(c, items, random, lo, outcome[lo]);
    if lo % 64 == 0 && lo + 3 < |items| && lo !in outcome {
      assert IsBatch(lo, |items|);
      var i :| lo <= i < End(lo, |items|) && i < |items| && Undecoded(c, items[i]);
    }
  }

  /** Where at most three items are left from a multiple of 64 on, they are opened one by one. */
  lemma LastSingly<T(!new)>(c: Curve<T>, items: seq<Item>, random: seq<Bytes16>, valid: seq<int>,
                            outcome: map<nat, bool>, ret: int, k: nat, i: nat)
    requires Opened(c, items, random, valid, outcome, ret) && 64 * k <= i < |items| <= 64 * k + 3
    ensures |items| <= |valid| && valid[i] == if Accepts(c, items[i].pk, items[i].m, items[i].sig) then 1 else 0
  {
    StartIs(64 * k, i);
    assert !IsBatch(64 * k, |items|);
  }

  /** So opening up to three items as a batch is opening each of them. */
  lemma FewSingly<T(!new)>(c: Curve<T>, items: seq<Item>, random: seq<Bytes16>, valid: seq<int>,
                           outcome: map<nat, bool>, ret: int)
    requires Opened(c, items, random, valid, outcome, ret) && |items| <= 3
    ensures ret == if forall i :: 0 <= i < |items| ==> Accepts(c, items[i].pk, items[i].m, items[i].sig) then 0 else 1
  {
    forall i | 0 <= i < |items|
      ensures |items| <= |valid| && valid[i] == if Accepts(c, items[i].pk, items[i].m, items[i].sig) then 1 else 0
    {
      LastSingly(c, items, random, valid, outcome, ret, 0, i);
    }
    assert !SomeFailed(outcome);
    Odd(ret, SomeZero(valid, 0, |items|));
  }

  lemma Odd(ret: int, invalid: bool)
    requires 0 <= ret < 2 && (ret % 2 == 1 <==> invalid)
    ensures ret == if invalid then 1 else 0
  {
  }

  lemma NoZero<T>(c: Curve<T>, items: seq<Item>, valid: seq<int>, outcome: map<nat, bool>)
    requires Answered(c, items, valid, outcome, |items|) && forall i :: 0 <= i < |items| ==> Accepted(c, items[i])
    ensures !SomeZero(valid, 0, |items|) && forall i :: 0 <= i < |items| ==> valid[i] == 1
  {
  }

  lemma BitsOf(ret: int, alarm: bool)
    requires 0 <= ret < 4 && ret % 2 != 1 && (ret >= 2 <==> alarm)
    ensures ret == if alarm then 2 else 0
  {
  }

  lemma FirstRan<T(!new)>(c: Curve<T>, items: seq<Item>, random: seq<Bytes16>, outcome: map<nat, bool>)
    requires 3 < |items| == |random| <= MAX_BATCH_SIZE && Outcomes(c, items, random, outcome, |items|)
    requires !Unfit(c, items, 0)
    ensures 0 in outcome && Multiplied(c, items, Rs(random), outcome[0])
  {
    assert IsBatch(0, |items|);
    assert items[0..End(0, |items|)] == items && random[0..End(0, |items|)] == random;
    assert Ran(c, items, random, 0, outcome[0]);
  }

  lemma OnlyFirst<T(!new)>(c: Curve<T>, items: seq<Item>, random: seq<Bytes16>, outcome: map<nat, bool>)
    requires 3 < |items| == |random| <= MAX_BATCH_SIZE && Outcomes(c, items, random, outcome, |items|)
    requires 0 in outcome
    ensures SomeFailed(outcome) <==> !outcome[0]
  {
    forall lo | lo in outcome
      ensures lo == 0
    {
      assert Ran(c, items, random, lo, outcome[lo]);
      NoneBetween(0, lo, |items|);
    }
  }

  /** So for signatures made by sign: all are answered 1, and the result is 0. */
  lemma SignedPass<T(!new)>(c: Curve<T>, sks: seq<seq<u8>>, items: seq<Item>, random: seq<Bytes16>, valid: seq<int>,
                            outcome: map<nat, bool>, ret: int)
    requires Sound(c) && |items| == |random| == |sks| && Opened(c, items, random, valid, outcome, ret)
    requires forall i :: 0 <= i < |items| ==> Made(c, sks[i], items[i])
    requires forall lo :: 0 <= lo && IsBatch(lo, |items|) ==> CoveredAt(c, items, random, lo)
    ensures ret == 0 && forall i :: 0 <= i < |items| ==> valid[i] == 1
  {
    forall i | 0 <= i < |items|
      ensures Accepted(c, items[i]) && InSubgroup(c, items[i])
    {
      assert Made(c, sks[i], items[i]);
      Completeness(c, sks[i], items[i].m, items[i].sig);
      MadeKeys(c, sks[i]);
    }
    AllPass(c, items, random, valid, outcome, ret);
  }

  /** A signature made with a secret key, under its public key. */
  ghost predicate Made<T>(c: Curve<T>, sk: seq<u8>, i: Item) {
    i.pk == PublicKey(c, sk) && IsSignature(c, sk, i.pk, i.m, i.sig)
  }
}
