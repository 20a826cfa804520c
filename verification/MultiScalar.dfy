/** The last step of multi-scalar multiplication, and the whole of it (ed25519-donna-batchverify.h). */
module MultiScalar {
  import opened Words
  import opened Groups
  import opened Options
  import opened BosCoster
  import opened Radix
  import ModM

  /** s >> k */
  function Shift(s: nat, k: nat): nat {
    if k == 0 then s else Shift(s, k - 1) / 2
  }

  lemma Halved(s: nat, x: nat, p: nat)
    requires x * p <= s < (x + 1) * p
    ensures x / 2 * (2 * p) <= s < (x / 2 + 1) * (2 * p)
  {
    var y := x / 2;
    assert y * (2 * p) == 2 * y * p && (y + 1) * (2 * p) == (2 * y + 2) * p;
    assert 2 * y * p <= x * p && (x + 1) * p <= (2 * y + 2) * p;
  }

  lemma {:induction false} ShiftBound(s: nat, k: nat)
    ensures Shift(s, k) * Pow(2, k) <= s < (Shift(s, k) + 1) * Pow(2, k)
  {
    if k > 0 {
      ShiftBound(s, k - 1);
      Halved(s, Shift(s, k - 1), Pow(2, k - 1));
    }
  }

  lemma ShiftedOut(s: nat, k: nat)
    requires s < Pow(2, k)
    ensures Shift(s, k) == 0
  {
    ShiftBound(s, k);
    MulAtLeast(Pow(2, k), Shift(s, k), 1);
  }

  const P223: int := P224 / 2

  // The exponents are variables, so that the powers are not unfolded.
  lemma Powers(n: nat)
    requires n == 224
    ensures Pow(2, n) == P224 && Pow(2, n - 1) == P223
  {
    var m := 56;
    Pow56(m);
    PowAdd(2, m, m);
    PowAdd(2, 2 * m, 2 * m);
  }

  lemma Pow56(n: nat)
    requires n == 56
    ensures Pow(2, n) == P56
  {
    var m := 14;
    assert Pow(2, 14) == 0x4000;
    PowAdd(2, m, m);
    PowAdd(2, 2 * m, 2 * m);
  }

  /** The bits below position 224 are those of the number modulo 2^224. */
  lemma {:induction false} ShiftLow(low: nat, high: nat, k: nat, n: nat)
    requires k <= n
    ensures Shift(low + high * Pow(2, n), k) == Shift(low, k) + high * Pow(2, n - k)
  {
    if k > 0 {
      ShiftLow(low, high, k - 1, n);
      DoubleTerm(high, Pow(2, n - k));
      HalfSum(Shift(low, k - 1), high * Pow(2, n - k));
    }
  }

  lemma DoubleTerm(h: nat, q: nat)
    ensures h * (2 * q) == 2 * (h * q)
  {
    MulAssoc(h, 2, q);
    MulAssoc(2, h, q);
  }

  lemma HalfSum(a: nat, b: nat)
    ensures (a + 2 * b) / 2 == a / 2 + b && (a + 2 * b) % 2 == a % 2
  {
  }

  lemma BitLow(s: nat, k: nat, n: nat)
    requires k < n == 224
    ensures Shift(s, k) % 2 == Shift(s % P224, k) % 2
  {
    Powers(n);
    LowBit(s % P224, s / P224, k, n);
  }

  lemma LowBit(low: nat, high: nat, k: nat, n: nat)
    requires k < n
    ensures Shift(low + high * Pow(2, n), k) % 2 == Shift(low, k) % 2
  {
    ShiftLow(low, high, k, n);
    DoubleTerm(high, Pow(2, n - k - 1));
    HalfSum(Shift(low, k), high * Pow(2, n - k - 1));
  }

  /** The scan for the first set bit, limb by limb from limb 3 and so from bit 223 down: limb 4 is never
      read. When limbs 0 to 3 are zero the index falls below 0, for which the answer here is None. */
  method LeadingBit(s: nat) returns (k: Option<nat>)
    ensures k.None? <==> s % P224 == 0
    ensures k.Some? ==> k.value < 224 && Shift(s % P224, k.value) == 1
  {
    ghost var low := s % P224;
    var n := 224;
    Powers(n);
    ShiftedOut(low, n);
    while n > 0
      invariant 0 <= n <= 224 && Shift(low, n) == 0
    {
      n := n - 1;
      BitLow(s, n, 224);
      if Shift(s, n) % 2 == 1 {
        ShiftBound(low, n);
        PowMono(2, n, n);
        return Some(n);
      }
    }
    return None;
  }

  /** The loop of the general branch, from r = point at the leading bit down to bit 0. */
  method DoubleAndAdd<T(!new)>(g: Group<T>, point: T, s: nat, top: nat) returns (r: T)
    requires Abelian(g) && top < 224 && Shift(s % P224, top) == 1
    ensures r == Groups.Mul(g, s % P224 + Pow(2, top + 1), point)
  {
    r := point;
    MulOne(g, point);
    var k := top + 1;
    ghost var low := s % P224;
    assert Shift(low, k) == 0;
    while k > 0
      invariant 0 <= k <= top + 1
      invariant r == Groups.Mul(g, Shift(low, k) + Pow(2, top + 1 - k), point)
    {
      k := k - 1;
      ghost var m := Shift(low, k + 1) + Pow(2, top - k);
      MulAdd(g, m, m, point);
      r := g.add(r, r);
      BitLow(s, k, 224);
      if Shift(s, k) % 2 == 1 {
        MulAdd(g, 2 * m, 1, point);
        r := g.add(r, point);
      }
      assert Pow(2, top + 1 - k) == 2 * Pow(2, top - k);
    }
  }

  /** The number of bits of n. */
  function Length(n: nat): nat {
    if n == 0 then 0 else 1 + Length(n / 2)
  }

  lemma {:induction false} ShiftLength(n: nat, k: nat)
    requires Shift(n, k) > 0
    ensures Length(n) == Length(Shift(n, k)) + k
  {
    if k > 0 {
      ShiftLength(n, k - 1);
    }
  }

  /** What the last step makes of a point and a scalar: the general branch starts from r = point and adds the point
      again for the leading bit of the low 224 bits, and leaves the limbs when those bits are all zero. */
  function FinalOf<T>(g: Group<T>, s: nat, point: T): Option<T> {
    if s <= 1 then Some(Groups.Mul(g, s, point))
    else if s % P224 == 0 then None
    else Some(Groups.Mul(g, s % P224 + Pow(2, Length(s % P224)), point))
  }

  /** ge25519_multi_scalarmult_vartime_final. On a point of order m the result is [s]point exactly for s <= 1, and
      where limb 4 is 1 and makes up for the doubled leading bit 223. */
  method Final<T(!new)>(g: Group<T>, point: T, s: nat) returns (r: Option<T>)
    requires Abelian(g)
    ensures r == FinalOf(g, s, point)
    ensures HasOrder(g, ModM.M, point) && s < ModM.M
            ==> (r == Some(Groups.Mul(g, s, point)) <==> s <= 1 || s / P223 == 3)
  {
    MulOne(g, point);
    if s == 1 {
      return Some(point);
    } else if s == 0 {
      return Some(g.zero);
    }
    r := General(g, point, s);
    if HasOrder(g, ModM.M, point) && s < ModM.M {
      GeneralExact(g, point, s);
    }
  }

  /** The general branch. */
  method General<T(!new)>(g: Group<T>, point: T, s: nat) returns (r: Option<T>)
    requires Abelian(g) && s >= 2
    ensures r == FinalOf(g, s, point)
  {
    var top := LeadingBit(s);
    if top.None? {
      return None;
    }
    var p := DoubleAndAdd(g, point, s, top.value);
    TopBitLength(s % P224, top.value);
    r := Some(p);
  }

  lemma GeneralExact<T(!new)>(g: Group<T>, point: T, s: nat)
    requires Abelian(g) && s >= 2 && HasOrder(g, ModM.M, point) && s < ModM.M
    ensures FinalOf(g, s, point) == Some(Groups.Mul(g, s, point)) <==> s / P223 == 3
  {
    var low := s % P224;
    if low == 0 {
      NoLowBits(s);
    } else {
      var k := LowLength(low, 224);
      FinalExact(g, point, s, k);
    }
  }

  /** The leading bit of a number below 2^n, n = 224. */
  lemma LowLength(low: nat, n: nat) returns (k: nat)
    requires 0 < low < P224 && n == 224
    ensures k < n && Shift(low, k) == 1 && Length(low) == k + 1
  {
    k := TopBit(low);
    TopBitLength(low, k);
    ShiftBound(low, k);
    Powers(n);
    if k >= n {
      PowMono(2, n, k);
    }
  }

  lemma {:induction false} TopBit(low: nat) returns (k: nat)
    requires low > 0
    ensures Shift(low, k) == 1
  {
    if low == 1 {
      k := 0;
    } else {
      var j := TopBit(low / 2);
      k := j + 1;
      ShiftHalf(low, j);
    }
  }

  lemma {:induction false} ShiftHalf(n: nat, k: nat)
    ensures Shift(n / 2, k) == Shift(n, k + 1)
  {
    if k > 0 {
      ShiftHalf(n, k - 1);
    }
  }

  lemma TopBitLength(n: nat, k: nat)
    requires Shift(n, k) == 1
    ensures Length(n) == k + 1 && n > 0
  {
    ShiftLength(n, k);
    assert Length(1) == 1 + Length(0);
    if n == 0 {
      ShiftZero(k);
    }
  }

  lemma {:induction false} ShiftZero(k: nat)
    ensures Shift(0, k) == 0
  {
    if k > 0 {
      ShiftZero(k - 1);
    }
  }

  lemma NoLowBits(s: nat)
    requires s % P224 == 0
    ensures s / P223 != 3
  {
    assert s == 2 * (s / P224) * P223;
  }

  /** On a point of order m the general branch yields [s]point exactly when the leading bit is 223 and
      limb 4 is 1. */
  lemma FinalExact<T(!new)>(g: Group<T>, point: T, s: nat, k: nat)
    requires Abelian(g) && HasOrder(g, ModM.M, point) && s < ModM.M && k < 224 && Shift(s % P224, k) == 1
    ensures Groups.Mul(g, s % P224 + Pow(2, k + 1), point) == Groups.Mul(g, s, point) <==> s / P223 == 3
  {
    var low, high := s % P224, s / P224;
    SameMultiple(g, ModM.M, point, low + Pow(2, k + 1), s);
    ShiftBound(low, k);
    LeadingPower(k, 224);
    DifferenceZero(low, high, Pow(2, k));
  }

  lemma LeadingPower(k: nat, n: nat)
    requires k < n == 224
    ensures 0 < Pow(2, k) && Pow(2, k + 1) == 2 * Pow(2, k) <= P224 && (Pow(2, k + 1) <= P223 || Pow(2, k + 1) == P224)
  {
    Powers(n);
    PowMono(2, k, k);
    PowMono(2, k + 1, n);
    if k < n - 1 {
      PowMono(2, k + 1, n - 1);
    } else {
      assert k + 1 == n;
    }
  }

  lemma DifferenceZero(low: nat, high: nat, p: nat)
    requires low < P224 && low + high * P224 < ModM.M && 0 < p && 2 * p <= P224 && p <= low < 2 * p
    requires 2 * p <= P223 || 2 * p == P224
    ensures (low + 2 * p - (low + high * P224)) % ModM.M == 0 <==> (low + high * P224) / P223 == 3
  {
    var s, n := low + high * P224, 2 * p - high * P224;
    assert -ModM.M < n < ModM.M;
    SmallMultiple(n, ModM.M);
    if n == 0 {
      assert high == 1;
    }
  }

  lemma SmallMultiple(n: int, m: int)
    requires -m < n < m
    ensures n % m == 0 <==> n == 0
  {
    if n < 0 {
      ModUnique(n, n + m, -1, m);
    }
  }

  /** All scalars are 1. */
  ghost predicate Ones(s: seq<nat>, n: nat) {
    n <= |s| && forall i :: 0 <= i < n ==> s[i] == 1
  }

  lemma OnesReach(s: seq<nat>, count: nat)
    requires count >= 5 && Ones(s, count)
    ensures FirstPart(count) <= count && Small(s, FirstPart(count)) && InHeapOrder(s, count)
            && Reaches(s, FirstPart(count))
  {
    assert s[0] != 0 && s[1] != 0;
    forall d: nat | d >= P128
      ensures !Common(d, s, FirstPart(count))
    {
      assert s[0] % d == 1;
    }
  }

  lemma OnesGcd(d: nat, s: seq<nat>, n: nat)
    requires 0 < n <= |s| && Ones(s, n) && IsGcd(d, s, n)
    ensures d == 1
  {
    var e := if d == 0 then 2 else d;
    assert Common(e, s, n) <==> d % e == 0;
    OneMod(e);
    assert s[0] == 1;
  }

  lemma OneMod(e: nat)
    ensures e > 1 ==> 1 % e == 1
  {
  }

  lemma LastZero(s: seq<nat>, d: nat, n: nat)
    requires 0 < n <= |s| && IsGcd(d, s[n - 1 := 0], n)
    ensures IsGcd(d, s, n - 1)
  {
    var t := s[n - 1 := 0];
    forall e: nat | e > 0
      ensures Common(e, s, n - 1) <==> d % e == 0
    {
      assert Common(e, t, n) <==> d % e == 0;
      CommonSplit(e, t, n - 1, n);
      assert forall i :: 0 <= i < n - 1 ==> t[i] == s[i];
    }
  }

  lemma Cancelled<T(!new)>(g: Group<T>, a: T, b: T, c: T)
    requires Abelian(g) && g.add(a, c) == g.add(b, c)
    ensures a == b
  {
    CancelRight(g, a, c);
    CancelRight(g, b, c);
  }

  lemma OnlyWithZero<T(!new)>(g: Group<T>, a: T, b: T)
    requires Abelian(g)
    ensures a == g.add(a, b) <==> b == g.zero
  {
    Units(g, a);
    Comm(g, a, b);
    Comm(g, a, g.zero);
    if a == g.add(a, b) {
      Cancelled(g, b, g.zero, a);
    }
  }

  /** For an even count and 128-bit scalars in heap order, the term left out is the last one. */
  lemma LastLeftOut<T(!new)>(g: Group<T>, s: seq<nat>, p: seq<T>, s0: seq<nat>, p0: seq<T>, count: nat, max1: nat,
                             left: Option<nat>, e: Standing<T>)
    requires Abelian(g) && count % 2 == 0 && Reduced(g, s, p, s0, p0, count, max1, true, left, e)
    requires Small(s0, FirstPart(count)) && InHeapOrder(s0, count)
    ensures Rest(g, left, s, p) == Groups.Mul(g, s0[count - 1], p0[count - 1])
    ensures IsGcd(s[max1], s0, count - 1) && Groups.Mul(g, s[max1], p[max1]) == Sum(g, s0, p0, count - 1)
  {
    assert left == Some(count - 1);
    LastZero(s0, s[max1], count);
    Cancelled(g, Groups.Mul(g, s[max1], p[max1]), Sum(g, s0, p0, count - 1),
              Groups.Mul(g, s0[count - 1], p0[count - 1]));
  }

  /** ge25519_multi_scalarmult_vartime. With d the scalar left for point q, and rest the term the loop left
      out (none for an odd count), the sum of the terms taken in is [d]q + rest; for d <= 1 the result is that
      sum exactly when rest is neutral. For an odd count d is the greatest common divisor of the scalars taken
      in, and on a q of order m the result is the sum exactly when d <= 1 or d / 2^223 = 3. For every even count
      there are inputs on which the result is wrong: with all scalars 1 it is the sum of all points but the last. */
  method Compute<T(!new)>(g: Group<T>, heap: array<nat>, scalars: array<nat>, points: array<T>, count: nat)
    returns (r: Option<T>, extended: bool, ghost d: nat, ghost q: T, ghost rest: T)
    requires Abelian(g) && Separate(heap, scalars, points, count) && Sized(scalars[..], count)
    modifies heap, scalars, points
    ensures extended <==> Reaches(old(scalars[..]), FirstPart(count))
    ensures var n := if extended then count else FirstPart(count);
            var sum := Sum(g, old(scalars[..]), old(points[..]), n);
            && sum == g.add(Groups.Mul(g, d, q), rest) && r == FinalOf(g, d, q)
            && (d <= 1 ==> (r == Some(sum) <==> rest == g.zero))
            && (count % 2 == 1 || !extended ==> rest == g.zero && IsGcd(d, old(scalars[..]), n))
            && (rest == g.zero && HasOrder(g, ModM.M, q) && d < ModM.M ==>
                (r == Some(sum) <==> d <= 1 || d / P223 == 3))
    ensures extended ==> d < P128
    ensures (forall i :: 0 <= i < count ==> old(scalars[i]) < ModM.M) ==> d < ModM.M
    ensures var s0, p0 := old(scalars[..]), old(points[..]);
            count % 2 == 0 && extended && Small(s0, FirstPart(count)) && InHeapOrder(s0, count) ==>
              && rest == Groups.Mul(g, s0[count - 1], p0[count - 1])
              && IsGcd(d, s0, count - 1) && Groups.Mul(g, d, q) == Sum(g, s0, p0, count - 1)
    ensures var s0, p0 := old(scalars[..]), old(points[..]);
            count % 2 == 0 && Ones(s0, count) ==>
              && extended && r == Some(Sum(g, s0, p0, count - 1))
              && (r == Some(Sum(g, s0, p0, count)) <==> p0[count - 1] == g.zero)
  {
    ghost var s0, p0 := scalars[..], points[..];
    var max1;
    ghost var left, e;
    max1, extended, left, e := Reduce(g, heap, scalars, points, count);
    d, q, rest := scalars[max1], points[max1], Rest(g, left, scalars[..], points[..]);
    r := Final(g, points[max1], scalars[max1]);
    assert s0[max1] == old(scalars[max1]);
    Units(g, Groups.Mul(g, d, q));
    OnlyWithZero(g, Groups.Mul(g, d, q), rest);
    EvenCount(g, scalars[..], points[..], s0, p0, count, max1, extended, left, e);
  }

  lemma EvenCount<T(!new)>(g: Group<T>, s: seq<nat>, p: seq<T>, s0: seq<nat>, p0: seq<T>, count: nat, max1: nat,
                           extended: bool, left: Option<nat>, e: Standing<T>)
    requires Abelian(g) && count >= 5 && Reduced(g, s, p, s0, p0, count, max1, extended, left, e)
    ensures count % 2 == 0 && extended && Small(s0, FirstPart(count)) && InHeapOrder(s0, count) ==>
              && Rest(g, left, s, p) == Groups.Mul(g, s0[count - 1], p0[count - 1])
              && IsGcd(s[max1], s0, count - 1) && Groups.Mul(g, s[max1], p[max1]) == Sum(g, s0, p0, count - 1)
    ensures count % 2 == 0 && Ones(s0, count) ==>
              && extended && s[max1] == 1
              && (Sum(g, s0, p0, count - 1) == Sum(g, s0, p0, count) <==> p0[count - 1] == g.zero)
  {
    if count % 2 == 0 && Ones(s0, count) {
      OnesReach(s0, count);
      MulOne(g, p0[count - 1]);
      OnlyWithZero(g, Sum(g, s0, p0, count - 1), p0[count - 1]);
    }
    if count % 2 == 0 && extended && Small(s0, FirstPart(count)) && InHeapOrder(s0, count) {
      LastLeftOut(g, s, p, s0, p0, count, max1, left, e);
      if Ones(s0, count) {
        OnesGcd(s[max1], s0, count - 1);
      }
    }
  }
}
