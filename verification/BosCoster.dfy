/** Multi-scalar multiplication by repeated subtraction of the second largest scalar from the
    largest (ed25519-donna-batchverify.h), over an abstract group of points. */
module BosCoster {
  import opened Words
  import opened Groups
  import opened BatchLimbs
  import Radix
  import opened BatchHeap
  import opened Options

  /** [s0]p0 + ... + [s(n-1)]p(n-1) */
  ghost function Sum<T>(g: Group<T>, s: seq<nat>, p: seq<T>, n: nat): T
    requires n <= |s| && n <= |p|
  {
    if n == 0 then g.zero else g.add(Sum(g, s, p, n - 1), Groups.Mul(g, s[n - 1], p[n - 1]))
  }

  ghost function Total(s: seq<nat>, n: nat): nat
    requires n <= |s|
  {
    if n == 0 then 0 else Total(s, n - 1) + s[n - 1]
  }

  lemma {:induction false} TotalStep(s: seq<nat>, a: nat, d: nat, n: nat)
    requires n <= |s| && a < |s| && d <= s[a]
    ensures Total(s[a := s[a] - d], n) == if a < n then Total(s, n) - d else Total(s, n)
  {
    if n > 0 {
      TotalStep(s, a, d, n - 1);
    }
  }

  lemma {:induction false} SumSame<T(!new)>(g: Group<T>, s: seq<nat>, p: seq<T>, t: seq<nat>, q: seq<T>, n: nat)
    requires n <= |s| && n <= |p| && n <= |t| && n <= |q| && s[..n] == t[..n] && p[..n] == q[..n]
    ensures Sum(g, s, p, n) == Sum(g, t, q, n)
  {
    if n > 0 {
      assert s[..n - 1] == s[..n][..n - 1] && t[..n - 1] == t[..n][..n - 1];
      assert p[..n - 1] == p[..n][..n - 1] && q[..n - 1] == q[..n][..n - 1];
      assert s[n - 1] == s[..n][n - 1] && p[n - 1] == p[..n][n - 1];
      SumSame(g, s, p, t, q, n - 1);
    }
  }

  /** Changing term a adds the difference to the sum. */
  lemma {:induction false} SumUpdate<T(!new)>(g: Group<T>, s: seq<nat>, p: seq<T>, t: seq<nat>, q: seq<T>,
                                              a: nat, n: nat, d: T)
    requires Abelian(g) && a < n <= |s| && n <= |p| && |t| == |s| && |q| == |p|
    requires forall i :: 0 <= i < n && i != a ==> t[i] == s[i] && q[i] == p[i]
    requires Groups.Mul(g, t[a], q[a]) == g.add(Groups.Mul(g, s[a], p[a]), d)
    ensures Sum(g, t, q, n) == g.add(Sum(g, s, p, n), d)
  {
    if n - 1 == a {
      SumSame(g, s, p, t, q, a);
      Assoc(g, Sum(g, s, p, a), Groups.Mul(g, s[a], p[a]), d);
    } else {
      SumUpdate(g, s, p, t, q, a, n - 1, d);
      var x, y := Sum(g, s, p, n - 1), Groups.Mul(g, s[n - 1], p[n - 1]);
      Assoc(g, x, d, y);
      Comm(g, d, y);
      Assoc(g, x, y, d);
    }
  }

  /** [s1]p1 + [s2]p2 = [s1 - s2]p1 + [s2](p2 + p1): the sum is unchanged by a step. */
  lemma SumStep<T(!new)>(g: Group<T>, s: seq<nat>, p: seq<T>, a: nat, b: nat, n: nat)
    requires Abelian(g) && a < n && b < n && a != b && n <= |s| && n <= |p| && s[b] <= s[a]
    ensures Sum(g, s[a := s[a] - s[b]], p[b := g.add(p[b], p[a])], n) == Sum(g, s, p, n)
  {
    var d := Groups.Mul(g, s[b], p[a]);
    var s' := s[a := s[a] - s[b]];
    assert Groups.Mul(g, s[a] - s[b], p[a]) == g.add(Groups.Mul(g, s[a], p[a]), g.neg(d)) by {
      var m: int := s[b];
      MulAdd(g, s[a], -m, p[a]);
      MulNeg(g, m, p[a]);
    }
    SumUpdate(g, s, p, s', p, a, n, g.neg(d));
    MulSum(g, s[b], p[b], p[a]);
    SumUpdate(g, s', p, s', p[b := g.add(p[b], p[a])], b, n, d);
    CancelRight(g, Sum(g, s, p, n), d);
  }

  lemma {:induction false} SumSingle<T(!new)>(g: Group<T>, s: seq<nat>, p: seq<T>, a: nat, n: nat)
    requires Abelian(g) && n <= |s| && n <= |p| && forall i :: 0 <= i < n && i != a ==> s[i] == 0
    ensures Sum(g, s, p, n) == if a < n then Groups.Mul(g, s[a], p[a]) else g.zero
  {
    if n > 0 {
      SumSingle(g, s, p, a, n - 1);
      Units(g, Sum(g, s, p, n - 1));
      Units(g, Groups.Mul(g, s[n - 1], p[n - 1]));
    }
  }

  /** With two terms left the sum is the sum of both. */
  lemma SumPair<T(!new)>(g: Group<T>, s: seq<nat>, p: seq<T>, a: nat, b: nat, n: nat)
    requires Abelian(g) && n <= |s| && n <= |p| && a < n && b < n && a != b
    requires forall i :: 0 <= i < n && i != a && i != b ==> s[i] == 0
    ensures Sum(g, s, p, n) == g.add(Groups.Mul(g, s[a], p[a]), Groups.Mul(g, s[b], p[b]))
  {
    var t := s[b := 0];
    SumSingle(g, t, p, a, n);
    Units(g, Groups.Mul(g, s[b], p[b]));
    SumUpdate(g, t, p, s, p, b, n, Groups.Mul(g, s[b], p[b]));
  }

  /** d divides each of the first n scalars. */
  ghost predicate Common(d: nat, s: seq<nat>, n: nat)
    requires d > 0 && n <= |s|
  {
    forall i :: 0 <= i < n ==> s[i] % d == 0
  }

  /** The common divisors of the first n scalars. */
  ghost function Divisors(s: seq<nat>, n: nat): iset<nat>
    requires n <= |s|
  {
    iset d: nat | d > 0 && Common(d, s, n)
  }

  lemma DivideDifference(d: nat, a: nat, b: nat)
    requires d > 0 && b <= a && b % d == 0
    ensures (a - b) % d == 0 <==> a % d == 0
  {
    var q := b / d;
    ModUnique(a - b, a % d, a / d - q, d) by {
      MulDist(d, a / d, -q);
      assert a == a % d + d * (a / d) && b == d * q;
    }
  }

  /** A step keeps the common divisors, as in Euclid's algorithm. */
  lemma CommonStep(d: nat, s: seq<nat>, a: nat, b: nat, n: nat)
    requires d > 0 && a < n && b < n && a != b && n <= |s| && s[b] <= s[a]
    ensures Common(d, s[a := s[a] - s[b]], n) <==> Common(d, s, n)
  {
    var t := s[a := s[a] - s[b]];
    assert forall i :: 0 <= i < n && i != a ==> t[i] == s[i];
    if s[b] % d == 0 {
      DivideDifference(d, s[a], s[b]);
      assert t[a] % d == 0 <==> s[a] % d == 0;
    } else {
      assert t[b] % d != 0;
    }
  }

  lemma DivisorsStep(s: seq<nat>, a: nat, b: nat, n: nat)
    requires a < n && b < n && a != b && n <= |s| && s[b] <= s[a]
    ensures Divisors(s[a := s[a] - s[b]], n) == Divisors(s, n)
  {
    forall d: nat | d > 0
      ensures Common(d, s[a := s[a] - s[b]], n) <==> Common(d, s, n)
    {
      CommonStep(d, s, a, b, n);
    }
  }

  ghost predicate TwoNonzero(s: seq<nat>, n: nat)
    requires n <= |s|
  {
    exists i, j :: 0 <= i < n && 0 <= j < n && i != j && s[i] != 0 && s[j] != 0
  }

  /** A scalar that is alone in being nonzero is at least 2^128. */
  ghost predicate LoneIsLarge(s: seq<nat>, n: nat)
    requires n <= |s|
  {
    forall k :: 0 <= k < n && s[k] != 0 && (forall i :: 0 <= i < n && i != k ==> s[i] == 0) ==> s[k] >= P128
  }

  /** Before the 128-bit scalars are taken in: the loop has not started (s is still s0), or it has
      taken a step, on a largest scalar of more than 128 bits. */
  ghost predicate Unextended(s: seq<nat>, s0: seq<nat>, n: nat)
    requires n <= |s| && n <= |s0|
  {
    && Divisors(s, n) == Divisors(s0, n)
    && (s[..n] == s0[..n] || (TwoNonzero(s0, n) && LoneIsLarge(s, n) && exists k :: 0 <= k < n && s[k] != 0))
  }

  /** Whether the first n scalars let the loop reach the rest: two of them are not zero, and no
      number of more than 128 bits divides them all. */
  ghost predicate Reaches(s: seq<nat>, n: nat)
    requires n <= |s|
  {
    TwoNonzero(s, n) && forall d: nat :: d >= P128 ==> !Common(d, s, n)
  }

  lemma UnextendedStep(s: seq<nat>, s0: seq<nat>, a: nat, b: nat, n: nat)
    requires a < n && b < n && a != b && n <= |s| && n <= |s0| && 0 < s[b] <= s[a] && s[a] >= P128
    requires Unextended(s, s0, n)
    ensures Unextended(s[a := s[a] - s[b]], s0, n)
  {
    var t := s[a := s[a] - s[b]];
    DivisorsStep(s, a, b, n);
    if s[..n] == s0[..n] {
      assert s[a] == s[..n][a] == s0[a] && s[b] == s[..n][b] == s0[b];
      assert TwoNonzero(s0, n);
    }
    assert t[b] != 0;
    forall k | 0 <= k < n && t[k] != 0 && (forall i :: 0 <= i < n && i != k ==> t[i] == 0)
      ensures t[k] >= P128
    {
      assert k == b && t[a] == 0;
    }
  }

  /** Leaving the loop unextended means the condition fails. */
  lemma LeftEarly(s: seq<nat>, s0: seq<nat>, a: nat, n: nat)
    requires a < n && n <= |s| && n <= |s0| && Unextended(s, s0, n)
    requires forall i :: 0 <= i < n && i != a ==> s[i] == 0
    ensures !Reaches(s0, n)
  {
    if s[..n] == s0[..n] {
      assert forall i :: 0 <= i < n ==> s0[i] == s0[..n][i] == s[..n][i] == s[i];
    } else {
      assert s[a] >= P128;
      assert Common(s[a], s, n);
      assert s[a] in Divisors(s, n) <==> s[a] in Divisors(s0, n);
    }
  }

  /** Taking in the rest means the condition holds. */
  lemma TakenIn(s: seq<nat>, s0: seq<nat>, a: nat, b: nat, n: nat)
    requires a < n && b < n && a != b && n <= |s| && n <= |s0| && Unextended(s, s0, n)
    requires s[b] != 0 && 0 < s[a] < P128
    ensures Reaches(s0, n)
  {
    if s[..n] == s0[..n] {
      assert s[a] == s[..n][a] == s0[a] && s[b] == s[..n][b] == s0[b];
      assert TwoNonzero(s0, n);
    }
    forall d: nat | d >= P128
      ensures !Common(d, s0, n)
    {
      assert s[a] % d == s[a];
      assert d in Divisors(s, n) <==> d in Divisors(s0, n);
    }
  }

  /** How many scalars the heap is first built with: ((count + 1) / 2) | 1. */
  function FirstPart(count: nat): (n: nat)
    ensures n % 2 == 1
  {
    var h := (count + 1) / 2;
    if h % 2 == 1 then h else h + 1
  }

  lemma FirstPartExactly(count: nat, n: nat)
    ensures n == FirstPart(count) <==> n % 2 == 1 && count <= 2 * n <= count + 3
  {
  }

  /** Scalars that come in heap order: each is at most its parent. */
  ghost predicate InHeapOrder(s: seq<nat>, n: nat) {
    n <= |s| && forall j :: 0 < j < n ==> s[j] <= s[Parent(j)]
  }

  /** heap_build and heap_extend: insert until the heap has n entries. */
  method Grow(heap: array<nat>, scalars: array<nat>, size: nat, n: nat)
    requires heap != scalars && size <= n <= heap.Length && n <= scalars.Length
    requires Perm(heap[..size]) && Ordered(heap[..size], scalars[..])
    requires forall i :: 0 <= i < n ==> scalars[i] < Weight(5)
    modifies heap
    ensures Perm(heap[..n]) && Ordered(heap[..n], scalars[..])
    ensures Identity(old(heap[..size])) && InHeapOrder(scalars[..], n) ==> Identity(heap[..n])
  {
    for k := size to n
      invariant Perm(heap[..k]) && Ordered(heap[..k], scalars[..])
      invariant Identity(old(heap[..size])) && InHeapOrder(scalars[..], n) ==> Identity(heap[..k])
    {
      InsertNext(heap, scalars, k);
    }
  }

  /** sub256_modm_batch into its first operand, as SubBatch computes it. */
  function SubLow(a: nat, b: nat, limbsize: nat): nat
    requires b % Weight(limbsize + 1) <= a % Weight(limbsize + 1)
  {
    a - b % Weight(limbsize + 1)
  }

  /** The body of the loop: scalars[max1] -= scalars[max2], points[max2] += points[max1], and the
      heap is put in order again. */
  method Subtract<T(!new)>(g: Group<T>, heap: array<nat>, scalars: array<nat>, points: array<T>, n: nat,
                           max1: nat, max2: nat, limbsize: nat, ghost s: seq<nat>, ghost p: seq<T>,
                           ghost s': seq<nat>, ghost p': seq<T>)
    requires Abelian(g) && heap != scalars && heap as object != points && scalars as object != points
    requires 3 <= n <= heap.Length && n <= scalars.Length && n <= points.Length && InOrder(heap, scalars, n, limbsize)
    requires scalars[..] == s && points[..] == p
    requires max1 == heap[0] && max1 < n && max2 < n && max1 != max2 && s[max2] <= s[max1]
    requires s' == s[max1 := s[max1] - s[max2]] && p' == p[max2 := g.add(p[max2], p[max1])]
    modifies heap, scalars, points
    ensures scalars[..] == s' && points[..] == p'
    ensures InOrder(heap, scalars, n, limbsize) && heap[Live(n)..] == old(heap[Live(n)..])
  {
    assert heap[..Live(n)] == heap[..n][..Live(n)];
    assert scalars[max1] == s[heap[..Live(n)][0]];
    LessWhole(scalars[max2], scalars[max1], limbsize);
    Whole(scalars[max1], limbsize);
    Whole(scalars[max2], limbsize);
    scalars[max1] := SubLow(scalars[max1], scalars[max2], limbsize);
    points[max2] := g.add(points[max2], points[max1]);
    RootChanged(heap[..Live(n)], s, scalars[..]);
    UpdatedRoot(heap, scalars, n, limbsize);
  }

  lemma Whole(a: nat, limbsize: nat)
    requires a < Weight(limbsize + 1)
    ensures a % Weight(limbsize + 1) == a
  {
    ModUnique(a, a, 0, Weight(limbsize + 1));
  }

  /** The first n positions hold the indices below n, and those that heap_updated_root works on are a heap of
      scalars without limbs above limbsize. */
  ghost predicate InOrder(heap: array<nat>, scalars: array<nat>, n: nat, limbsize: nat)
    reads heap, scalars
  {
    && 0 < n <= heap.Length && n <= scalars.Length && Perm(heap[..n])
    && Indexes(heap[..Live(n)], scalars[..]) && Ordered(heap[..Live(n)], scalars[..])
    && Fits(heap[..Live(n)], scalars[..], limbsize)
  }

  lemma OrderedPrefix(h: seq<nat>, s: seq<nat>, k: nat)
    requires k <= |h| && Indexes(h, s) && Ordered(h, s)
    ensures Indexes(h[..k], s) && Ordered(h[..k], s)
  {
    forall j | 0 <= j < k
      ensures Ord(h[..k], s, j)
    {
      assert Ord(h, s, j);
    }
  }

  lemma RootChanged(h: seq<nat>, s: seq<nat>, t: seq<nat>)
    requires |h| > 0 && |s| == |t| && Indexes(h, s) && Ordered(h, s)
    requires forall i, j :: 0 <= i < j < |h| ==> h[i] != h[j]
    requires forall i :: 0 <= i < |s| && i != h[0] ==> t[i] == s[i]
    ensures Hole(h, t, 0)
  {
    forall j | 0 <= j < |h|
      ensures (j == 0 || (j > 0 && Parent(j) == 0) || Ord(h, t, j)) && Under(h, t, 0, j)
    {
      assert Ord(h, s, j);
    }
  }

  lemma {:induction false} SumExtend<T(!new)>(g: Group<T>, s: seq<nat>, p: seq<T>, t: seq<nat>, q: seq<T>, k: nat,
                                              n: nat)
    requires k <= n <= |s| && n <= |p| && n <= |t| && n <= |q| && Sum(g, s, p, k) == Sum(g, t, q, k)
    requires forall i :: k <= i < n ==> s[i] == t[i] && p[i] == q[i]
    ensures Sum(g, s, p, n) == Sum(g, t, q, n)
  {
    if k < n {
      SumExtend(g, s, p, t, q, k, n - 1);
    }
  }

  /** What the loop keeps, from scalars s0 and points p0 at the start. */
  ghost predicate Kept<T(!new)>(g: Group<T>, s: seq<nat>, p: seq<T>, s0: seq<nat>, p0: seq<T>, k: nat, n: nat,
                                extended: bool)
    requires k <= n <= |s| && |s| == |s0| && n <= |p| && |p| == |p0|
  {
    && (forall i :: 0 <= i < n ==> s[i] <= s0[i])
    && if extended then
      && Reaches(s0, k) && Sum(g, s, p, n) == Sum(g, s0, p0, n)
      && Divisors(s, n) == Divisors(s0, n)
      && ((forall i :: k <= i < n ==> s0[i] < P128) ==> forall i :: 0 <= i < n ==> s[i] < P128)
    else
      && Unextended(s, s0, k) && Sum(g, s, p, k) == Sum(g, s0, p0, k)
      && forall i :: k <= i < n ==> s[i] == s0[i] && p[i] == p0[i]
  }

  lemma KeptStep<T(!new)>(g: Group<T>, s: seq<nat>, p: seq<T>, s0: seq<nat>, p0: seq<T>, k: nat, n: nat,
                          extended: bool, a: nat, b: nat)
    requires Abelian(g) && k <= n <= |s| && |s| == |s0| && n <= |p| && |p| == |p0|
    requires Kept(g, s, p, s0, p0, k, n, extended)
    requires var m := if extended then n else k; a < m && b < m && a != b && 0 < s[b] <= s[a]
    requires !extended ==> s[a] >= P128
    ensures Kept(g, s[a := s[a] - s[b]], p[b := g.add(p[b], p[a])], s0, p0, k, n, extended)
  {
    SumStep(g, s, p, a, b, if extended then n else k);
    if extended {
      DivisorsStep(s, a, b, n);
    } else {
      UnextendedStep(s, s0, a, b, k);
    }
  }

  lemma KeptExtend<T(!new)>(g: Group<T>, s: seq<nat>, p: seq<T>, s0: seq<nat>, p0: seq<T>, k: nat, n: nat, a: nat,
                            b: nat)
    requires k <= n <= |s| && |s| == |s0| && n <= |p| && |p| == |p0| && a < k && b < k && a != b
    requires Kept(g, s, p, s0, p0, k, n, false) && s[b] != 0 && 0 < s[a] < P128
    requires forall i :: 0 <= i < k ==> s[i] <= s[a]
    ensures Kept(g, s, p, s0, p0, k, n, true)
  {
    TakenIn(s, s0, a, b, k);
    SumExtend(g, s, p, s0, p0, k, n);
    DivisorsExtend(s, s0, k, n);
  }

  lemma DivisorsExtend(s: seq<nat>, t: seq<nat>, k: nat, n: nat)
    requires k <= n <= |s| && n <= |t| && Divisors(s, k) == Divisors(t, k) && forall i :: k <= i < n ==> s[i] == t[i]
    ensures Divisors(s, n) == Divisors(t, n)
  {
    forall d: nat | d > 0
      ensures Common(d, s, n) <==> Common(d, t, n)
    {
      CommonSplit(d, s, k, n);
      CommonSplit(d, t, k, n);
      assert d in Divisors(s, k) <==> d in Divisors(t, k);
    }
  }

  lemma CommonSplit(d: nat, s: seq<nat>, k: nat, n: nat)
    requires d > 0 && k <= n <= |s|
    ensures Common(d, s, n) <==> Common(d, s, k) && forall i :: k <= i < n ==> s[i] % d == 0
  {
  }

  /** Scalars of five limbs, those behind the first part of 128 bits. */
  ghost predicate Sized(s: seq<nat>, count: nat) {
    && count <= |s| && (forall i :: 0 <= i < count ==> s[i] < Weight(5))
    && (forall i :: FirstPart(count) <= i < count ==> s[i] < P128)
  }

  ghost predicate Separate<T>(heap: array<nat>, scalars: array<nat>, points: array<T>, count: nat) {
    && heap != scalars && heap as object != points && scalars as object != points
    && 5 <= count <= heap.Length && count <= scalars.Length && count <= points.Length
  }

  /** The scalars and points between passes of the loop. */
  ghost predicate Sums<T(!new)>(g: Group<T>, s: seq<nat>, p: seq<T>, s0: seq<nat>, p0: seq<T>, count: nat,
                                extended: bool) {
    && Abelian(g) && FirstPart(count) <= count <= |s| && |s| == |s0| && count <= |p| && |p| == |p0|
    && Sized(s0, count) && Kept(g, s, p, s0, p0, FirstPart(count), count, extended)
  }

  /** A step makes the scalars smaller, and takes at most half of the largest one. */
  lemma StepTakes(s: seq<nat>, s': seq<nat>, m: nat, a: nat, b: nat)
    requires m <= |s| && a < m && b < m && a != b && 0 < s[b] <= s[a] && s' == s[a := s[a] - s[b]]
    ensures Total(s', m) < Total(s, m) && (2 * s'[a] >= s[a] || 2 * s'[b] >= s[a])
  {
    TotalStep(s, a, s[b], m);
  }

  /** The state between passes of the loop, with scalars s and points p. */
  ghost predicate Looping<T(!new)>(g: Group<T>, heap: array<nat>, scalars: array<nat>, points: array<T>, size: nat,
                                   limbsize: nat, s: seq<nat>, p: seq<T>, s0: seq<nat>, p0: seq<T>, count: nat,
                                   extended: bool)
    reads heap, scalars, points
  {
    && Separate(heap, scalars, points, count) && scalars[..] == s && points[..] == p
    && size == (if extended then count else FirstPart(count))
    && InOrder(heap, scalars, size, limbsize) && (extended || limbsize >= 2)
    && Sums(g, s, p, s0, p0, count, extended)
  }

  /** Before the 128-bit scalars are taken in, limb 2 is still compared: the largest scalar has it, or limb 3
      has not been given up. */
  ghost predicate Roomy(s: seq<nat>, size: nat, limbsize: nat) {
    limbsize >= 3 || exists i :: 0 <= i < size && i < |s| && s[i] >= P128 / 2
  }

  method Step<T(!new)>(g: Group<T>, heap: array<nat>, scalars: array<nat>, points: array<T>, size: nat, limbsize: nat,
                       ghost s: seq<nat>, ghost p: seq<T>, ghost s0: seq<nat>, ghost p0: seq<T>, ghost count: nat,
                       ghost extended: bool, max1: nat, max2: nat)
    returns (ghost s': seq<nat>, ghost p': seq<T>)
    requires Looping(g, heap, scalars, points, size, limbsize, s, p, s0, p0, count, extended)
    requires size <= |s| && max1 == heap[0] && max1 < size && max2 < size && max1 != max2 && 0 < s[max2] <= s[max1]
    requires !extended ==> s[max1] >= P128
    modifies heap, scalars, points
    ensures Looping(g, heap, scalars, points, size, limbsize, s', p', s0, p0, count, extended)
    ensures size <= |s'| && Total(s', size) < Total(s, size) && (!extended ==> Roomy(s', size, limbsize))
    ensures s' == s[max1 := s[max1] - s[max2]] && p' == p[max2 := g.add(p[max2], p[max1])]
    ensures heap[Live(size)..] == old(heap[Live(size)..])
  {
    s', p' := Stepped(g, s, p, s0, p0, size, limbsize, count, extended, max1, max2);
    Subtract(g, heap, scalars, points, size, max1, max2, limbsize, s, p, s', p');
  }

  /** The scalars and points after a step. */
  lemma Stepped<T(!new)>(g: Group<T>, s: seq<nat>, p: seq<T>, s0: seq<nat>, p0: seq<T>,
                         m: nat, limbsize: nat, count: nat, extended: bool, a: nat, b: nat)
    returns (s': seq<nat>, p': seq<T>)
    requires Sums(g, s, p, s0, p0, count, extended) && m == (if extended then count else FirstPart(count))
    requires a < m && b < m && a != b && 0 < s[b] <= s[a] && (!extended ==> s[a] >= P128)
    ensures s' == s[a := s[a] - s[b]] && p' == p[b := g.add(p[b], p[a])]
    ensures Sums(g, s', p', s0, p0, count, extended) && m <= |s| == |s'|
    ensures Total(s', m) < Total(s, m) && (!extended ==> Roomy(s', m, limbsize))
  {
    s', p' := s[a := s[a] - s[b]], p[b := g.add(p[b], p[a])];
    KeptStep(g, s, p, s0, p0, FirstPart(count), count, extended, a, b);
    StepTakes(s, s', m, a, b);
  }

  lemma Weights(n: nat)
    requires n == 2
    ensures Weight(n) == P112 && Weight(n + 1) == P168 && P168 <= Weight(n + 2) <= Weight(n + 3)
  {
    assert Weight(1) == P56;
    assert Weight(2) == P56 * Weight(1);
    Radix.PowMono(P56, n + 1, n + 2);
    Radix.PowMono(P56, n + 2, n + 3);
  }

  method Extend<T(!new)>(g: Group<T>, heap: array<nat>, scalars: array<nat>, points: array<T>, size: nat, limbsize: nat,
                         ghost s: seq<nat>, ghost p: seq<T>, ghost s0: seq<nat>, ghost p0: seq<T>, count: nat,
                         max1: nat, max2: nat)
    returns (max1': nat, max2': nat)
    requires Looping(g, heap, scalars, points, size, limbsize, s, p, s0, p0, count, false) && size <= |s|
    requires max1 < size && max2 < size && max1 != max2 && 0 < s[max2] <= s[max1] < P128
    requires forall i :: 0 <= i < size ==> s[i] <= s[max1]
    modifies heap
    ensures Looping(g, heap, scalars, points, count, limbsize, s, p, s0, p0, count, true) && count <= |s|
    ensures max1' == heap[0] && max1' < count && max2' < count && max1' != max2' && 0 < s[max2'] <= s[max1']
    ensures LeftOut(heap, count) != Some(max1') && LeftOut(heap, count) != Some(max2') && Ordered(heap[..count], s)
    ensures Identity(old(heap[..size])) && InHeapOrder(s, count) ==> Identity(heap[..count])
  {
    KeptExtend(g, s, p, s0, p0, size, count, max1, max2);
    assert forall i :: 0 <= i < count ==> scalars[i] == s[i] < P128;
    max1', max2' := ExtendHeap(heap, scalars, size, limbsize, count, max1, max2);
  }

  /** heap_extend, and heap_get_top2 after it. */
  method ExtendHeap(heap: array<nat>, scalars: array<nat>, size: nat, limbsize: nat, count: nat, ghost a: nat,
                    ghost b: nat)
    returns (max1: nat, max2: nat)
    requires heap != scalars && InOrder(heap, scalars, size, limbsize) && size % 2 == 1 && 3 <= size <= count
    requires 5 <= count <= heap.Length && count <= scalars.Length && limbsize >= 2
    requires forall i :: 0 <= i < count ==> scalars[i] < P128
    requires a < size && b < size && a != b && 0 < scalars[b] <= scalars[a]
    modifies heap
    ensures InOrder(heap, scalars, count, limbsize) && Ordered(heap[..count], scalars[..])
    ensures max1 == heap[0] && max1 < count && max2 < count && max1 != max2 && 0 < scalars[max2] <= scalars[max1]
    ensures LeftOut(heap, count) != Some(max1) && LeftOut(heap, count) != Some(max2)
    ensures Identity(old(heap[..size])) && InHeapOrder(scalars[..], count) ==> Identity(heap[..count])
  {
    Weights(2);
    ghost var n := 3;
    Radix.PowMono(P56, n, limbsize + 1);
    Grow(heap, scalars, size, count);
    OrderedPrefix(heap[..count], scalars[..], Live(count));
    assert heap[..count][..Live(count)] == heap[..Live(count)];
    max1, max2 := GetTop2(heap, scalars, count, count, limbsize);
    assert scalars[a] <= scalars[max2] || scalars[b] <= scalars[max2];
    LastApart(heap[..count]);
  }

  /** The last of an even number of entries is none of the first three. */
  lemma LastApart(h: seq<nat>)
    requires Perm(h) && |h| >= 5
    ensures |h| % 2 == 0 ==> h[|h| - 1] != h[0] && h[|h| - 1] != h[1] && h[|h| - 1] != h[2]
  {
  }

  /** d is the greatest common divisor of the first n scalars: its divisors are their common divisors. */
  ghost predicate IsGcd(d: nat, s: seq<nat>, n: nat)
    requires n <= |s|
  {
    forall e: nat :: e > 0 ==> (Common(e, s, n) <==> d % e == 0)
  }

  /** The term that is never looked at again, if there is one. */
  ghost function Rest<T>(g: Group<T>, left: Option<nat>, s: seq<nat>, p: seq<T>): T
    requires left.Some? ==> left.value < |s| && left.value < |p|
  {
    if left.Some? then Groups.Mul(g, s[left.value], p[left.value]) else g.zero
  }

  lemma LoneIsGcd(s: seq<nat>, s0: seq<nat>, a: nat, n: nat)
    requires a < n <= |s| && n <= |s0| && forall i :: 0 <= i < n && i != a ==> s[i] == 0
    requires Divisors(s, n) == Divisors(s0, n)
    ensures IsGcd(s[a], s0, n)
  {
    forall e: nat | e > 0
      ensures Common(e, s0, n) <==> s[a] % e == 0
    {
      LoneCommon(e, s, a, n);
      assert e in Divisors(s, n) <==> e in Divisors(s0, n);
    }
  }

  lemma LoneCommon(e: nat, s: seq<nat>, a: nat, n: nat)
    requires e > 0 && a < n <= |s| && forall i :: 0 <= i < n && i != a ==> s[i] == 0
    ensures Common(e, s, n) <==> s[a] % e == 0
  {
    ModUnique(0, 0, 0, e);
  }

  /** Where the loop ends: only scalar a, and the one that is left out, may not be zero. */
  lemma Finished<T(!new)>(g: Group<T>, s: seq<nat>, p: seq<T>, s0: seq<nat>, p0: seq<T>, k: nat, n: nat, extended: bool,
                          a: nat, left: Option<nat>)
    requires Abelian(g) && k <= n <= |s| && |s| == |s0| && n <= |p| && |p| == |p0|
    requires Kept(g, s, p, s0, p0, k, n, extended)
    requires var m := if extended then n else k;
             && a < m && (left.Some? ==> extended && left.value < m && left.value != a)
             && forall i :: 0 <= i < m && i != a && left != Some(i) ==> s[i] == 0
    ensures extended <==> Reaches(s0, k)
    ensures var m := if extended then n else k;
            && Sum(g, s0, p0, m) == g.add(Groups.Mul(g, s[a], p[a]), Rest(g, left, s, p))
            && (left.None? ==> IsGcd(s[a], s0, m))
  {
    var m := if extended then n else k;
    if left.Some? {
      SumPair(g, s, p, a, left.value, m);
    } else {
      SumSingle(g, s, p, a, m);
      Units(g, Groups.Mul(g, s[a], p[a]));
      LoneIsGcd(s, s0, a, m);
      if !extended {
        LeftEarly(s, s0, a, m);
      }
    }
  }

  /** Which index heap_updated_root does not work on. */
  ghost function LeftOut(heap: array<nat>, n: nat): Option<nat>
    requires 0 < n <= heap.Length
    reads heap
  {
    if n % 2 == 0 then Some(heap[n - 1]) else None
  }

  lemma LeftOutOnly(heap: array<nat>, n: nat, i: nat)
    requires 0 < n <= heap.Length
    ensures i in heap[Live(n)..n] <==> LeftOut(heap, n) == Some(i)
  {
    if n % 2 == 0 {
      assert heap[Live(n)..n] == [heap[n - 1]];
    } else {
      assert heap[Live(n)..n] == [];
    }
  }

  /** The heap, the scalars and the points when the 128-bit scalars have been taken in. */
  datatype Standing<T> = Standing(heap: seq<nat>, scalars: seq<nat>, points: seq<T>) {
    /** The index in the last of an even number of positions. */
    ghost function Last(): Option<nat> {
      if heap != [] && |heap| % 2 == 0 then Some(heap[|heap| - 1]) else None
    }
  }

  /** Scalars of 128 bits. */
  ghost predicate Small(s: seq<nat>, n: nat) {
    n <= |s| && forall i :: 0 <= i < n ==> s[i] < P128
  }

  /** What stands at the extension: a heap of all scalars, with the sums and divisors of the input. When the
      first part is of 128 bits already that is the input itself, and input in heap order is left so. */
  ghost predicate Stood<T(!new)>(g: Group<T>, e: Standing<T>, s0: seq<nat>, p0: seq<T>, count: nat) {
    && |e.heap| == count && Perm(e.heap) && Sums(g, e.scalars, e.points, s0, p0, count, true)
    && (forall i :: FirstPart(count) <= i < count ==> e.scalars[i] == s0[i] && e.points[i] == p0[i])
    && Indexes(e.heap, e.scalars) && Ordered(e.heap, e.scalars)
    && (Small(s0, FirstPart(count)) ==>
          e.scalars == s0 && e.points == p0 && (InHeapOrder(s0, count) ==> Identity(e.heap)))
  }

  /** The scalars with the one left out taken as 0. */
  ghost function Without(s: seq<nat>, left: Option<nat>): seq<nat>
    requires left.Some? ==> left.value < |s|
  {
    if left.Some? then s[left.value := 0] else s
  }

  /** The term left out is as it was at the extension, and the divisors of the others are. */
  ghost predicate Apart<T>(s: seq<nat>, p: seq<T>, e: Standing<T>, n: nat) {
    var left := e.Last();
    && n <= |s| == |e.scalars| && |p| == |e.points|
    && (left.Some? ==> left.value < |s| && left.value < |p|
                       && s[left.value] == e.scalars[left.value] && p[left.value] == e.points[left.value])
    && Divisors(Without(s, left), n) == Divisors(Without(e.scalars, left), n)
  }

  lemma ApartStep<T(!new)>(g: Group<T>, s: seq<nat>, p: seq<T>, e: Standing<T>, n: nat, a: nat, b: nat)
    requires Apart(s, p, e, n) && a < n && b < n && n <= |p| && a != b && s[b] <= s[a]
    requires e.Last() != Some(a) && e.Last() != Some(b)
    ensures Apart(s[a := s[a] - s[b]], p[b := g.add(p[b], p[a])], e, n)
  {
    var t := Without(s, e.Last());
    DivisorsStep(t, a, b, n);
    assert Without(s[a := s[a] - s[b]], e.Last()) == t[a := t[a] - t[b]];
  }

  /** Where the loop stands against the extension. Before it, nothing has changed if the first part is of 128
      bits, since a pass then either ends the loop or takes in the rest. */
  ghost predicate Tracked<T(!new)>(g: Group<T>, heap: array<nat>, s: seq<nat>, p: seq<T>, e: Standing<T>, s0: seq<nat>,
                                   p0: seq<T>, size: nat, count: nat, extended: bool)
    reads heap
  {
    if extended then
      && 0 < count <= heap.Length && Stood(g, e, s0, p0, count) && LeftOut(heap, count) == e.Last()
      && Apart(s, p, e, count)
    else
      Small(s0, FirstPart(count)) ==>
        s == s0 && p == p0 && (InHeapOrder(s0, count) ==> size <= heap.Length && Identity(heap[..size]))
  }

  /** heap_build, before the loop. */
  method Build<T(!new)>(g: Group<T>, heap: array<nat>, scalars: array<nat>, points: array<T>, count: nat)
    requires Abelian(g) && Separate(heap, scalars, points, count) && Sized(scalars[..], count)
    modifies heap
    ensures Looping(g, heap, scalars, points, FirstPart(count), 4, scalars[..], points[..], scalars[..], points[..],
                    count, false)
    ensures InHeapOrder(scalars[..], count) ==> Identity(heap[..FirstPart(count)])
  {
    assert heap[..0] == [];
    assert forall i :: 0 <= i < count ==> scalars[i] == scalars[..][i];
    Grow(heap, scalars, 0, FirstPart(count));
  }

  /** heap_get_top2 in the loop. */
  method Top2(heap: array<nat>, scalars: array<nat>, size: nat, limbsize: nat, ghost s: seq<nat>)
    returns (max1: nat, max2: nat)
    requires size >= 3 && InOrder(heap, scalars, size, limbsize) && scalars[..] == s
    ensures Largest(heap, s, size, max1, max2)
  {
    max1, max2 := GetTop2(heap, scalars, size, Live(size), limbsize);
    forall i: nat
      ensures i in heap[Live(size)..size] <==> LeftOut(heap, size) == Some(i)
    {
      LeftOutOnly(heap, size, i);
    }
  }

  /** max1 is the root, and max1 and max2 are a largest and a second largest of the scalars the loop works on. */
  ghost predicate Largest(heap: array<nat>, s: seq<nat>, size: nat, max1: nat, max2: nat)
    reads heap
  {
    && 0 < size <= heap.Length && size <= |s| && max1 == heap[0]
    && max1 != max2 && max1 < size && max2 < size && s[max2] <= s[max1]
    && LeftOut(heap, size) != Some(max1) && LeftOut(heap, size) != Some(max2)
    && forall i :: 0 <= i < size && LeftOut(heap, size) != Some(i) ==>
      s[i] <= s[max1] && (i != max1 ==> s[i] <= s[max2])
  }

  /** scalar[limb] */
  function Limb(s: nat, limb: nat): nat {
    s / Weight(limb) % P56
  }

  lemma TopLimb(s: nat, limb: nat)
    requires s < Weight(limb + 1)
    ensures Limb(s, limb) == 0 <==> s < Weight(limb)
  {
    var w, q := Weight(limb), s / Weight(limb);
    MulAtLeast(w, q, P56);
    MulAtLeast(w, q, 1);
    assert s == w * q + s % w;
    ModUnique(q, q, 0, P56);
  }

  /** The limb size is reduced when the largest scalar has lost its top limb, and never so far that a limb of
      a scalar is lost, those of the 128-bit scalars that are still to come included. */
  method Narrow(heap: array<nat>, scalars: array<nat>, size: nat, limbsize: nat, ghost s: seq<nat>,
                ghost extended: bool, max1: nat, ghost max2: nat)
    returns (limbsize': nat)
    requires InOrder(heap, scalars, size, limbsize) && scalars[..] == s && Largest(heap, s, size, max1, max2)
             && s[max2] > 0
    requires extended || (size % 2 == 1 && limbsize >= 2 && Roomy(s, size, limbsize))
    ensures InOrder(heap, scalars, size, limbsize') && (extended || limbsize' >= 2)
  {
    assert max1 == heap[..Live(size)][0];
    TopLimb(scalars[max1], limbsize);
    limbsize' := limbsize;
    if Limb(scalars[max1], limbsize) == 0 {
      assert limbsize > 0;
      limbsize' := limbsize - 1;
      NarrowFits(heap, scalars, size, limbsize, max1, max2, s);
      NarrowRoom(s, size, limbsize, max1, extended, LeftOut(heap, size));
    }
  }

  lemma NarrowFits(heap: array<nat>, scalars: array<nat>, size: nat, limbsize: nat, max1: nat, max2: nat, s: seq<nat>)
    requires InOrder(heap, scalars, size, limbsize) && scalars[..] == s && Largest(heap, s, size, max1, max2)
    requires limbsize > 0 && s[max1] < Weight(limbsize)
    ensures InOrder(heap, scalars, size, limbsize - 1)
  {
    forall j | 0 <= j < Live(size)
      ensures s[heap[..Live(size)][j]] < Weight(limbsize)
    {
      RootIsMax(heap[..Live(size)], s, j);
    }
  }

  lemma NarrowRoom(s: seq<nat>, size: nat, limbsize: nat, max1: nat, extended: bool, left: Option<nat>)
    requires size <= |s| && max1 < size && limbsize > 0 && s[max1] < Weight(limbsize)
    requires !extended ==> Roomy(s, size, limbsize) && limbsize >= 2 && left.None?
    requires forall i :: 0 <= i < size && left != Some(i) ==> s[i] <= s[max1]
    ensures extended || limbsize - 1 >= 2
  {
    Weights(2);
  }

  /** What the loop makes of s0 and p0: the scalars s and points p, of which the term max1 and the one left out
      give the sum of those taken in. */
  ghost predicate Reduced<T(!new)>(g: Group<T>, s: seq<nat>, p: seq<T>, s0: seq<nat>, p0: seq<T>, count: nat, max1: nat,
                                   extended: bool, left: Option<nat>, e: Standing<T>)
  {
    && FirstPart(count) <= count <= |s| == |s0| && count <= |p| == |p0|
    && (extended <==> Reaches(s0, FirstPart(count))) && (extended ==> Stood(g, e, s0, p0, count))
    && left == (if extended then e.Last() else None)
    && var n := if extended then count else FirstPart(count);
       && max1 < n && left != Some(max1) && (left.Some? ==> left.value < n)
       && Sum(g, s0, p0, n) == g.add(Groups.Mul(g, s[max1], p[max1]), Rest(g, left, s, p))
       && (if left.None? then IsGcd(s[max1], s0, n)
           else && Rest(g, left, s, p) == Rest(g, left, e.scalars, e.points)
                && IsGcd(s[max1], Without(e.scalars, left), n))
       && s[max1] <= s0[max1] && (extended ==> s[max1] < P128)
  }

  /** The loop of ge25519_multi_scalarmult_vartime. Whether it takes in the 128-bit scalars depends on the
      first part alone. For an odd count one term is left, whose scalar is the greatest common divisor of
      those taken in and whose value is their sum. For an even count the index in the last position of the
      heap is never looked at after the extension, so that its term is left as it stood there, and the other one
      has the greatest common divisor of the others. */
  method Reduce<T(!new)>(g: Group<T>, heap: array<nat>, scalars: array<nat>, points: array<T>, count: nat)
    returns (max1: nat, extended: bool, ghost left: Option<nat>, ghost e: Standing<T>)
    requires Abelian(g) && Separate(heap, scalars, points, count) && Sized(scalars[..], count)
    modifies heap, scalars, points
    ensures max1 < count && Reduced(g, scalars[..], points[..], old(scalars[..]), old(points[..]), count, max1,
                                    extended, left, e)
  {
    ghost var s0, p0 := scalars[..], points[..];
    var size := FirstPart(count);
    Build(g, heap, scalars, points, count);
    ghost var s, p;
    max1, extended, s, p, left, e := Loop(g, heap, scalars, points, size, s0, p0, count);
    Outcome(g, s, p, s0, p0, count, max1, extended, left, e);
  }

  /** Only the scalar max1, and the one left out, may not be zero. */
  ghost predicate Ended<T(!new)>(g: Group<T>, s: seq<nat>, p: seq<T>, s0: seq<nat>, p0: seq<T>, count: nat, max1: nat,
                                 extended: bool, left: Option<nat>, e: Standing<T>)
  {
    var n := if extended then count else FirstPart(count);
    && max1 < n <= |s| && left != Some(max1) && (left.Some? ==> left.value < n)
    && (forall i :: 0 <= i < n && i != max1 && left != Some(i) ==> s[i] == 0)
    && if extended then Stood(g, e, s0, p0, count) && left == e.Last() && Apart(s, p, e, count) else left.None?
  }

  lemma Outcome<T(!new)>(g: Group<T>, s: seq<nat>, p: seq<T>, s0: seq<nat>, p0: seq<T>, count: nat, max1: nat,
                         extended: bool, left: Option<nat>, e: Standing<T>)
    requires Sums(g, s, p, s0, p0, count, extended) && Ended(g, s, p, s0, p0, count, max1, extended, left, e)
    ensures Reduced(g, s, p, s0, p0, count, max1, extended, left, e)
  {
    Finished(g, s, p, s0, p0, FirstPart(count), count, extended, max1, left);
    if left.Some? {
      LoneIsGcd(Without(s, left), Without(e.scalars, left), max1, count);
    }
  }

  method Loop<T(!new)>(g: Group<T>, heap: array<nat>, scalars: array<nat>, points: array<T>, first: nat,
                       ghost s0: seq<nat>, ghost p0: seq<T>, count: nat)
    returns (max1: nat, extended: bool, ghost s: seq<nat>, ghost p: seq<T>, ghost left: Option<nat>,
             ghost e: Standing<T>)
    requires Looping(g, heap, scalars, points, first, 4, s0, p0, s0, p0, count, false)
    requires InHeapOrder(s0, count) ==> Identity(heap[..first])
    modifies heap, scalars, points
    ensures scalars[..] == s && points[..] == p && Sums(g, s, p, s0, p0, count, extended)
    ensures Ended(g, s, p, s0, p0, count, max1, extended, left, e)
  {
    extended, s, p, e := false, s0, p0, Standing([], s0, p0);
    var size: nat, limbsize: nat, max2: nat := first, 4, 0;
    while true
      invariant Looping(g, heap, scalars, points, size, limbsize, s, p, s0, p0, count, extended)
      invariant size <= |s| && (!extended ==> Roomy(s, size, limbsize))
      invariant Tracked(g, heap, s, p, e, s0, p0, size, count, extended)
      decreases !extended, Total(s, size)
    {
      max1, max2 := Top2(heap, scalars, size, limbsize, s);
      if scalars[max2] == 0 {
        left := Ending(g, heap, scalars, points, size, limbsize, s, p, s0, p0, count, extended, max1, max2, e);
        return;
      }
      size, limbsize, extended, s, p, e :=
        Round(g, heap, scalars, points, size, limbsize, s, p, s0, p0, count, extended, max1, max2, e);
    }
  }

  lemma Ending<T(!new)>(g: Group<T>, heap: array<nat>, scalars: array<nat>, points: array<T>, size: nat, limbsize: nat,
                        s: seq<nat>, p: seq<T>, s0: seq<nat>, p0: seq<T>, count: nat, extended: bool, max1: nat,
                        max2: nat, e: Standing<T>)
    returns (left: Option<nat>)
    requires Looping(g, heap, scalars, points, size, limbsize, s, p, s0, p0, count, extended)
    requires Largest(heap, s, size, max1, max2) && s[max2] == 0
    requires Tracked(g, heap, s, p, e, s0, p0, size, count, extended)
    ensures scalars[..] == s && points[..] == p && Sums(g, s, p, s0, p0, count, extended)
    ensures Ended(g, s, p, s0, p0, count, max1, extended, left, e)
  {
    left := LeftOut(heap, size);
    LeftOutIndex(heap, scalars, size, limbsize);
  }

  /** A pass of the loop that does not end it. */
  method Round<T(!new)>(g: Group<T>, heap: array<nat>, scalars: array<nat>, points: array<T>, size: nat, limbsize: nat,
                        ghost s: seq<nat>, ghost p: seq<T>, ghost s0: seq<nat>, ghost p0: seq<T>, count: nat,
                        extended: bool, max1: nat, max2: nat, ghost e: Standing<T>)
    returns (size': nat, limbsize': nat, extended': bool, ghost s': seq<nat>, ghost p': seq<T>, ghost e': Standing<T>)
    requires Looping(g, heap, scalars, points, size, limbsize, s, p, s0, p0, count, extended)
    requires Largest(heap, s, size, max1, max2) && s[max2] > 0 && (!extended ==> Roomy(s, size, limbsize))
    requires Tracked(g, heap, s, p, e, s0, p0, size, count, extended)
    modifies heap, scalars, points
    ensures Looping(g, heap, scalars, points, size', limbsize', s', p', s0, p0, count, extended') && size' <= |s'|
    ensures !extended' ==> Roomy(s', size', limbsize')
    ensures extended ==> extended'
    ensures extended == extended' ==> size' == size && size <= |s| && Total(s', size) < Total(s, size)
    ensures Tracked(g, heap, s', p', e', s0, p0, size', count, extended')
  {
    limbsize' := NarrowLoop(g, heap, scalars, points, size, limbsize, s, p, s0, p0, count, extended, max1, max2);
    size', extended', s', p', e' :=
      Pass(g, heap, scalars, points, size, limbsize', s, p, s0, p0, count, extended, max1, max2, e);
  }

  method NarrowLoop<T(!new)>(g: Group<T>, heap: array<nat>, scalars: array<nat>, points: array<T>, size: nat,
                             limbsize: nat, ghost s: seq<nat>, ghost p: seq<T>, ghost s0: seq<nat>, ghost p0: seq<T>,
                             ghost count: nat, ghost extended: bool, max1: nat, ghost max2: nat)
    returns (limbsize': nat)
    requires Looping(g, heap, scalars, points, size, limbsize, s, p, s0, p0, count, extended)
    requires Largest(heap, s, size, max1, max2) && s[max2] > 0 && (!extended ==> Roomy(s, size, limbsize))
    ensures Looping(g, heap, scalars, points, size, limbsize', s, p, s0, p0, count, extended)
  {
    limbsize' := Narrow(heap, scalars, size, limbsize, s, extended, max1, max2);
  }

  /** The rest of the pass. */
  method Pass<T(!new)>(g: Group<T>, heap: array<nat>, scalars: array<nat>, points: array<T>, size: nat, limbsize: nat,
                       ghost s: seq<nat>, ghost p: seq<T>, ghost s0: seq<nat>, ghost p0: seq<T>, count: nat,
                       extended: bool, max1: nat, max2: nat, ghost e: Standing<T>)
    returns (size': nat, extended': bool, ghost s': seq<nat>, ghost p': seq<T>, ghost e': Standing<T>)
    requires Looping(g, heap, scalars, points, size, limbsize, s, p, s0, p0, count, extended)
    requires Largest(heap, s, size, max1, max2) && s[max2] > 0
    requires Tracked(g, heap, s, p, e, s0, p0, size, count, extended)
    modifies heap, scalars, points
    ensures Looping(g, heap, scalars, points, size', limbsize, s', p', s0, p0, count, extended') && size' <= |s'|
    ensures !extended' ==> Roomy(s', size', limbsize)
    ensures extended ==> extended'
    ensures extended == extended' ==> size' == size && size <= |s| && Total(s', size) < Total(s, size)
    ensures Tracked(g, heap, s', p', e', s0, p0, size', count, extended')
  {
    e' := e;
    if !extended && scalars[max1] < P128 {
      size', extended' := count, true;
      s', p', e' := TakeIn(g, heap, scalars, points, size, limbsize, s, p, s0, p0, count, max1, max2, e);
    } else {
      size', extended' := size, extended;
      s', p' := StepOn(g, heap, scalars, points, size, limbsize, s, p, s0, p0, count, extended, max1, max2, e);
    }
  }

  /** The extension, and the step after it. */
  method TakeIn<T(!new)>(g: Group<T>, heap: array<nat>, scalars: array<nat>, points: array<T>, size: nat, limbsize: nat,
                         ghost s: seq<nat>, ghost p: seq<T>, ghost s0: seq<nat>, ghost p0: seq<T>, count: nat,
                         max1: nat, max2: nat, ghost e: Standing<T>)
    returns (ghost s': seq<nat>, ghost p': seq<T>, ghost e': Standing<T>)
    requires Looping(g, heap, scalars, points, size, limbsize, s, p, s0, p0, count, false)
    requires Largest(heap, s, size, max1, max2) && 0 < s[max2] && s[max1] < P128
    requires Tracked(g, heap, s, p, e, s0, p0, size, count, false)
    modifies heap, scalars, points
    ensures Looping(g, heap, scalars, points, count, limbsize, s', p', s0, p0, count, true) && count <= |s'|
    ensures Tracked(g, heap, s', p', e', s0, p0, count, count, true)
  {
    var a, b := Extend(g, heap, scalars, points, size, limbsize, s, p, s0, p0, count, max1, max2);
    e' := Standing(heap[..count], s, p);
    s', p' := StepOn(g, heap, scalars, points, count, limbsize, s, p, s0, p0, count, true, a, b, e');
  }

  method StepOn<T(!new)>(g: Group<T>, heap: array<nat>, scalars: array<nat>, points: array<T>, size: nat, limbsize: nat,
                         ghost s: seq<nat>, ghost p: seq<T>, ghost s0: seq<nat>, ghost p0: seq<T>, ghost count: nat,
                         ghost extended: bool, max1: nat, max2: nat, ghost e: Standing<T>)
    returns (ghost s': seq<nat>, ghost p': seq<T>)
    requires Looping(g, heap, scalars, points, size, limbsize, s, p, s0, p0, count, extended)
    requires size <= |s| && max1 == heap[0] && max1 < size && max2 < size && max1 != max2 && 0 < s[max2] <= s[max1]
    requires !extended ==> s[max1] >= P128
    requires LeftOut(heap, size) != Some(max1) && LeftOut(heap, size) != Some(max2)
    requires Tracked(g, heap, s, p, e, s0, p0, size, count, extended)
    modifies heap, scalars, points
    ensures Looping(g, heap, scalars, points, size, limbsize, s', p', s0, p0, count, extended)
    ensures size <= |s'| && Total(s', size) < Total(s, size) && (!extended ==> Roomy(s', size, limbsize))
    ensures Tracked(g, heap, s', p', e, s0, p0, size, count, extended)
  {
    ghost var left := LeftOut(heap, size);
    if extended {
      ApartStep(g, s, p, e, count, max1, max2);
    } else {
      assert s0[max1] >= P128;
    }
    s', p' := Step(g, heap, scalars, points, size, limbsize, s, p, s0, p0, count, extended, max1, max2);
    assert size % 2 == 0 ==> heap[Live(size)..][0] == heap[size - 1];
    assert LeftOut(heap, size) == left;
  }

  lemma LeftOutIndex(heap: array<nat>, scalars: array<nat>, n: nat, limbsize: nat)
    requires InOrder(heap, scalars, n, limbsize)
    ensures var left := LeftOut(heap, n); left.Some? ==> left.value < n
  {
    assert heap[..n][n - 1] == heap[n - 1];
  }
}
