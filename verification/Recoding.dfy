/** Signed-digit recodings of scalars (modm-donna-64bit.h): the sliding-window form used by
    verification and the 4-bit window form used by base-point multiplication. */
module Recoding {
  import opened Words
  import opened Radix
  import opened ModM

  ghost predicate Bits(s: seq<i8>, k: nat) {
    forall i :: k <= i < |s| ==> s[i] == 0 || s[i] == 1
  }

  ghost predicate Zeros(s: seq<i8>, k: nat, n: nat) {
    forall i :: k <= i < n && i < |s| ==> s[i] == 0
  }

  /** The carry loop of the recoding: adds 1 at position k0 of a binary numeral. */
  method PropagateCarry(r: array<i8>, k0: nat)
    requires k0 <= r.Length && Bits(r[..], k0)
    requires Eval(2, r[..][k0..]) + 1 < Pow(2, r.Length - k0)
    modifies r
    ensures r[..k0] == old(r[..k0]) && Bits(r[..], k0)
    ensures Eval(2, r[..][k0..]) == old(Eval(2, r[..][k0..])) + 1
    ensures k0 < r.Length && old(r[k0]) == 1 ==> r[k0] == 0
  {
    ghost var t := Eval(2, r[..][k0..]);
    ghost var r0 := r[..];
    var k := k0;
    while k < r.Length
      invariant k0 <= k <= r.Length && |r0| == r.Length
      invariant Zeros(r[..], k0, k) && r[..][k..] == r0[k..] && r[..k0] == r0[..k0]
      invariant Pow(2, k - k0) * (Eval(2, r0[k..]) + 1) == t + 1
    {
      EvalHead(2, r0, k);
      assert r[..][k] == r0[k..][0];
      if r[k] == 0 {
        r[k] := 1;
        assert r[..][k + 1..] == r0[k + 1..];
        CarryStops(r0, r[..], k0, k, t);
        return;
      }
      CarryDoubles(k - k0, Eval(2, r0[k + 1..]));
      r[k] := 0;
      k := k + 1;
      assert r[..][k..] == r0[k..];
    }
  }

  /** The carry stops at a zero, position k: the ones below it have become zeros. */
  lemma CarryStops(s: seq<i8>, t: seq<i8>, k0: nat, k: nat, v: int)
    requires k0 <= k < |s| == |t| && Zeros(t, k0, k) && s[k] == 0 && t[k] == 1 && t[k + 1..] == s[k + 1..]
    requires Pow(2, k - k0) * (Eval(2, s[k..]) + 1) == v + 1
    ensures Eval(2, t[k0..]) == v + 1
  {
    EvalHead(2, s, k);
    EvalHead(2, t, k);
    EvalZeros(2, t, k0, k);
  }

  lemma CarryDoubles(n: nat, e: int)
    ensures Pow(2, n) * (1 + 2 * e + 1) == Pow(2, n + 1) * (e + 1)
  {
    MulAssoc(Pow(2, n), 2, e + 1);
  }

  /** A digit the window of width w can produce: odd, of absolute value at most 2^(w-1) - 1. */
  ghost predicate WindowDigit(d: int, w: nat)
    requires w > 0
  {
    d % 2 == 1 && 0 - Pow(2, w - 1) < d < Pow(2, w - 1)
  }

  /** The value of r[j..] while the window at j has absorbed positions j+1 .. j+b-1. */
  ghost predicate Absorbed(s: seq<i8>, j: nat, b: nat, e: int)
    requires 1 <= b && j + b <= |s|
  {
    && Zeros(s, j + 1, j + b) && Bits(s, j + 1)
    && s[j] as int + Pow(2, b) * Eval(2, s[j + b..]) == e
  }

  lemma AbsorbedValue(s: seq<i8>, j: nat, b: nat, e: int)
    requires 1 <= b && j + b <= |s| && Absorbed(s, j, b, e)
    ensures Eval(2, s[j..]) == e
  {
    EvalHead(2, s, j);
    EvalZeros(2, s, j + 1, j + b);
    MulAssoc(2, Pow(2, b - 1), Eval(2, s[j + b..]));
  }

  lemma AbsorbedStart(s: seq<i8>, j: nat)
    requires j < |s| && Bits(s, j)
    ensures Absorbed(s, j, 1, Eval(2, s[j..]))
  {
    EvalHead(2, s, j);
    assert Pow(2, 1) == 2 * Pow(2, 0);
  }

  /** Moving the bit at j + b into the digit at j. */
  lemma AbsorbBit(s: seq<i8>, t: seq<i8>, j: nat, b: nat, e: int)
    requires 1 <= b && j + b < |s| == |t| && Absorbed(s, j, b, e)
    requires t[j + b] == 0 && t[j + 1..j + b] == s[j + 1..j + b] && t[j + b + 1..] == s[j + b + 1..]
    requires t[j] as int == s[j] as int + s[j + b] as int * Pow(2, b)
    ensures Absorbed(t, j, b + 1, e)
  {
    EvalHead(2, s, j + b);
    AbsorbedBit(s[j] as int, s[j + b] as int, Pow(2, b), Eval(2, s[j + b + 1..]));
    SameSlice(s, t, j + 1, j + b);
    SameSlice(s, t, j + b + 1, |t|);
    assert t[j + b + 1..] == s[j + b + 1..] && Pow(2, b + 1) == 2 * Pow(2, b);
  }

  lemma AbsorbedBit(d: int, bit: int, p: int, f: int)
    ensures d + p * (bit + 2 * f) == d + bit * p + 2 * p * f
  {
    MulDist(p, bit, 2 * f);
    MulAssoc(p, 2, f);
  }

  lemma SameSlice(s: seq<i8>, t: seq<i8>, m: nat, n: nat)
    requires m <= n <= |s| == |t| && s[m..n] == t[m..n]
    ensures forall i :: m <= i < n ==> s[i] == t[i]
  {
    forall i | m <= i < n
      ensures s[i] == t[i]
    {
      assert s[m..n][i - m] == t[m..n][i - m];
    }
  }

  /** Subtracting 2^b from the digit at j and adding 1 at position j + b. */
  lemma AbsorbCarry(s: seq<i8>, t: seq<i8>, j: nat, b: nat, e: int)
    requires 1 <= b && j + b < |s| == |t| && Absorbed(s, j, b, e)
    requires t[j + 1..j + b] == s[j + 1..j + b] && Bits(t, j + b) && t[j + b] == 0
    requires Eval(2, t[j + b..]) == Eval(2, s[j + b..]) + 1
    requires t[j] as int == s[j] as int - Pow(2, b)
    ensures Absorbed(t, j, b + 1, e)
  {
    EvalHead(2, t, j + b);
    var f := Eval(2, t[j + b + 1..]);
    MulDist(Pow(2, b), Eval(2, s[j + b..]), 1);
    MulAssoc(Pow(2, b), 2, f);
    SameSlice(s, t, j + 1, j + b);
  }

  /** A carry out of the window at j + b finds a zero below the end of the array. */
  lemma CarryFits(d: int, e: int, t: int, b: nat, n: nat)
    requires d >= 1 && 1 <= b < n && d + Pow(2, b) * t == e <= Pow(2, n - 1)
    ensures t + 1 < Pow(2, n - b)
  {
    PowSplit(2, b, n);
    PowMono(2, b, n - 1);
    assert Pow(2, n) == 2 * Pow(2, n - 1);
    if t + 1 >= Pow(2, n - b) {
      MulMono(Pow(2, b), Pow(2, n - b), t + 1);
      MulDist(Pow(2, b), t, 1);
    }
  }

  /** The digit at j before position j + b is looked at: still a plain window of b bits while b < w. */
  ghost predicate Partial(d: int, b: nat, w: nat)
    requires w > 0
  {
    WindowDigit(d, w) && (b < w ==> 1 <= d < Pow(2, b))
  }

  lemma WindowPowers(b: nat, w: nat)
    requires 2 <= w <= 7 && 1 <= b <= 6
    ensures Pow(2, b) % 2 == 0 && Pow(2, b) >= 2 && Pow(2, b + 1) == 2 * Pow(2, b) && Pow(2, w - 1) <= 64
    ensures b < w - 1 ==> 2 * Pow(2, b) <= Pow(2, w - 1)
    ensures b >= w ==> 2 * Pow(2, w - 1) <= Pow(2, b)
  {
    assert Pow(2, 6) == 64;
    PowMono(2, w - 1, 6);
    PowMono(2, 0, b - 1);
    if b < w - 1 {
      PowMono(2, b + 1, w - 1);
    } else if b >= w {
      PowMono(2, w, b);
      assert Pow(2, w) == 2 * Pow(2, w - 1);
    }
  }

  /** A bit the digit can take keeps it a plain window. */
  lemma TakesBit(d: int, bit: int, b: nat, w: nat)
    requires 2 <= w <= 7 && 1 <= b <= 6 && (bit == 0 || bit == 1) && Partial(d, b, w)
    requires d + bit * Pow(2, b) < Pow(2, w - 1)
    ensures Partial(d + bit * Pow(2, b), b + 1, w) && Pow(2, w - 1) <= 64
  {
    WindowPowers(b, w);
    TimesBit(bit, Pow(2, b));
    OddPlusEven(d, Pow(2, b));
  }

  lemma TimesBit(bit: int, p: int)
    requires bit == 0 || bit == 1
    ensures bit * p == if bit == 1 then p else 0
  {
  }

  /** A carry happens only at b = w - 1, on a set bit and a positive digit. */
  lemma TakesCarry(d: int, bit: int, b: nat, w: nat)
    requires 2 <= w <= 7 && 1 <= b <= 6 && (bit == 0 || bit == 1) && Partial(d, b, w)
    requires d + bit * Pow(2, b) >= Pow(2, w - 1) && d - bit * Pow(2, b) > 0 - Pow(2, w - 1)
    ensures bit == 1 && d >= 1 && Partial(d - Pow(2, b), b + 1, w) && Pow(2, w - 1) <= 64
  {
    WindowPowers(b, w);
    TimesBit(bit, Pow(2, b));
    OddPlusEven(d, Pow(2, b));
    if bit == 1 {
      assert b == w - 1;
    }
  }

  lemma OddPlusEven(d: int, p: int)
    requires d % 2 == 1 && p % 2 == 0
    ensures (d + p) % 2 == 1 && (d - p) % 2 == 1
  {
  }

  /** The loop stops only beyond the window. */
  lemma TakesNothing(d: int, bit: int, b: nat, w: nat)
    requires 2 <= w <= 7 && 1 <= b <= 6 && (bit == 0 || bit == 1) && Partial(d, b, w)
    requires d + bit * Pow(2, b) >= Pow(2, w - 1) && d - bit * Pow(2, b) <= 0 - Pow(2, w - 1)
    ensures bit == 1 && w <= b
  {
    WindowPowers(b, w);
    if bit == 1 {
      assert bit * Pow(2, b) == Pow(2, b);
    }
  }

  /** One pass of the inner loop; stops at a set bit the window cannot take. */
  method WindowStep(r: array<i8>, j: nat, b: nat, w: nat, ghost e: int) returns (stop: bool)
    requires 2 <= w <= 7 && 1 <= b <= 6 && j + b < r.Length
    requires Absorbed(r[..], j, b, e) && Partial(r[j] as int, b, w) && e <= Pow(2, r.Length - 1 - j)
    modifies r
    ensures r[..j] == old(r[..j])
    ensures !stop ==> Absorbed(r[..], j, b + 1, e) && Partial(r[j] as int, b + 1, w)
    ensures stop ==> w <= b && r[..] == old(r[..])
  {
    var m := Pow(2, w - 1) - 1;
    var d := r[j + b] as int * Pow(2, b);
    stop := false;
    if r[j] as int + d <= m {
      TakesBit(r[j] as int, r[j + b] as int, b, w);
      AddBit(r, j, b, d, e);
    } else if r[j] as int - d >= -m {
      TakesCarry(r[j] as int, r[j + b] as int, b, w);
      SubtractAndCarry(r, j, b, e);
    } else {
      TakesNothing(r[j] as int, r[j + b] as int, b, w);
      if r[j + b] != 0 {
        stop := true;
      }
    }
  }

  // r[j] += r[j + b] << b; r[j + b] = 0
  method AddBit(r: array<i8>, j: nat, b: nat, d: int, ghost e: int)
    requires 1 <= b <= 6 && j + b < r.Length && d == r[j + b] as int * Pow(2, b)
    requires Absorbed(r[..], j, b, e) && -0x80 <= r[j] as int + d < 0x80
    modifies r
    ensures r[..j] == old(r[..j]) && Absorbed(r[..], j, b + 1, e) && r[j] as int == old(r[j]) as int + d
  {
    ghost var s := r[..];
    r[j] := (r[j] as int + d) as i8;
    r[j + b] := 0;
    AbsorbBit(s, r[..], j, b, e);
  }

  method SubtractAndCarry(r: array<i8>, j: nat, b: nat, ghost e: int)
    requires 1 <= b <= 6 && j + b < r.Length && r[j] >= 1 && r[j + b] == 1
    requires Absorbed(r[..], j, b, e) && e <= Pow(2, r.Length - 1 - j) && -0x80 <= r[j] as int - Pow(2, b)
    modifies r
    ensures r[..j] == old(r[..j]) && Absorbed(r[..], j, b + 1, e)
    ensures r[j] as int == old(r[j]) as int - Pow(2, b)
  {
    ghost var s := r[..];
    CarryFits(r[j] as int, e, Eval(2, s[j + b..]), b, r.Length - j);
    r[j] := (r[j] as int - Pow(2, b)) as i8;
    assert r[..][j + b..] == s[j + b..];
    ghost var u := r[..];
    PropagateCarry(r, j + b);
    PrefixAt(u, r[..], j + b);
    AbsorbCarry(s, r[..], j, b, e);
  }

  lemma PrefixAt(s: seq<i8>, t: seq<i8>, n: nat)
    requires n <= |s| == |t| && s[..n] == t[..n]
    ensures forall i :: 0 <= i < n ==> s[i] == t[i]
  {
    assert forall i :: 0 <= i < n ==> s[i] == s[..n][i] == t[..n][i] == t[i];
  }

  /** The inner loop of the recoding, for a digit r[j] that is a single set bit. */
  method TakeWindow(r: array<i8>, j: nat, w: nat)
    requires 2 <= w <= 7 && j < r.Length && Bits(r[..], j) && r[j] == 1
    requires Eval(2, r[..][j..]) <= Pow(2, r.Length - 1 - j)
    modifies r
    ensures r[..j] == old(r[..j]) && Bits(r[..], j + 1) && Zeros(r[..], j + 1, j + w)
    ensures WindowDigit(r[j] as int, w)
    ensures Eval(2, r[..][j..]) == old(Eval(2, r[..][j..]))
  {
    ghost var e := Eval(2, r[..][j..]);
    AbsorbedStart(r[..], j);
    PowMono(2, 1, w - 1);
    var b := 1;
    while b < r.Length - j && b <= 6
      invariant 1 <= b <= 7 && j + b <= r.Length
      invariant r[..j] == old(r[..j]) && Absorbed(r[..], j, b, e) && Partial(r[j] as int, b, w)
    {
      var stop := WindowStep(r, j, b, w, e);
      if stop {
        break;
      }
      b := b + 1;
    }
    AbsorbedValue(r[..], j, b, e);
  }

  /** What the digits below j still owe: the windows already taken reach up to z, where all bits are zero. */
  ghost predicate Taken(s: seq<i8>, j: nat, z: nat, w: nat)
    requires w > 0 && j <= |s|
  {
    && j <= z && Zeros(s, j, z) && Bits(s, j)
    && -(Pow(2, z) as int) <= 2 * Eval(2, s[..j]) <= Pow(2, z)
    && forall i :: 0 <= i < j && s[i] != 0 ==> WindowDigit(s[i] as int, w) && Zeros(s, i + 1, i + w) && i + w <= z
  }

  lemma SkipZero(s: seq<i8>, j: nat, z: nat, w: nat) returns (z': nat)
    requires w > 0 && j < |s| && Taken(s, j, z, w) && s[j] == 0
    ensures Taken(s, j + 1, z', w)
  {
    z' := if z == j then j + 1 else z;
    EvalLast(2, s, j);
    PowMono(2, z, z');
  }

  lemma AtWindow(s: seq<i8>, j: nat, z: nat, w: nat)
    requires w > 0 && j < |s| && Taken(s, j, z, w) && s[j] != 0
    ensures z == j && s[j] == 1
  {
  }

  /** Below bit n - 1, what is left of the scalar at j is at most 2^(n-1-j): there is room for a carry. */
  lemma RoomForCarry(s: seq<i8>, j: nat)
    requires j < |s| && Eval(2, s) < Pow(2, |s| - 1) && 0 - Pow(2, j) <= 2 * Eval(2, s[..j])
    ensures Eval(2, s[j..]) <= Pow(2, |s| - 1 - j)
  {
    EvalSplit(2, s, j);
    RoomPower(j, |s| - 1, Eval(2, s[..j]), Eval(2, s[j..]), Eval(2, s));
  }

  lemma RoomPower(j: nat, n: nat, low: int, e: int, v: int)
    requires j <= n && v == low + Pow(2, j) * e && 0 - Pow(2, j) <= 2 * low && v < Pow(2, n)
    ensures e <= Pow(2, n - j)
  {
    PowSplit(2, j, n);
    PowMono(2, 0, j);
    RoomArithmetic(Pow(2, j), e, Pow(2, n - j), low, v);
  }

  lemma RoomArithmetic(p: int, e: int, f: int, low: int, v: int)
    requires p >= 1 && v == low + p * e && -p <= 2 * low && v < p * f
    ensures e <= f
  {
    if e > f {
      MulMono(p, 1, e - f);
      MulDist(p, f, e - f);
    }
  }

  lemma TakenWindow(s: seq<i8>, t: seq<i8>, j: nat, w: nat)
    requires 2 <= w && j < |s| == |t| && Taken(s, j, j, w)
    requires t[..j] == s[..j] && Bits(t, j + 1) && Zeros(t, j + 1, j + w) && WindowDigit(t[j] as int, w)
    ensures Taken(t, j + 1, j + w, w)
  {
    PrefixAt(s, t, j);
    EvalLast(2, t, j);
    PowAdd(2, j, w);
    PowMono(2, 0, j);
    assert Pow(2, w) == 2 * Pow(2, w - 1);
    WindowArithmetic(Pow(2, j), Pow(2, w - 1), t[j] as int, Eval(2, s[..j]));
  }

  lemma WindowArithmetic(p: int, q: int, d: int, low: int)
    requires p >= 1 && -q < d < q && -p <= 2 * low <= p
    ensures -(p * (2 * q)) <= 2 * (low + p * d) <= p * (2 * q)
  {
    MulMono(p, q - 1 - d, 2 * q);
    MulMono(p, q - 1 + d, 2 * q);
    MulDist(p, q, -1 - d);
    MulDist(p, q, -1 + d);
    MulDist(p, -1, -d);
    MulDist(p, -1, d);
    MulDist(p, q, q);
  }

  /** Making it sliding window: value preserved, digits odd or zero, nonzero digits at least w apart. */
  method SlideBits(r: array<i8>, w: nat)
    requires 2 <= w <= 7 && r.Length > 0 && Bits(r[..], 0) && Eval(2, r[..]) < Pow(2, r.Length - 1)
    modifies r
    ensures Eval(2, r[..]) == old(Eval(2, r[..]))
    ensures forall i :: 0 <= i < r.Length && r[i] != 0 ==> WindowDigit(r[i] as int, w) && Zeros(r[..], i + 1, i + w)
  {
    ghost var v := Eval(2, r[..]);
    ghost var z := 0;
    assert r[..][..0] == [];
    for j := 0 to r.Length
      invariant Eval(2, r[..]) == v && Taken(r[..], j, z, w)
    {
      if r[j] == 0 {
        z := SkipZero(r[..], j, z, w);
        continue;
      }
      AtWindow(r[..], j, z, w);
      RoomForCarry(r[..], j);
      ghost var s := r[..];
      EvalSplit(2, s, j);
      TakeWindow(r, j, w);
      EvalSplit(2, r[..], j);
      assert r[..][..j] == s[..j];
      TakenWindow(s, r[..], j, w);
      z := j + w;
    }
  }

  ghost predicate Digits(s: seq<i8>, k: nat, b: nat) {
    forall i :: 0 <= i < k && i < |s| ==> 0 <= s[i] as int < b
  }

  /** Writes the n low digits of v in base b = 2 or 16 from position k on. */
  method ExpandLimb(r: array<i8>, k: nat, v: u64, n: nat, b: nat)
    requires b == 2 || b == 16
    requires k + n <= r.Length && v as int < Pow(b, n) && Digits(r[..], k, b)
    modifies r
    ensures Digits(r[..], k + n, b)
    ensures Eval(b, r[..][..k + n]) == old(Eval(b, r[..][..k])) + Pow(b, k) * v as int
  {
    ghost var low := Eval(b, r[..][..k]);
    ghost var r0 := r[..];
    var w := v;
    for j := 0 to n
      invariant r[..k] == r0[..k] && r[..][..k] == r0[..k]
      invariant Digits(r[..], k + j, b)
      invariant w as int < Pow(b, n - j)
      invariant Eval(b, r[..][..k + j]) + Pow(b, k + j) * w as int == low + Pow(b, k) * v as int
    {
      ghost var s := r[..];
      ghost var w0 := w;
      r[k + j] := (w as int % b) as i8;
      w := (w as int / b) as u64;
      assert r[..][..k + j] == s[..k + j];
      EvalLast(b, r[..], k + j);
      DigitStep(b, k + j, w0 as int, n - j);
    }
    assert Pow(b, 0) == 1;
    assert Pow(b, k + n) * 0 == 0;
  }

  lemma DigitStep(b: nat, k: nat, w: int, n: nat)
    requires b > 0 && n > 0 && 0 <= w < Pow(b, n)
    ensures Pow(b, k) * (w % b) + Pow(b, k + 1) * (w / b) == Pow(b, k) * w
    ensures 0 <= w / b <= w && w / b < Pow(b, n - 1)
  {
    DigitValue(Pow(b, k), b, w);
    DigitBound(Pow(b, n - 1), b, w);
  }

  lemma DigitValue(p: nat, b: nat, w: int)
    requires b > 0
    ensures p * (w % b) + b * p * (w / b) == p * w
  {
    var q, r := w / b, w % b;
    assert w == r + b * q;
    MulDist(p, r, b * q);
    MulAssoc(p, b, q);
  }

  lemma DigitBound(p: nat, b: nat, w: nat)
    requires b > 0 && w < b * p
    ensures w / b <= w && w / b < p
  {
    var q := w / b;
    assert w == w % b + b * q;
    MulAtLeast(b, q, p);
    MulMono(q, 1, b);
  }

  /** How many digits of base b a limb of 56 bits and the top limb of 32 bits take. */
  ghost predicate LimbDigits(b: nat, n: nat, m: nat) {
    (b == 2 && n == 56 && m == 32) || (b == 16 && n == 14 && m == 8)
  }

  lemma LimbPowers(b: nat, n: nat, m: nat)
    requires LimbDigits(b, n, m)
    ensures Pow(b, n) == P56 && Pow(b, 2 * n) == P112 && Pow(b, 3 * n) == P168 && Pow(b, 4 * n) == P224
    ensures Pow(b, m) == W32 as int
  {
    if b == 2 {
      assert Pow(2, 8) == 0x100;
      PowAdd(2, 8, 8);
      PowAdd(2, 16, 16);
      PowAdd(2, 16, 8);
      PowAdd(2, 32, 24);
    } else {
      assert Pow(16, 6) == 0x100_0000 && Pow(16, 8) == 0x1_0000_0000;
      PowAdd(16, 6, 8);
    }
    PowAdd(b, n, n);
    PowAdd(b, n, 2 * n);
    PowAdd(b, n, 3 * n);
  }

  /** First put the binary (or hexadecimal) expansion into r. */
  method ExpandLimbs(r: array<i8>, s: array<u64>, b: nat, n: nat, m: nat)
    requires LimbDigits(b, n, m) && r.Length == 4 * n + m && Limbs(s) && s[4] < W32
    modifies r
    ensures Eval(b, r[..]) == Val(s) && Digits(r[..], r.Length, b)
  {
    LimbPowers(b, n, m);
    assert r[..][..0] == [];
    ExpandLimb(r, 0, s[0], n, b);
    assert Eval(b, r[..][..n]) == s[0] as int;
    ExpandLimb(r, n, s[1], n, b);
    assert Eval(b, r[..][..2 * n]) == s[0] as int + P56 * s[1] as int;
    ExpandLimb(r, 2 * n, s[2], n, b);
    assert Eval(b, r[..][..3 * n]) == s[0] as int + P56 * s[1] as int + P112 * s[2] as int;
    ExpandLimb(r, 3 * n, s[3], n, b);
    ExpandLimb(r, 4 * n, s[4], m, b);
    assert r[..][..r.Length] == r[..];
  }

  /** contract256_slidingwindow_modm, for every scalar below 2^255 and window width up to 7. */
  method SlidingWindow(r: array<i8>, s: array<u64>, w: nat)
    requires r.Length == 256 && Limbs(s) && s[4] < 0x8000_0000 && 2 <= w <= 7
    modifies r
    ensures Eval(2, r[..]) == Val(s)
    ensures forall i :: 0 <= i < 256 && r[i] != 0 ==> WindowDigit(r[i] as int, w) && Zeros(r[..], i + 1, i + w)
  {
    ExpandLimbs(r, s, 2, 56, 32);
    TopBit(s[0] as int, s[1] as int, s[2] as int, s[3] as int, s[4] as int);
    TopPower(r.Length - 1);
    SlideBits(r, w);
  }

  lemma TopBit(a: int, b: int, c: int, d: int, e: int)
    requires 0 <= a < P56 && 0 <= b < P56 && 0 <= c < P56 && 0 <= d < P56 && 0 <= e < 0x8000_0000
    ensures V(a, b, c, d, e) < P255
  {
  }

  // The exponents are parameters because powers of literals would be computed out.
  lemma TopPower(n: nat)
    requires n == 255
    ensures Pow(2, n) == P255
  {
    var m, k := 56, 31;
    LimbPowers(2, m, 32);
    assert Pow(2, 31) == 0x8000_0000;
    PowAdd(2, 4 * m, k);
  }

  lemma TopNibblePower(n: nat)
    requires n == 63
    ensures 8 * Pow(16, n) == P255
  {
    var m, k := 14, 7;
    LimbPowers(16, m, 8);
    assert Pow(16, 7) == 0x1000_0000;
    PowAdd(16, 4 * m, k);
  }

  /** The numeral being made signed: digits below i are done, the digit at i still takes the carry. */
  ghost predicate HalfSigned(s: seq<i8>, i: nat, c: int, v: int) {
    && |s| == 64 && i < 64 && 0 <= c <= 1
    && Eval(16, s[..i]) + Pow(16, i) * (Eval(16, s[i..]) + c) == v
    && (forall k :: 0 <= k < i ==> -8 <= s[k] <= 7)
    && (forall k :: i < k < 64 ==> 0 <= s[k] <= 15)
    && 0 <= s[i] as int && s[i] as int + c <= 16
    && (if i == 63 then s[i] as int + c <= 8 else s[63] <= 7)
  }

  lemma SignStart(s: seq<i8>, v: int)
    requires |s| == 64 && Digits(s, 64, 16) && Eval(16, s) == v < P255
    ensures HalfSigned(s, 0, 0, v)
  {
    assert s[..0] == [] && s[0..] == s;
    var n := |s| - 1;
    EvalLast(16, s, n);
    assert s[..n + 1] == s;
    EvalNonnegative(16, s[..n]);
    TopNibblePower(n);
    TopNibble(Pow(16, n), s[n] as int, Eval(16, s[..n]));
  }

  lemma TopNibble(p: int, d: int, low: int)
    requires p > 0 && low >= 0 && low + p * d < 8 * p
    ensures d < 8
  {
    if d >= 8 {
      MulMono(p, 8, d);
    }
  }

  lemma {:induction false} EvalNonnegative(b: nat, s: seq<i8>)
    requires forall i :: 0 <= i < |s| ==> s[i] >= 0
    ensures Eval(b, s) >= 0
  {
    if s != [] {
      EvalNonnegative(b, s[1..]);
      MulMono(b, 0, Eval(b, s[1..]));
    }
  }

  lemma SignStep(s: seq<i8>, t: seq<i8>, i: nat, c: int, c': int, v: int)
    requires i < 63 && HalfSigned(s, i, c, v) && |t| == 64 && t[..i] == s[..i] && t[i + 2..] == s[i + 2..]
    requires 0 <= c' <= 1
    requires var d := s[i] as int + c;
             && t[i + 1] as int == s[i + 1] as int + d / 16
             && c' == d % 16 / 8 && t[i] as int == d % 16 - 16 * c'
    ensures HalfSigned(t, i + 1, c', v)
  {
    PrefixAt(s, t, i);
    SameSlice(s, t, i + 2, 64);
    assert s[i + 2..] == t[i + 2..];
    EvalLast(16, t, i);
    EvalHead(16, s, i);
    EvalHead(16, s, i + 1);
    EvalHead(16, t, i + 1);
    var e := Eval(16, t[i + 1..]) + c';
    var p := Pow(16, i);
    SignedPair(s[i] as int, s[i + 1] as int, Eval(16, s[i + 2..]), c, c', t[i] as int, t[i + 1] as int);
    MulDist(p, t[i] as int, 16 * e);
    MulAssoc(p, 16, e);
  }

  lemma SignedPair(x: int, y: int, rest: int, c: int, c': int, x': int, y': int)
    requires x' == (x + c) % 16 - 16 * c' && y' == y + (x + c) / 16
    ensures x' + 16 * (y' + 16 * rest + c') == x + 16 * (y + 16 * rest) + c
  {
  }

  /** One pass of the signing loop on digits i and i + 1. */
  method SignDigit(r: array<i8>, i: nat, carry: i8, ghost v: int) returns (carry': i8)
    requires r.Length == 64 && i < 63 && HalfSigned(r[..], i, carry as int, v)
    modifies r
    ensures HalfSigned(r[..], i + 1, carry' as int, v)
  {
    ghost var s := r[..];
    r[i] := r[i] + carry;
    r[i + 1] := r[i + 1] + r[i] / 16;
    r[i] := r[i] % 16;
    carry' := r[i] / 8;
    r[i] := r[i] - carry' * 16;
    SignStep(s, r[..], i, carry as int, carry' as int, v);
  }

  /** contract256_window4_modm: 64 signed digits in base 16, for every scalar below 2^255. */
  method Window4(r: array<i8>, s: array<u64>)
    requires r.Length == 64 && Limbs(s) && s[4] < 0x8000_0000
    modifies r
    ensures Eval(16, r[..]) == Val(s)
    ensures forall i :: 0 <= i < 64 ==> -8 <= r[i] <= 8
  {
    ExpandLimbs(r, s, 16, 14, 8);
    TopBit(s[0] as int, s[1] as int, s[2] as int, s[3] as int, s[4] as int);
    MakeSigned(r, Val(s));
  }

  method MakeSigned(r: array<i8>, ghost v: int)
    requires r.Length == 64 && Digits(r[..], 64, 16) && Eval(16, r[..]) == v < P255
    modifies r
    ensures Eval(16, r[..]) == v
    ensures forall i :: 0 <= i < 64 ==> -8 <= r[i] <= 8
  {
    SignStart(r[..], v);
    var n := r.Length - 1;
    var carry: i8 := 0;
    for i := 0 to n
      invariant HalfSigned(r[..], i, carry as int, v)
    {
      carry := SignDigit(r, i, carry, v);
    }
    ghost var s := r[..];
    r[n] := r[n] + carry;
    LastDigit(s, r[..], n, carry as int, v);
  }

  lemma LastDigit(s: seq<i8>, t: seq<i8>, n: nat, c: int, v: int)
    requires n == 63 && HalfSigned(s, n, c, v) && |t| == 64 && t[..n] == s[..n] && t[n] as int == s[n] as int + c
    ensures Eval(16, t) == v
  {
    EvalHead(16, s, n);
    assert s[n + 1..] == [];
    EvalLast(16, t, n);
    assert t[..n + 1] == t;
  }
}
