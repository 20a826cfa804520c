/** Positional numerals with signed digits, least significant digit first. */
module Radix {
  import opened Words

  newtype i8 = x: int | -0x80 <= x < 0x80

  function Pow(b: nat, n: nat): nat {
    if n == 0 then 1 else b * Pow(b, n - 1)
  }

  lemma {:induction false} PowAdd(b: nat, m: nat, n: nat)
    ensures Pow(b, m + n) == Pow(b, m) * Pow(b, n)
  {
    if m > 0 {
      PowAdd(b, m - 1, n);
      MulAssoc(b, Pow(b, m - 1), Pow(b, n));
    }
  }

  lemma PowSplit(b: nat, m: nat, n: nat)
    requires m <= n
    ensures Pow(b, n) == Pow(b, m) * Pow(b, n - m)
  {
    PowAdd(b, m, n - m);
  }

  lemma {:induction false} PowMono(b: nat, m: nat, n: nat)
    requires b > 0 && m <= n
    ensures 1 <= Pow(b, m) <= Pow(b, n)
  {
    if n > 0 {
      PowMono(b, if m < n then m else n - 1, n - 1);
      MulMono(Pow(b, n - 1), 1, b);
    }
  }

  /** The value of a digit string in base b. */
  function Eval(b: nat, s: seq<i8>): int {
    if s == [] then 0 else s[0] as int + b * Eval(b, s[1..])
  }

  lemma {:induction false} EvalConcat(b: nat, s: seq<i8>, t: seq<i8>)
    ensures Eval(b, s + t) == Eval(b, s) + Pow(b, |s|) * Eval(b, t)
  {
    if s == [] {
      assert s + t == t;
    } else {
      assert (s + t)[1..] == s[1..] + t;
      EvalConcat(b, s[1..], t);
      MulAssoc(b, Pow(b, |s| - 1), Eval(b, t));
      MulDist(b, Eval(b, s[1..]), Pow(b, |s| - 1) * Eval(b, t));
    }
  }

  /** Splitting a numeral at position k. */
  lemma EvalSplit(b: nat, s: seq<i8>, k: nat)
    requires k <= |s|
    ensures Eval(b, s) == Eval(b, s[..k]) + Pow(b, k) * Eval(b, s[k..])
  {
    assert s == s[..k] + s[k..];
    EvalConcat(b, s[..k], s[k..]);
  }

  lemma EvalHead(b: nat, s: seq<i8>, k: nat)
    requires k < |s|
    ensures Eval(b, s[k..]) == s[k] as int + b * Eval(b, s[k + 1..])
  {
    assert s[k..][1..] == s[k + 1..];
  }

  lemma EvalLast(b: nat, s: seq<i8>, k: nat)
    requires k < |s|
    ensures Eval(b, s[..k + 1]) == Eval(b, s[..k]) + Pow(b, k) * s[k] as int
  {
    assert s[..k + 1] == s[..k] + [s[k]];
    EvalConcat(b, s[..k], [s[k]]);
    assert Eval(b, [s[k]]) == s[k] as int + b * Eval(b, []);
  }

  /** A run of zero digits only scales what follows. */
  lemma {:induction false} EvalZeros(b: nat, s: seq<i8>, k: nat, n: nat)
    requires k <= n <= |s| && forall i :: k <= i < n ==> s[i] == 0
    ensures Eval(b, s[k..]) == Pow(b, n - k) * Eval(b, s[n..])
    decreases n - k
  {
    if k < n {
      EvalHead(b, s, k);
      EvalZeros(b, s, k + 1, n);
      MulAssoc(b, Pow(b, n - k - 1), Eval(b, s[n..]));
    }
  }
}
