/** The addition chains of curve25519-donna-helpers.h: inversion and the square-root exponent. */
module FieldPowers {
  import opened Words
  import opened Radix
  import opened Field25519

  /** x holds z^e modulo p. */
  ghost predicate Holds(x: array<u64>, z: int, e: nat)
    reads x
  {
    Below(x, W54) && Cong(Val(x), Exp(z, e))
  }

  lemma {:induction false} CongExp(a: int, b: int, e: nat)
    requires Cong(a, b)
    ensures Cong(Exp(a, e), Exp(b, e))
  {
    if e > 0 {
      CongExp(a, b, e - 1);
      CongMul(a, b, Exp(a, e - 1), Exp(b, e - 1));
    }
  }

  lemma {:induction false} ExpExp(z: int, m: nat, n: nat)
    ensures Exp(Exp(z, m), n) == Exp(z, m * n)
  {
    if n > 0 {
      ExpExp(z, m, n - 1);
      ExpAdd(z, m, m * (n - 1));
      MulDist(m, 1, n - 1);
    } else {
      assert m * n == 0;
    }
  }

  method SquareTimes(out: array<u64>, x: array<u64>, count: nat, ghost z: int, ghost m: nat)
    requires Holds(x, z, m) && out.Length == 5 && count > 0
    modifies out
    ensures Holds(out, z, m * Pow(2, count))
  {
    ghost var v := Val(x);
    FSquareTimes(out, x, count);
    CongExp(v, Exp(z, m), Pow(2, count));
    ExpExp(z, m, Pow(2, count));
  }

  method Times(out: array<u64>, x: array<u64>, y: array<u64>, ghost z: int, ghost m: nat, ghost n: nat)
    requires Holds(x, z, m) && Holds(y, z, n) && out.Length == 5
    modifies out
    ensures Holds(out, z, m + n)
  {
    ghost var v, w := Val(x), Val(y);
    FMul(out, x, y);
    CongMul(v, Exp(z, m), w, Exp(z, n));
    ExpAdd(z, m, n);
  }

  lemma Ones(a: nat, b: nat)
    ensures Pow(2, a) >= 1 && Pow(2, b) >= 1
    ensures (Pow(2, a) - 1) * Pow(2, b) + (Pow(2, b) - 1) == Pow(2, a + b) - 1
  {
    PowMono(2, 0, a);
    PowMono(2, 0, b);
    PowAdd(2, a, b);
    MulDist(Pow(2, b), Pow(2, a), -1);
  }

  ghost predicate HoldsOnes(x: array<u64>, z: int, a: nat)
    reads x
  {
    Pow(2, a) >= 1 && Holds(x, z, Pow(2, a) - 1)
  }

  /** square_times(t0, x, b) followed by mul(out, t0, y): 2^a - 1 and 2^b - 1 ones make 2^(a+b) - 1. */
  method JoinOnes(out: array<u64>, t0: array<u64>, x: array<u64>, y: array<u64>, a: nat, b: nat, ghost z: int)
    requires HoldsOnes(x, z, a) && HoldsOnes(y, z, b) && b > 0
    requires t0.Length == 5 && out.Length == 5 && t0 != y && t0 != out
    modifies t0, out
    ensures HoldsOnes(out, z, a + b)
  {
    Ones(a, b);
    SquareTimes(t0, x, b, z, Pow(2, a) - 1);
    Times(out, t0, y, z, (Pow(2, a) - 1) * Pow(2, b), Pow(2, b) - 1);
  }

  /** curve25519_pow_two5mtwo0_two250mtwo0, in place on b. */
  method Pow250(b: array<u64>, ghost z: int, ghost n5: nat) returns (ghost n250: nat)
    requires n5 == 5 && HoldsOnes(b, z, n5)
    modifies b
    ensures n250 == 250 && HoldsOnes(b, z, n250)
  {
    var t0, t1, c := new u64[5], new u64[5], new u64[5];
    var n, n10, n50 := 5, 10, 50;
    JoinOnes(b, t0, b, b, n, n, z);
    JoinOnes(c, t0, b, b, n10, n10, z);
    JoinOnes(t1, t0, c, c, n10 + n10, n10 + n10, z);
    n := n10 + n10 + (n10 + n10);
    JoinOnes(b, t0, t1, b, n, n10, z);
    assert HoldsOnes(b, z, n50);
    JoinOnes(c, t0, b, b, n50, n50, z);
    JoinOnes(t1, t0, c, c, n50 + n50, n50 + n50, z);
    n := n50 + n50 + (n50 + n50);
    JoinOnes(b, t0, t1, b, n, n50, z);
    n250 := n + n50;
  }

  /** The common start of both chains: e = z^11 and b = z^31. */
  method Start(e: array<u64>, b: array<u64>, z0: array<u64>) returns (ghost n5: nat)
    requires Below(z0, W54) && e.Length == 5 && b.Length == 5 && e != b && e != z0 && b != z0
    modifies e, b
    ensures Holds(e, Val(z0), 11) && n5 == 5 && HoldsOnes(b, Val(z0), n5)
  {
    ghost var z := Val(z0);
    var t0 := new u64[5];
    StartNine(e, b, t0, z0, z);
    assert Pow(2, 1) == 2 && Pow(2, 5) == 32;
    Times(e, b, e, z, 9, 2);
    SquareTimes(t0, e, 1, z, 11);
    Times(b, t0, b, z, 22, 9);
    n5 := 5;
  }

  /** e = z^2 and b = z^9. */
  method StartNine(e: array<u64>, b: array<u64>, t0: array<u64>, z0: array<u64>, ghost z: int)
    requires Below(z0, W54) && Val(z0) == z && e.Length == 5 && b.Length == 5 && t0.Length == 5
    requires e != b && e != z0 && b != z0 && t0 != e && t0 != b && t0 != z0
    modifies e, b, t0
    ensures Holds(e, z, 2) && Holds(b, z, 9)
  {
    assert Exp(z, 1) == z * Exp(z, 0);
    assert Pow(2, 1) == 2 && Pow(2, 2) == 4;
    SquareTimes(e, z0, 1, z, 1);
    SquareTimes(t0, e, 2, z, 2);
    Times(b, t0, z0, z, 8, 1);
  }

  /** e = z^11 and b = z^(2^250 - 1). */
  method Begin(e: array<u64>, b: array<u64>, z0: array<u64>) returns (ghost n: nat)
    requires Below(z0, W54) && e.Length == 5 && b.Length == 5 && e != b && e != z0 && b != z0
    modifies e, b
    ensures Holds(e, Val(z0), 11) && n == 250 && HoldsOnes(b, Val(z0), n)
  {
    n := Start(e, b, z0);
    n := Pow250(b, Val(z0), n);
  }

  /** square_times(b, b, count) followed by mul(out, b, y). */
  method Finish(out: array<u64>, b: array<u64>, y: array<u64>, count: nat, ghost z: int, ghost n: nat, ghost m: nat,
                ghost e: nat)
    requires HoldsOnes(b, z, n) && Holds(y, z, m) && count > 0 && e == (Pow(2, n) - 1) * Pow(2, count) + m
    requires out.Length == 5 && b != y && b != out
    modifies b, out
    ensures Holds(out, z, e)
  {
    SquareTimes(b, b, count, z, Pow(2, n) - 1);
    Times(out, b, y, z, (Pow(2, n) - 1) * Pow(2, count), m);
  }

  /** curve25519_recip: z^(p - 2) = z^(2^255 - 21). */
  method Recip(out: array<u64>, z: array<u64>)
    requires Below(z, W54) && out.Length == 5
    modifies out
    ensures P - 2 >= 0 && Below(out, W54) && Cong(Val(out), Exp(old(Val(z)), P - 2))
  {
    ghost var v := Val(z);
    var a, b := new u64[5], new u64[5];
    ghost var n := Begin(a, b, z);
    Exponents(n);
    Finish(out, b, a, 5, v, n, 11, P - 2);
  }

  /** curve25519_pow_two252m3: z^((p - 5) / 8) = z^(2^252 - 3). */
  method PowTwo252m3(out: array<u64>, z: array<u64>)
    requires Below(z, W54) && out.Length == 5
    modifies out
    ensures (P - 5) / 8 >= 0 && Below(out, W54) && Cong(Val(out), Exp(old(Val(z)), (P - 5) / 8))
  {
    ghost var v := Val(z);
    var c, b := new u64[5], new u64[5];
    ghost var n := Begin(c, b, z);
    Exponents(n);
    assert Exp(v, 1) == v * Exp(v, 0);
    Finish(out, b, z, 2, v, n, 1, (P - 5) / 8);
  }

  lemma Pow50(n: nat)
    requires n == 50
    ensures Pow(2, n) == 0x4_0000_0000_0000
  {
    var a := 10;
    assert Pow(2, 10) == 0x400;
    PowAdd(2, a, a);
    PowAdd(2, a + a, a + a);
    PowAdd(2, a + a + (a + a), a);
  }

  lemma Pow200(n: nat)
    requires n == 200
    ensures Pow(2, n) == 0x100_0000_0000_0000_0000_0000_0000_0000_0000_0000_0000_0000_0000
  {
    var b := 50;
    Pow50(b);
    PowAdd(2, b, b);
    PowAdd(2, b + b, b + b);
  }

  lemma Exponents(n: nat)
    requires n == 250
    ensures Pow(2, n) >= 1 && Pow(2, 5) == 32 && Pow(2, 2) == 4
    ensures (Pow(2, n) - 1) * 32 + 11 == P - 2
    ensures (Pow(2, n) - 1) * 4 + 1 == (P - 5) / 8
  {
    var a, b := 200, 50;
    Pow50(b);
    Pow200(a);
    PowAdd(2, a, b);
  }
}
