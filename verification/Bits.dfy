/** Bitwise operations of machine words, on numbers. */
module Bits {
  import opened Words
  import opened Radix

  function Xor(a: nat, b: nat): nat {
    if a == 0 && b == 0 then 0 else (a + b) % 2 + 2 * Xor(a / 2, b / 2)
  }

  function And(a: nat, b: nat): nat {
    if a == 0 && b == 0 then 0 else a % 2 * (b % 2) + 2 * And(a / 2, b / 2)
  }

  function Or(a: nat, b: nat): nat {
    if a == 0 && b == 0 then 0 else (if a % 2 + b % 2 > 0 then 1 else 0) + 2 * Or(a / 2, b / 2)
  }

  lemma {:induction false} XorZero(a: nat)
    ensures Xor(a, 0) == a
  {
    if a > 0 {
      XorZero(a / 2);
    }
  }

  lemma {:induction false} AndZero(a: nat)
    ensures And(0, a) == 0
  {
    if a > 0 {
      AndZero(a / 2);
    }
  }

  lemma AndOne(a: nat)
    ensures And(1, a) == a % 2
  {
    AndZero(a / 2);
  }

  lemma {:induction false} OrZero(a: nat)
    ensures Or(a, 0) == a && Or(0, a) == a
  {
    if a > 0 {
      OrZero(a / 2);
    }
  }

  lemma XorStep(a: nat, b: nat)
    ensures Xor(a, b) == (a + b) % 2 + 2 * Xor(a / 2, b / 2)
  {
  }

  lemma {:induction false} XorTwice(a: nat, b: nat)
    ensures Xor(a, Xor(a, b)) == b && Xor(a, b) == Xor(b, a)
    decreases a + b
  {
    if a > 0 || b > 0 {
      XorTwice(a / 2, b / 2);
      XorStep(a, b);
      XorStep(b, a);
      XorStep(a, Xor(a, b));
      ParityTwice(a, b, Xor(a / 2, b / 2));
    }
  }

  lemma ParityTwice(a: nat, b: nat, x: nat)
    ensures var y := (a + b) % 2 + 2 * x; y / 2 == x && (a + y) % 2 == b % 2
  {
  }

  lemma {:induction false} XorSame(a: nat, b: nat)
    ensures Xor(a, b) == 0 <==> a == b
  {
    if a > 0 || b > 0 {
      XorSame(a / 2, b / 2);
      XorStep(a, b);
    }
  }

  lemma {:induction false} OrNone(a: nat, b: nat)
    ensures Or(a, b) == 0 <==> a == 0 && b == 0
  {
    if a > 0 || b > 0 {
      OrNone(a / 2, b / 2);
    }
  }

  lemma Ones(p: nat)
    requires p > 0
    ensures (2 * p - 1) / 2 == p - 1 && (2 * p - 1) % 2 == 1
  {
  }

  /** A word of n ones keeps every bit. */
  lemma {:induction false} AndOnes(a: nat, n: nat)
    requires a < Pow(2, n)
    ensures And(Pow(2, n) - 1, a) == a
  {
    if n > 0 {
      AndOnes(a / 2, n - 1);
      Ones(Pow(2, n - 1));
    }
  }

  /** Exclusive or with n ones is the complement. */
  lemma {:induction false} XorOnes(a: nat, n: nat)
    requires a < Pow(2, n)
    ensures Xor(a, Pow(2, n) - 1) == Pow(2, n) - 1 - a
  {
    if n > 0 {
      var p := Pow(2, n - 1);
      XorOnes(a / 2, n - 1);
      Ones(p);
      XorStep(a, 2 * p - 1);
      Complement(a, p);
    }
  }

  lemma Complement(a: nat, p: nat)
    ensures (a + (2 * p - 1)) % 2 + 2 * (p - 1 - a / 2) == 2 * p - 1 - a
  {
  }

  lemma {:induction false} XorBound(a: nat, b: nat, n: nat)
    requires a < Pow(2, n) && b < Pow(2, n)
    ensures Xor(a, b) < Pow(2, n)
  {
    if n > 0 {
      XorBound(a / 2, b / 2, n - 1);
    }
  }

  lemma {:induction false} OrBound(a: nat, b: nat, n: nat)
    requires a < Pow(2, n) && b < Pow(2, n)
    ensures Or(a, b) < Pow(2, n)
  {
    if n > 0 {
      OrBound(a / 2, b / 2, n - 1);
    }
  }

  // The exponents are variables, so that the powers are not unfolded.
  lemma Pow32(n: nat)
    requires n == 32
    ensures Pow(2, n) == 0x1_0000_0000
  {
    var m := 8;
    assert Pow(2, 8) == 0x100;
    PowAdd(2, m, m);
    PowAdd(2, m + m, m + m);
  }

  lemma Pow64(n: nat)
    requires n == 64
    ensures Pow(2, n) == P64
  {
    var m := 32;
    Pow32(m);
    PowAdd(2, m, m);
  }

  /** Masks of 64 ones. */
  lemma AndAll(mask: nat, a: nat)
    requires mask == P64 - 1 && a < P64
    ensures And(mask, a) == a
  {
    var n := 64;
    Pow64(n);
    AndOnes(a, n);
  }

  lemma XorWord(a: nat, b: nat)
    requires a < P64 && b < P64
    ensures Xor(a, b) < P64
  {
    var n := 64;
    Pow64(n);
    XorBound(a, b, n);
  }

  /** Exclusive or with a mask of 32 ones. */
  lemma XorAll32(a: nat, mask: nat)
    requires mask == 0xffff_ffff && a <= mask
    ensures Xor(a, mask) == mask - a
  {
    var n := 32;
    Pow32(n);
    XorOnes(a, n);
  }

  /** r ^ (mask & (r ^ t)): a mask of ones takes t, a mask of zeros keeps r. */
  lemma MaskSelects(r: nat, t: nat, mask: nat)
    requires r < P64 && t < P64 && (mask == 0 || mask == P64 - 1)
    ensures Xor(r, And(mask, Xor(r, t))) == if mask == 0 then r else t
  {
    XorWord(r, t);
    if mask == 0 {
      AndZero(Xor(r, t));
      XorZero(r);
    } else {
      AndAll(mask, Xor(r, t));
      XorTwice(r, t);
    }
  }

  /** (out & nb) | (in & ~nb) */
  lemma MaskMoves(out: nat, source: nat, nb: nat, b: nat)
    requires out < P64 && source < P64 && (nb == 0 || nb == P64 - 1) && b == P64 - 1 - nb
    ensures Or(And(nb, out), And(b, source)) == if nb == 0 then source else out
  {
    if nb == 0 {
      AndZero(out);
      AndAll(b, source);
      OrZero(source);
    } else {
      AndZero(source);
      AndAll(nb, out);
      OrZero(out);
    }
  }
}
