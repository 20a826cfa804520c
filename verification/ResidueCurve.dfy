/** A curve that meets the assumptions of the signature results: the integers modulo eight times the group order,
    with their little-endian encodings and the base point 8. As on the curve of Ed25519, there are points outside the
    subgroup of the base point. */
module ResidueCurve {
  import opened Words
  import opened Bytes
  import opened Groups
  import opened Options
  import opened Radix
  import opened Ed25519
  import opened BatchVerify
  import BosCoster
  import MultiScalar
  import ModM
  import ScalarMult
  import Sha512

  const N: int := 8 * ModM.M

  type Residue = x: int | 0 <= x < N

  const BASE: Residue := 8

  function Add(a: Residue, b: Residue): Residue {
    if a + b < N then a + b else a + b - N
  }

  function Neg(a: Residue): Residue {
    if a == 0 then 0 else N - a
  }

  const RESIDUES: Group<Residue> := Group(0, Add, Neg)

  lemma ResiduesAbelian()
    ensures Abelian(RESIDUES)
  {
  }

  lemma {:induction false} TimesResidue(n: nat, x: Residue)
    ensures Groups.Times(RESIDUES, n, x) == n * x % N
  {
    if n > 0 {
      TimesResidue(n - 1, x);
      NextResidue((n - 1) * x, x);
      MulDist(x, n - 1, 1);
    }
  }

  lemma NextResidue(n: nat, x: Residue)
    ensures Add(n % N, x) == (n + x) % N
  {
    var q, r := n / N, n % N;
    if r + x < N {
      ModUnique(n + x, r + x, q, N);
    } else {
      ModUnique(n + x, r + x - N, q + 1, N);
    }
  }

  lemma BaseHasOrder()
    ensures HasOrder(RESIDUES, ModM.M, BASE)
  {
    forall n: int
      ensures ZeroAt(RESIDUES, ModM.M, BASE, n)
    {
      var k := if n < 0 then -n else n;
      TimesResidue(k, BASE);
      EightTimes(k);
      if n < 0 {
        NegativeMultiple(k, ModM.M);
      }
    }
  }

  lemma EightTimes(n: nat)
    ensures n * 8 % N == 8 * (n % ModM.M)
  {
    ModUnique(n * 8, 8 * (n % ModM.M), n / ModM.M, N);
  }

  lemma NegativeMultiple(n: int, m: int)
    requires m > 0
    ensures n % m == 0 <==> -n % m == 0
  {
    if n % m == 0 {
      ModUnique(-n, 0, -(n / m), m);
    } else {
      ModUnique(-n, m - n % m, -(n / m) - 1, m);
    }
  }

  /** n as k bytes, least significant first. */
  function Le(n: nat, k: nat): (s: seq<u8>)
    ensures |s| == k
  {
    if k == 0 then [] else [(n % 0x100) as u8] + Le(n / 0x100, k - 1)
  }

  lemma {:induction false} LeRoundTrip(n: nat, k: nat)
    requires n < Pow(0x100, k)
    ensures LeVal(Le(n, k)) == n
  {
    if k > 0 {
      LeRoundTrip(n / 0x100, k - 1);
      assert Le(n, k)[1..] == Le(n / 0x100, k - 1);
    }
  }

  lemma Pow32(n: nat)
    requires n == 32
    ensures Pow(0x100, n) == P256
  {
    var m := 8;
    assert Pow(0x100, 8) == P64;
    PowAdd(0x100, m, m);
    PowAdd(0x100, m + m, m + m);
  }

  function Pack(x: Residue): Bytes32 {
    Le(x, 32)
  }

  ghost function UnpackNegative(s: seq<u8>): Option<Residue> {
    if LeVal(s) < N then Some(Neg(LeVal(s))) else None
  }

  lemma PackUndone(x: Residue)
    ensures UnpackNegative(Pack(x)) == Some(Neg(x))
  {
    var n := 32;
    Pow32(n);
    LeRoundTrip(x, n);
  }

  // Any compression function will do.
  function Keep(h: Sha512.Chain, block: seq<u8>): Sha512.Chain {
    h
  }

  ghost function Residues(hash: seq<u8> -> Bytes64): Curve<Residue> {
    Curve(RESIDUES, BASE, Pack, UnpackNegative,
      seq(256, i requires 0 <= i < 256 => Groups.Mul(RESIDUES, (i % 8 + 1) * Pow(256, i / 8), BASE)),
      seq(32, i requires 0 <= i < 32 => Groups.Mul(RESIDUES, 2 * i + 1, BASE)), hash)
  }

  lemma ResiduesSound(hash: seq<u8> -> Bytes64)
    ensures Sound(Residues(hash))
  {
    var c := Residues(hash);
    ResiduesAbelian();
    BaseHasOrder();
    forall p: Residue
      ensures c.unpackNegative(c.pack(p)) == Some(c.g.neg(p))
    {
      PackUndone(p);
    }
    BaseTable(c.niels);
  }

  /** The assumptions can be met. */
  lemma AssumptionsMet()
    ensures var c := Residues(s => Sha512.Hash(Keep, s)); Sound(c) && Hashes(c, Keep)
  {
    ResiduesSound(s => Sha512.Hash(Keep, s));
  }

  lemma BaseTable(table: seq<Residue>)
    requires |table| == 256
    requires forall i :: 0 <= i < 256 ==> table[i] == Groups.Mul(RESIDUES, (i % 8 + 1) * Pow(256, i / 8), BASE)
    ensures ScalarMult.BaseMultiples(RESIDUES, table, BASE)
  {
    forall pos, k | 0 <= pos < 32 && 0 <= k < 8
      ensures ScalarMult.BaseEntry(RESIDUES, table, BASE, pos, k)
    {
      ModUnique(8 * pos + k, k, pos, 8);
      assert table[8 * pos + k] == Groups.Mul(RESIDUES, ((8 * pos + k) % 8 + 1) * Pow(256, (8 * pos + k) / 8), BASE);
    }
  }

  /** The bytes are those of a chaining value. */
  lemma {:induction false} BeUndone(s: seq<u8>)
    ensures Sha512.Be(Sha512.BeVal(s), |s|) == s && Sha512.BeVal(s) < Pow(0x100, |s|)
  {
    if s != [] {
      var t := s[..|s| - 1];
      BeUndone(t);
      ModUnique(Sha512.BeVal(s), s[|s| - 1] as int, Sha512.BeVal(t), 0x100);
      assert s == t + [s[|s| - 1]];
    }
  }

  lemma WordBound(s: seq<u8>)
    requires |s| == 8
    ensures Sha512.BeVal(s) < P64
  {
    BeUndone(s);
    assert Pow(0x100, 8) == P64;
  }

  /** The first n words of a string. */
  function WordsOf(d: seq<u8>, n: nat): (w: seq<u64>)
    requires 8 * n <= |d|
    ensures |w| == n
  {
    if n == 0 then []
    else
      WordBound(d[8 * n - 8..8 * n]);
      WordsOf(d, n - 1) + [Sha512.BeVal(d[8 * n - 8..8 * n]) as u64]
  }

  lemma {:induction false} WordsUndone(d: seq<u8>, n: nat)
    requires 8 * n <= |d|
    ensures Sha512.BeWords(WordsOf(d, n)) == d[..8 * n]
  {
    if n > 0 {
      WordsUndone(d, n - 1);
      WordBound(d[8 * n - 8..8 * n]);
      LastWord(WordsOf(d, n - 1), WordsOf(d, n), d[..8 * n - 8], d[8 * n - 8..8 * n]);
      assert d[..8 * n] == d[..8 * n - 8] + d[8 * n - 8..8 * n];
    }
  }

  lemma LastWord(v: seq<u64>, w: seq<u64>, head: seq<u8>, tail: seq<u8>)
    requires |tail| == 8 && Sha512.BeVal(tail) < P64 && w == v + [Sha512.BeVal(tail) as u64]
             && Sha512.BeWords(v) == head
    ensures Sha512.BeWords(w) == head + tail
  {
    BeUndone(tail);
    assert w[..|w| - 1] == v;
  }

  function ChainOf(d: seq<u8>): Sha512.Chain
    requires |d| == 64
  {
    var w := WordsOf(d, 8);
    Sha512.Chain(w[0], w[1], w[2], w[3], w[4], w[5], w[6], w[7])
  }

  lemma DigestUndone(d: seq<u8>)
    requires |d| == 64
    ensures Sha512.Digest(ChainOf(d)) == d
  {
    var w, h := WordsOf(d, 8), ChainOf(d);
    WordsUndone(d, 8);
    assert w == [h.h0, h.h1, h.h2, h.h3, h.h4, h.h5, h.h6, h.h7];
    assert d[..64] == d;
  }

  // A compression function whose value is always that of m - 1.
  function Fixed(h: Sha512.Chain, block: seq<u8>): Sha512.Chain {
    ChainOf(Le(ModM.M - 1, 64))
  }

  lemma {:induction false} FoldFixed(h: Sha512.Chain, s: seq<u8>)
    requires |s| >= 128
    ensures Sha512.Fold(Fixed, h, s) == ChainOf(Le(ModM.M - 1, 64))
    decreases |s|
  {
    if |s| >= 256 {
      FoldFixed(Fixed(h, s[..128]), s[128..]);
    }
  }

  /** Every hash value is m - 1. */
  ghost predicate Constant(hash: seq<u8> -> Bytes64) {
    forall s :: ValueAt(hash, s)
  }

  ghost predicate ValueAt(hash: seq<u8> -> Bytes64, s: seq<u8>) {
    LeVal(hash(s)) == ModM.M - 1
  }

  lemma FixedConstant()
    ensures Constant(s => Sha512.Hash(Fixed, s))
  {
    var hash := x => Sha512.Hash(Fixed, x);
    forall s
      ensures ValueAt(hash, s)
    {
      HashFixed(s, 64);
      FixedBytes(32);
    }
  }

  lemma HashFixed(s: seq<u8>, k: nat)
    requires k == 64
    ensures Sha512.Hash(Fixed, s) == Le(ModM.M - 1, k)
  {
    FoldFixed(Sha512.INIT, s + Sha512.Padding(|s|));
    DigestUndone(Le(ModM.M - 1, k));
  }

  lemma FixedBytes(n: nat)
    requires n == 32
    ensures LeVal(Le(ModM.M - 1, 2 * n)) == ModM.M - 1
  {
    Pow32(n);
    PowAdd(0x100, n, n);
    LeRoundTrip(ModM.M - 1, n + n);
  }

  /** A signature with S = 0 under a key A with -A = 1. */
  function Outside(): Item {
    Item([], Pack(N - 1), Pack(ModM.M - 1) + Le(0, 32))
  }

  lemma {:induction false} ZeroBytes(k: nat)
    ensures LeVal(Le(0, k)) == 0 && forall j :: 0 <= j < k ==> Le(0, k)[j] == 0
  {
    if k > 0 {
      ZeroBytes(k - 1);
      assert Le(0, k)[1..] == Le(0, k - 1);
    }
  }

  lemma Halves(i: Item, n: nat)
    requires i == Outside() && n == 32
    ensures i.sig[..32] == Pack(ModM.M - 1) && LeVal(i.sig[32..]) == 0 && i.sig[63] == 0
  {
    var s := Le(0, n);
    ZeroBytes(n);
    assert i.sig[32..] == s && i.sig[63] == s[31];
  }

  lemma Recomputed(hash: seq<u8> -> Bytes64, m: nat)
    requires m == ModM.M
    ensures var c := Residues(hash); c.g.add(Groups.Mul(c.g, m - 1, 1), Mult(c, 0)) == m - 1
  {
    TimesResidue(m - 1, 1);
    ModUnique(m - 1, m - 1, 0, N);
  }

  lemma Opens(c: Curve<Residue>, i: Item, na: Residue, k: nat)
    requires i.sig[63] < 32 && c.unpackNegative(i.pk) == Some(na) && H(c, i) == k && S(i) == 0
    requires i.sig[..32] == c.pack(c.g.add(Groups.Mul(c.g, k, na), Mult(c, 0)))
    ensures Accepted(c, i)
  {
  }

  lemma OutsideAccepted(hash: seq<u8> -> Bytes64, i: Item, m: nat)
    requires Constant(hash) && i == Outside() && m == ModM.M
    ensures var c := Residues(hash);
            && Accepted(c, i) && H(c, i) == m - 1 && S(i) == 0
            && c.unpackNegative(i.pk) == Some(1) && c.unpackNegative(i.sig[..32]) == Some(Neg(m - 1))
  {
    var c := Residues(hash);
    Halves(i, 32);
    PackUndone(N - 1);
    PackUndone(m - 1);
    assert H(c, i) == m - 1 by {
      assert ValueAt(hash, i.sig[..32] + i.pk + i.m);
      ModUnique(m - 1, m - 1, 0, m);
    }
    Recomputed(hash, m);
    Opens(c, i, 1, m - 1);
  }

  function OutsideBatch(): (items: seq<Item>)
    ensures |items| == 4
  {
    [Outside(), Outside(), Outside(), Outside()]
  }

  /** Signatures that sign_open accepts need not add to the neutral point: with a key outside the subgroup of the
      base point, and 2, 1, 1 and 1 for the random numbers, a reduction modulo the group order loses the point [m]1. */
  lemma AcceptedButLost(hash: seq<u8> -> Bytes64, items: seq<Item>, rs: seq<nat>, na: seq<Residue>)
    requires Constant(hash) && items == OutsideBatch() && rs == [2, 1, 1, 1] && na == [1, 1, 1, 1]
    ensures var c := Residues(hash);
            && Sound(c) && (forall i :: 0 <= i < 4 ==> Accepted(c, items[i]))
            && Lost(c.g, Hs(c, items), rs, na) != c.g.zero
  {
    ResiduesSound(hash);
    OutsideNumbers(hash, items, ModM.M);
    LostExcess(Hs(Residues(hash), items), rs, na, ModM.M);
  }

  lemma LostExcess(hs: seq<nat>, rs: seq<nat>, na: seq<Residue>, m: nat)
    requires m == ModM.M && hs == [m - 1, m - 1, m - 1, m - 1] && rs == [2, 1, 1, 1] && na == [1, 1, 1, 1]
    ensures Lost(RESIDUES, hs, rs, na) == m
  {
    OutsideExcess(hs, rs, m);
    LostPoint(Excess(hs, rs), na);
  }

  lemma OutsideNumbers(hash: seq<u8> -> Bytes64, items: seq<Item>, m: nat)
    requires Constant(hash) && items == OutsideBatch() && m == ModM.M
    ensures Hs(Residues(hash), items) == [m - 1, m - 1, m - 1, m - 1] && Ss(items) == [0, 0, 0, 0]
    ensures forall i :: 0 <= i < 4 ==> Accepted(Residues(hash), items[i])
  {
    OutsideAccepted(hash, Outside(), m);
    FourNumbers(Residues(hash), items, Outside(), m);
  }

  lemma FourNumbers(c: Curve<Residue>, items: seq<Item>, i: Item, m: nat)
    requires items == [i, i, i, i] && m > 0 && H(c, i) == m - 1 && S(i) == 0 && Accepted(c, i)
    ensures Hs(c, items) == [m - 1, m - 1, m - 1, m - 1] && Ss(items) == [0, 0, 0, 0]
    ensures forall j :: 0 <= j < 4 ==> Accepted(c, items[j])
  {
    assert items[0] == items[1] == items[2] == items[3] == i;
  }

  lemma OutsideExcess(hs: seq<nat>, rs: seq<nat>, m: nat)
    requires m == ModM.M && hs == [m - 1, m - 1, m - 1, m - 1] && rs == [2, 1, 1, 1]
    ensures Excess(hs, rs) == [m, 0, 0, 0] && Reduced(hs, rs) == [m - 2, m - 1, m - 1, m - 1]
  {
    LostMultiples(m);
  }

  lemma LostMultiples(m: nat)
    requires m == ModM.M
    ensures 2 * (m - 1) / m * m == m && 1 * (m - 1) / m * m == 0
    ensures 2 * (m - 1) % m == m - 2 && 1 * (m - 1) % m == m - 1
  {
    ModUnique(2 * (m - 1), m - 2, 1, m);
    ModUnique(m - 1, m - 1, 0, m);
  }

  lemma LostPoint(xs: seq<nat>, na: seq<Residue>)
    requires |xs| == |na| == 4 && xs[0] == ModM.M && xs[1] == xs[2] == xs[3] == 0 && na[0] == 1
    ensures BosCoster.Sum(RESIDUES, xs, na, 4) == ModM.M
  {
    ResiduesAbelian();
    BosCoster.SumSingle(RESIDUES, xs, na, 0, 4);
    TimesResidue(ModM.M, 1);
    ModUnique(ModM.M, ModM.M, 0, N);
  }

  /** The scalars of that batch. */
  lemma OutsideScalars(hash: seq<u8> -> Bytes64, items: seq<Item>, rs: seq<nat>, m: nat)
    requires Constant(hash) && items == OutsideBatch() && rs == [2, 1, 1, 1] && m == ModM.M
    ensures ScalarsOf(Residues(hash), items, rs) == [0, m - 2, m - 1, m - 1, m - 1, 2, 1, 1, 1]
  {
    var c := Residues(hash);
    OutsideNumbers(hash, items, m);
    OutsideExcess(Hs(c, items), rs, m);
    ZeroWeighted(Ss(items), rs, 4);
    assert Weighted(Ss(items), rs, |rs|) % m == 0;
    Nine(Reduced(Hs(c, items), rs), rs, m);
  }

  lemma Nine(xs: seq<nat>, rs: seq<nat>, m: nat)
    requires m > 2 && xs == [m - 2, m - 1, m - 1, m - 1] && rs == [2, 1, 1, 1]
    ensures [0] + xs + rs == [0, m - 2, m - 1, m - 1, m - 1, 2, 1, 1, 1]
  {
  }

  lemma {:induction false} ZeroWeighted(ss: seq<nat>, rs: seq<nat>, n: nat)
    requires n <= |ss| == |rs| && forall i :: 0 <= i < |ss| ==> ss[i] == 0
    ensures Weighted(ss, rs, n) == 0
  {
    if n > 0 {
      ZeroWeighted(ss, rs, n - 1);
    }
  }

  lemma Consecutive(d: nat, a: nat)
    requires d > 1 && a % d == 0
    ensures (a + 1) % d == 1
  {
    ModUnique(a + 1, 1, a / d, d);
  }

  /** They have no common divisor, nor have the first five. */
  lemma OutsideCovered(s: seq<nat>, m: nat)
    requires m == ModM.M && s == [0, m - 2, m - 1, m - 1, m - 1, 2, 1, 1, 1]
    ensures BosCoster.FirstPart(9) == 5 && BosCoster.Reaches(s, 5) && BosCoster.IsGcd(1, s, 9)
  {
    assert s[1] != 0 && s[2] != 0;
    forall d: nat | d >= P128
      ensures !BosCoster.Common(d, s, 5)
    {
      if s[1] % d == 0 {
        Consecutive(d, s[1]);
        assert s[2] % d == 1;
      }
    }
    forall e: nat | e > 0
      ensures BosCoster.Common(e, s, 9) <==> 1 % e == 0
    {
      OneDivides(e, s);
    }
  }

  lemma OneDivides(e: nat, s: seq<nat>)
    requires e > 0 && |s| == 9 && s[6] == 1
    ensures BosCoster.Common(e, s, 9) <==> 1 % e == 0
  {
    MultiScalar.OneMod(e);
    if e == 1 {
      assert forall i :: 0 <= i < 9 ==> s[i] % 1 == 0;
    } else {
      assert s[6] % e == 1;
    }
  }

  /** The random bytes 2, 1, 1 and 1. */
  function OutsideRandom(): (random: seq<Bytes16>)
    ensures |random| == 4
  {
    [Le(2, 16), Le(1, 16), Le(1, 16), Le(1, 16)]
  }

  lemma RandomValues()
    ensures Rs(OutsideRandom()) == [2, 1, 1, 1]
  {
    ByteValue(2, 16);
    ByteValue(1, 16);
    FourValues(OutsideRandom(), Le(2, 16), Le(1, 16));
  }

  lemma FourValues(random: seq<Bytes16>, two: Bytes16, one: Bytes16)
    requires random == [two, one, one, one] && LeVal(two) == 2 && LeVal(one) == 1
    ensures Rs(random) == [2, 1, 1, 1]
  {
  }

  lemma ByteValue(b: nat, k: nat)
    requires b < 0x100 && k > 0
    ensures LeVal(Le(b, k)) == b
  {
    PowMono(0x100, 1, k);
    assert Pow(0x100, 1) == 0x100;
    LeRoundTrip(b, k);
  }

  /** On that input, with a hash that is the padded hash of a compression function, the batch fails: bit 1 of the
      result is set, although every signature is accepted and answered 1. */
  lemma AcceptedButFailed(valid: seq<int>, outcome: map<nat, bool>, ret: int)
    requires var c := Residues(s => Sha512.Hash(Fixed, s));
             Opened(c, OutsideBatch(), OutsideRandom(), valid, outcome, ret)
    ensures Sound(Residues(s => Sha512.Hash(Fixed, s))) && Hashes(Residues(s => Sha512.Hash(Fixed, s)), Fixed)
    ensures ret == 2 && valid[0] == valid[1] == valid[2] == valid[3] == 1
  {
    FixedConstant();
    RandomValues();
    BatchFails(s => Sha512.Hash(Fixed, s), OutsideBatch(), OutsideRandom(), valid, outcome, ret);
    ResiduesSound(s => Sha512.Hash(Fixed, s));
  }

  lemma BatchFails(hash: seq<u8> -> Bytes64, items: seq<Item>, random: seq<Bytes16>, valid: seq<int>,
                   outcome: map<nat, bool>, ret: int)
    requires Constant(hash) && items == OutsideBatch() && |random| == 4 && Rs(random) == [2, 1, 1, 1]
    requires Opened(Residues(hash), items, random, valid, outcome, ret)
    ensures ret == 2 && valid[0] == valid[1] == valid[2] == valid[3] == 1
  {
    AcceptedButLost(hash, items, Rs(random), [1, 1, 1, 1]);
    SingleBatch(Residues(hash), items, random, valid, outcome, ret);
    NotNeutral(hash, items, Rs(random), outcome[0]);
  }

  lemma NotNeutral(hash: seq<u8> -> Bytes64, items: seq<Item>, rs: seq<nat>, neutral: bool)
    requires Constant(hash) && items == OutsideBatch() && rs == [2, 1, 1, 1]
    requires Multiplied(Residues(hash), items, rs, neutral)
    ensures !neutral
  {
    var c, m := Residues(hash), ModM.M;
    OutsideScalars(hash, items, rs, m);
    OutsideCovered(ScalarsOf(c, items, rs), m);
    OutsideAccepted(hash, Outside(), m);
    var b :| Traced(c, items, rs, neutral, b);
    View(c, items, rs, b.na, b.nr, b.s, b.p);
    OnlyOnes(c, items, b.na, b.nr, Outside());
    AcceptedButLost(hash, items, rs, b.na);
    CoveredReached(c, items, rs, neutral, b);
    BatchPasses(c, items, rs, neutral, b);
  }

  lemma OnlyOnes(c: Curve<Residue>, items: seq<Item>, na: seq<Residue>, nr: seq<Residue>, i: Item)
    requires items == [i, i, i, i] && Unpacked(c, items, na, nr) && c.unpackNegative(i.pk) == Some(1)
    ensures na == [1, 1, 1, 1]
  {
    assert items[0] == items[1] == items[2] == items[3] == i;
  }
}
