/** Keys and signatures (ed25519.c), over an abstract group of curve points. */
module Ed25519 {
  import opened Words
  import opened Bytes
  import opened Groups
  import opened Options
  import opened Bits
  import ModM
  import Radix
  import ScalarMult
  import Sha512

  type Bytes32 = s: seq<u8> | |s| == 32 witness seq(32, _ => 0)
  type Bytes64 = s: seq<u8> | |s| == 64 witness seq(64, _ => 0)

  /** The group of points with its base point, encodings and constant tables, and the hash. */
  datatype Curve<!T> = Curve(g: Group<T>, base: T, pack: T -> Bytes32, unpackNegative: seq<u8> -> Option<T>,
                             niels: seq<T>, sliding: seq<T>, hash: seq<u8> -> Bytes64)

  /** A base point of order exactly m, tables that hold its multiples, and encodings from
      which the negated point can be read back. */
  ghost predicate Sound<T(!new)>(c: Curve<T>) {
    && Abelian(c.g) && HasOrder(c.g, ModM.M, c.base)
    && (forall p {:trigger c.pack(p)} :: c.unpackNegative(c.pack(p)) == Some(c.g.neg(p)))
    && ScalarMult.BaseMultiples(c.g, c.niels, c.base)
    && |c.sliding| == 32 && ScalarMult.OddMultiples(c.g, c.sliding, c.base)
  }

  ghost function Mult<T>(c: Curve<T>, n: int): T {
    Groups.Mul(c.g, n, c.base)
  }

  /** extsk[0] &= 248, extsk[31] &= 127, extsk[31] |= 64 */
  function Clamp(h: Bytes64): Bytes64 {
    h[0 := h[0] / 8 * 8][31 := h[31] % 64 + 64]
  }

  function Extend<T>(c: Curve<T>, sk: seq<u8>): Bytes64 {
    Clamp(c.hash(sk))
  }

  /** The secret scalar of section 5.1.5 of RFC 8032. */
  ghost function Secret<T>(c: Curve<T>, sk: seq<u8>): nat {
    LeVal(Extend(c, sk)[..32])
  }

  lemma TopByte(s: seq<u8>)
    requires |s| == 32
    ensures LeVal(s) == LeVal(s[31 := 0]) + P248 * s[31] as int && LeVal(s[31 := 0]) < P248
  {
    Words4(s);
    Words4(s[31 := 0]);
    ShortWord(s[31 := 0]);
  }

  /** A string of 32 bytes without its first and last. */
  lemma Ends(s: seq<u8>)
    requires |s| == 32
    ensures var low := s[0] as int + 0x100 * LeVal(s[1..31]); LeVal(s) == low + P248 * s[31] as int && low < P248
  {
    TopByte(s);
    assert s[31 := 0] == s[..31] + [0];
    LePad(s[..31], [0]);
    assert s[..31][1..] == s[1..31];
  }

  lemma HighBits(low: int, b: int, half: int)
    requires 0 <= low < P248 && 0 <= b && half == 64 * P248
    ensures (low + P248 * b) % half == low + P248 * (b % 64)
  {
    ModUnique(low + P248 * b, low + P248 * (b % 64), b / 64, half);
  }

  lemma LowThree(b: int, mid: int, top: int, e: int)
    requires e == P248 / 8
    ensures (b + 0x100 * mid + P248 * top) % 8 == b % 8
  {
    ModUnique(b + 0x100 * mid + P248 * top, b % 8, b / 8 + 32 * mid + e * top, 8);
  }

  /** Clamping keeps bits 3 to 253 of the first half, clears the three bits below and bit 255, sets bit 254, and
      leaves the second half alone. So the scalar is a multiple of the cofactor 8 with its highest bit at 254. */
  lemma ClampedScalar(h: Bytes64)
    ensures LeVal(Clamp(h)[..32]) == P255 / 2 + LeVal(h[..32]) % (P255 / 2) - LeVal(h[..32]) % 8
    ensures Clamp(h)[32..] == h[32..]
    ensures var a := LeVal(Clamp(h)[..32]); a % 8 == 0 && P255 <= 2 * a < 2 * P255
  {
    var s, t := Clamp(h)[..32], h[..32];
    Ends(s);
    Ends(t);
    assert s[1..31] == t[1..31];
    HighBits(t[0] as int + 0x100 * LeVal(t[1..31]), t[31] as int, P255 / 2);
    LowThree(t[0] as int, LeVal(t[1..31]), t[31] as int, P248 / 8);
    ClampedShape(s);
  }

  lemma ClampedShape(s: seq<u8>)
    requires |s| == 32 && s[0] % 8 == 0 && 64 <= s[31] < 128
    ensures LeVal(s) % 8 == 0 && P255 <= 2 * LeVal(s) < 2 * P255
  {
    LowBits(s, s[0] as int / 8);
    Words4(s);
    TopWord(s);
  }

  lemma LowBits(s: seq<u8>, k: int)
    requires |s| > 0 && s[0] as int == k * 8
    ensures LeVal(s) % 8 == 0
  {
    assert LeVal(s) == 8 * (k + 32 * LeVal(s[1..]));
  }

  lemma TopWord(s: seq<u8>)
    requires |s| == 32 && 64 <= s[31] < 128
    ensures P255 <= 2 * Load256(s, 0) < 2 * P255
  {
    var w := Load64(s, 24) as int;
    assert 0x4000_0000_0000_0000 <= w < 0x8000_0000_0000_0000;
    TopWordValue(Load64(s, 0) as int, Load64(s, 8) as int, Load64(s, 16) as int, w);
  }

  lemma TopWordValue(a: int, b: int, c: int, d: int)
    requires 0 <= a < P64 && 0 <= b < P64 && 0 <= c < P64 && 0x4000_0000_0000_0000 <= d < 0x8000_0000_0000_0000
    ensures P255 <= 2 * (a + P64 * b + P128 * c + P192 * d) < 2 * P255
  {
  }

  /** The public key encodes [a]B. */
  ghost function PublicKey<T>(c: Curve<T>, sk: seq<u8>): seq<u8> {
    c.pack(Mult(c, Secret(c, sk)))
  }

  /** The nonce r, the hash of the second half of the extended key and the message. */
  ghost function Nonce<T>(c: Curve<T>, sk: seq<u8>, m: seq<u8>): nat {
    LeVal(c.hash(Extend(c, sk)[32..] + m))
  }

  /** H(R, A, m) as a number. */
  ghost function Challenge<T>(c: Curve<T>, r: seq<u8>, pk: seq<u8>, m: seq<u8>): nat {
    LeVal(c.hash(r + pk + m))
  }

  ghost function Response<T>(c: Curve<T>, sk: seq<u8>, pk: seq<u8>, m: seq<u8>, r: seq<u8>): int {
    (Nonce(c, sk, m) + Challenge(c, r, pk, m) * Secret(c, sk)) % ModM.M
  }

  /** Section 5.1.6 of RFC 8032: R encodes [r]B, and S is r + H(R, A, m)a modulo the group order. */
  ghost predicate IsSignature<T>(c: Curve<T>, sk: seq<u8>, pk: seq<u8>, m: seq<u8>, sig: Bytes64) {
    && sig[..32] == c.pack(Mult(c, Nonce(c, sk, m)))
    && LeVal(sig[32..]) == Response(c, sk, pk, m, sig[..32])
  }

  lemma SecretValue<T>(c: Curve<T>, sk: seq<u8>)
    ensures var v := LeVal(c.hash(sk)[..32]); Secret(c, sk) == P255 / 2 + v % (P255 / 2) - v % 8
    ensures Extend(c, sk)[32..] == c.hash(sk)[32..]
  {
    ClampedScalar(c.hash(sk));
  }

  /** Sections 5.1.5 and 5.1.6 of RFC 8032 in terms of the hash alone: the scalar a is the first half of the hash of
      the key without its bits 0 to 2 and 255 and with bit 254, and r is the hash of the second half and the message. */
  lemma SchemeExact<T>(c: Curve<T>, sk: seq<u8>, pk: seq<u8>, m: seq<u8>, sig: Bytes64)
    ensures var h := c.hash(sk);
            var v := LeVal(h[..32]);
            var a := P255 / 2 + v % (P255 / 2) - v % 8;
            var r := LeVal(c.hash(h[32..] + m));
            var k := LeVal(c.hash(sig[..32] + pk + m));
            && PublicKey(c, sk) == c.pack(Groups.Mul(c.g, a, c.base))
            && (IsSignature(c, sk, pk, m, sig) <==>
                && sig[..32] == c.pack(Groups.Mul(c.g, r, c.base))
                && LeVal(sig[32..]) == (r + k * a) % ModM.M)
  {
    SecretValue(c, sk);
  }

  /** What sign_open checks: S below 2^253, a key that decodes, and R = [S]B - [H(R, A, m)]A. */
  ghost predicate Accepts<T>(c: Curve<T>, pk: seq<u8>, m: seq<u8>, sig: Bytes64)
  {
    && sig[63] < 32 && c.unpackNegative(pk).Some?
    && var k := Challenge(c, sig[..32], pk, m) % ModM.M;
       var s := LeVal(sig[32..]) % ModM.M;
       sig[..32] == c.pack(c.g.add(Groups.Mul(c.g, k, c.unpackNegative(pk).value), Mult(c, s)))
  }

  lemma SmallTop(s: seq<u8>)
    requires |s| == 32 && LeVal(s) < 2 * P248 * 16
    ensures s[31] < 32
  {
    Words4(s);
    var w := Load64(s, 24) as int;
    assert w >= s[31] as int * P56;
    assert LeVal(s) >= P192 * w;
  }

  lemma NegInjective<T(!new)>(g: Group<T>, p: T, q: T)
    requires Abelian(g) && g.neg(p) == g.neg(q)
    ensures p == q
  {
    Units(g, p);
    Units(g, q);
    Assoc(g, p, g.neg(p), q);
    Comm(g, p, g.zero);
  }

  lemma PackInjective<T(!new)>(c: Curve<T>, p: T, q: T)
    requires Sound(c) && c.pack(p) == c.pack(q)
    ensures p == q
  {
    assert c.unpackNegative(c.pack(p)) == Some(c.g.neg(p)) && c.unpackNegative(c.pack(q)) == Some(c.g.neg(q));
    NegInjective(c.g, p, q);
  }

  /** The point sign_open recomputes for the key [a]B. */
  lemma Recomputed<T(!new)>(c: Curve<T>, a: nat, k: nat, s: int)
    requires Sound(c)
    ensures c.g.add(Groups.Mul(c.g, k, c.g.neg(Mult(c, a))), Mult(c, s)) == Mult(c, s - k * a)
  {
    MulNeg(c.g, a, c.base);
    MulMul(c.g, k, -(a as int), c.base);
    assert k * -(a as int) == -(k * a);
    MulAdd(c.g, -(k * a), s, c.base);
  }

  lemma SameRemainder(k: int, s: int, a: int, r: int, m: int)
    requires m > 0
    ensures (s % m - (k % m) * a - r) % m == 0 <==> s % m == (r + k * a) % m
  {
    var n, t := s % m - (k % m) * a - r, s / m - k / m * a;
    Difference(s / m, s % m, k / m, k % m, a, r, m);
    assert s - (r + k * a) == n + m * t;
    ModShift(n, t, m);
    SameMod(s, r + k * a, m);
  }

  lemma Difference(q: int, x: int, p: int, y: int, a: int, r: int, m: int)
    ensures m * q + x - (r + (m * p + y) * a) == x - y * a - r + m * (q - p * a)
  {
    MulDist(a, m * p, y);
    MulAssoc(m, p, a);
    MulDist(m, q, -(p * a));
  }

  lemma DivMod(x: int, m: int)
    requires m > 0
    ensures x == x % m + m * (x / m)
  {
  }

  lemma ModShift(n: int, t: int, m: int)
    requires m > 0
    ensures (n + m * t) % m == n % m
  {
    DivMod(n, m);
    MulDist(m, n / m, t);
    ModUnique(n + m * t, n % m, n / m + t, m);
  }

  lemma SameMod(x: int, y: int, m: int)
    requires m > 0
    ensures x % m == y % m <==> (x - y) % m == 0
  {
    if x % m == y % m {
      DifferenceMod(x, y, m);
    }
    if (x - y) % m == 0 {
      DivMod(x - y, m);
      ModShift(y, (x - y) / m, m);
    }
  }

  lemma DifferenceMod(x: int, y: int, m: int)
    requires m > 0 && x % m == y % m
    ensures (x - y) % m == 0
  {
    DivMod(x, m);
    DivMod(y, m);
    MulDist(m, x / m, -(y / m));
    ModUnique(x - y, 0, x / m - y / m, m);
  }

  /** For a key made by publickey and an R made from any r, sign_open accepts exactly the S below
      2^253 that agree with r + H(R, A, m)a modulo the group order. */
  lemma OpenExact<T(!new)>(c: Curve<T>, sk: seq<u8>, m: seq<u8>, sig: Bytes64, r: int)
    requires Sound(c) && sig[..32] == c.pack(Mult(c, r))
    ensures var pk := PublicKey(c, sk);
            Accepts(c, pk, m, sig) <==>
            sig[63] < 32 && LeVal(sig[32..]) % ModM.M == (r + Challenge(c, sig[..32], pk, m) * Secret(c, sk)) % ModM.M
  {
    var pk, a := PublicKey(c, sk), Secret(c, sk);
    assert c.unpackNegative(pk) == Some(c.g.neg(Mult(c, a)));
    Matches(c, a, Challenge(c, sig[..32], pk, m), LeVal(sig[32..]), r);
  }

  lemma Matches<T(!new)>(c: Curve<T>, a: nat, k: nat, s: nat, r: int)
    requires Sound(c)
    ensures c.pack(c.g.add(Groups.Mul(c.g, k % ModM.M, c.g.neg(Mult(c, a))), Mult(c, s % ModM.M))) == c.pack(Mult(c, r))
            <==> s % ModM.M == (r + k * a) % ModM.M
  {
    var n := s % ModM.M - (k % ModM.M) * a;
    Recomputed(c, a, k % ModM.M, s % ModM.M);
    SameMultiple(c.g, ModM.M, c.base, n, r);
    SameRemainder(k, s, a, r, ModM.M);
    if c.pack(Mult(c, n)) == c.pack(Mult(c, r)) {
      PackInjective(c, Mult(c, n), Mult(c, r));
    }
  }

  /** Every signature made with a key opens under the public key of that key. */
  lemma Completeness<T(!new)>(c: Curve<T>, sk: seq<u8>, m: seq<u8>, sig: Bytes64)
    requires Sound(c) && IsSignature(c, sk, PublicKey(c, sk), m, sig)
    ensures Accepts(c, PublicKey(c, sk), m, sig)
  {
    SmallTop(sig[32..]);
    OpenExact(c, sk, m, sig, Nonce(c, sk, m));
    ModTwice(Nonce(c, sk, m) + Challenge(c, sig[..32], PublicKey(c, sk), m) * Secret(c, sk), ModM.M);
  }

  lemma ModTwice(n: int, m: int)
    requires m > 0
    ensures n % m % m == n % m && 0 <= n % m < m
  {
  }

  ghost predicate HashAt<T>(c: Curve<T>, f: Sha512.Compression, s: seq<u8>) {
    c.hash(s) == Sha512.Hash(f, s)
  }

  /** The hash of the curve is SHA-512 with compression function f. */
  ghost predicate Hashes<T>(c: Curve<T>, f: Sha512.Compression) {
    forall s :: HashAt(c, f, s)
  }

  // ed25519_hash_init, updates with a, b and d, ed25519_hash_final
  method HashThree<T>(c: Curve<T>, f: Sha512.Compression, out: array<u8>, a: seq<u8>, b: seq<u8>, d: seq<u8>)
    requires Hashes(c, f) && out.Length == 64
    modifies out
    ensures out[..] == c.hash(a + b + d)
  {
    Sha512.HashThree(f, out, a, b, d);
    assert HashAt(c, f, a + b + d);
  }

  // ed25519_extsk
  method ExtendKey<T>(c: Curve<T>, f: Sha512.Compression, extsk: array<u8>, sk: Bytes32)
    requires Hashes(c, f) && extsk.Length == 64
    modifies extsk
    ensures extsk[..] == Extend(c, sk) && extsk[32..] == c.hash(sk)[32..]
    ensures var v := LeVal(c.hash(sk)[..32]); LeVal(extsk[..32]) == P255 / 2 + v % (P255 / 2) - v % 8
  {
    assert sk + [] + [] == sk;
    HashThree(c, f, extsk, sk, [], []);
    extsk[0] := extsk[0] / 8 * 8;
    extsk[31] := extsk[31] % 64 + 64;
    SecretValue(c, sk);
    assert extsk[..][..32] == extsk[..32] && extsk[..][32..] == extsk[32..];
  }

  // ge25519_pack(out, p)
  method Pack<T>(c: Curve<T>, out: array<u8>, p: T)
    requires out.Length >= 32
    modifies out
    ensures out[..32] == c.pack(p) && out[32..] == old(out[32..])
  {
    var s := c.pack(p);
    forall i | 0 <= i < 32 {
      out[i] := s[i];
    }
  }

  // expand256_modm and ge25519_scalarmult_base_niels
  method BaseMultiple<T(!new)>(c: Curve<T>, s: array<u64>, input: seq<u8>) returns (p: T)
    requires Sound(c) && s.Length == 5 && |input| <= 64
    modifies s
    ensures ModM.Limbs(s) && s[4] < W32 && ModM.Val(s) == LeVal(input) % ModM.M
    ensures p == Mult(c, LeVal(input))
  {
    ModM.Expand256(s, input);
    TopLimb(s);
    p := ScalarMult.ScalarmultBase(c.g, c.base, c.niels, s);
    assert ZeroAt(c.g, ModM.M, c.base, ModM.M);
    MulMod(c.g, LeVal(input), ModM.M, c.base);
  }

  lemma TopLimb(s: array<u64>)
    requires ModM.Limbs(s) && ModM.Val(s) < ModM.M
    ensures s[4] < 0x8000_0000
  {
  }

  // ed25519_publickey
  method MakePublicKey<T(!new)>(c: Curve<T>, f: Sha512.Compression, sk: Bytes32, pk: array<u8>)
    requires Sound(c) && Hashes(c, f) && pk.Length == 32
    modifies pk
    ensures pk[..] == PublicKey(c, sk)
  {
    var extsk, a := new u8[64], new u64[5];
    ExtendKey(c, f, extsk, sk);
    var p := BaseMultiple(c, a, extsk[..32]);
    Pack(c, pk, p);
    assert pk[..32] == pk[..];
  }

  // S = H(R,A,m) a + r
  method Combine(s: array<u64>, a: array<u64>, r: array<u64>, hram: seq<u8>, secret: seq<u8>, ghost nonce: int,
                 ghost challenge: int, ghost key: int, ghost response: int)
    requires s.Length == 5 && a.Length == 5 && s != a && s != r && a != r && |hram| == 64 && |secret| == 32
    requires ModM.Limbs(r) && r[4] < W32 && ModM.Val(r) == nonce % ModM.M
    requires challenge == LeVal(hram) && key == LeVal(secret) && response == (nonce + challenge * key) % ModM.M
    modifies s, a
    ensures ModM.Limbs(s) && s[4] < W32 && ModM.Val(s) == response
  {
    ModM.Expand256(s, hram);
    ModM.Expand256(a, secret);
    ModM.Mul256(s, s, a);
    ModM.Add256(s, s, r);
    CombinedValue(challenge, key, nonce, ModM.M);
  }

  lemma CombinedValue(k: int, a: int, r: int, m: int)
    requires m > 0
    ensures ((k % m) * (a % m) % m + r % m) % m == (r + k * a) % m
  {
    ProductMod(k, a, m);
    SumMod(k * a, r, m);
  }

  lemma SameResidue(x: int, n: int, t: int, m: int)
    requires m > 0 && x == n + m * t
    ensures n % m == x % m
  {
    ModShift(n, t, m);
  }

  lemma SumMod(x: int, y: int, m: int)
    requires m > 0
    ensures (x % m + y % m) % m == (y + x) % m
  {
    var p, a, q, b := x / m, x % m, y / m, y % m;
    DivMod(x, m);
    DivMod(y, m);
    MulDist(m, p, q);
    SameResidue(y + x, a + b, p + q, m);
  }

  lemma ProductMod(k: int, a: int, m: int)
    requires m > 0
    ensures (k % m) * (a % m) % m == k * a % m
  {
    var p, y, q, x := k / m, k % m, a / m, a % m;
    DivMod(k, m);
    DivMod(a, m);
    ProductSplit(p, y, q, x, m);
    SameResidue(k * a, y * x, q * k + p * x, m);
  }

  lemma ProductSplit(p: int, y: int, q: int, x: int, m: int)
    ensures (y + m * p) * (x + m * q) == y * x + m * (q * (y + m * p) + p * x)
  {
    var k := y + m * p;
    MulDist(k, m * q, x);
    MulAssoc(k, m, q);
    MulAssoc(m, q, k);
    MulDist(x, m * p, y);
    MulAssoc(m, p, x);
    MulDist(m, q * k, p * x);
    assert k * (m * q) == m * (q * k);
  }

  method CopyAt(out: array<u8>, at: nat, s: seq<u8>)
    requires at + |s| <= out.Length
    modifies out
    ensures out[at..at + |s|] == s && out[..at] == old(out[..at])
  {
    forall i | 0 <= i < |s| {
      out[at + i] := s[i];
    }
  }

  // R = rB, with r the hash of the second half of the extended key and the message
  method Commit<T(!new)>(c: Curve<T>, f: Sha512.Compression, r: array<u64>, sig: array<u8>, ext: Bytes64, m: seq<u8>,
                         ghost sk: Bytes32)
    requires Sound(c) && Hashes(c, f) && r.Length == 5 && sig.Length == 64 && ext == Extend(c, sk)
    modifies r, sig
    ensures ModM.Limbs(r) && r[4] < W32 && ModM.Val(r) == Nonce(c, sk, m) % ModM.M
    ensures sig[..32] == c.pack(Mult(c, Nonce(c, sk, m)))
  {
    var hashr := new u8[64];
    HashThree(c, f, hashr, ext[32..], m, []);
    assert ext[32..] + m + [] == ext[32..] + m;
    var p := BaseMultiple(c, r, hashr[..]);
    Pack(c, sig, p);
  }

  // S = r + H(R,A,m)a
  method Respond<T>(c: Curve<T>, f: Sha512.Compression, out: array<u8>, r: array<u64>, commitment: Bytes32,
                    secret: Bytes32, pk: Bytes32, m: seq<u8>, ghost sk: Bytes32)
    requires Hashes(c, f) && out.Length == 32 && secret == Extend(c, sk)[..32]
    requires ModM.Limbs(r) && r[4] < W32 && ModM.Val(r) == Nonce(c, sk, m) % ModM.M
    modifies out
    ensures LeVal(out[..]) == Response(c, sk, pk, m, commitment)
  {
    var hram := HashChallenge(c, f, commitment, pk, m);
    var s, a := new u64[5], new u64[5];
    Combine(s, a, r, hram, secret, Nonce(c, sk, m), Challenge(c, commitment, pk, m), Secret(c, sk),
      Response(c, sk, pk, m, commitment));
    ModM.Contract256(out, s);
  }

  // H(R,A,m)
  method HashChallenge<T>(c: Curve<T>, f: Sha512.Compression, commitment: seq<u8>, pk: seq<u8>, m: seq<u8>)
    returns (hram: Bytes64)
    requires Hashes(c, f)
    ensures LeVal(hram) == Challenge(c, commitment, pk, m)
  {
    var out := new u8[64];
    HashThree(c, f, out, commitment, pk, m);
    hram := out[..];
  }

  lemma Assembled<T>(c: Curve<T>, sk: Bytes32, pk: Bytes32, m: seq<u8>, r: Bytes32, s: Bytes32)
    requires r == c.pack(Mult(c, Nonce(c, sk, m))) && LeVal(s) == Response(c, sk, pk, m, r)
    ensures IsSignature(c, sk, pk, m, r + s)
  {
    assert (r + s)[..32] == r && (r + s)[32..] == s;
  }

  // ed25519_sign
  method Sign<T(!new)>(c: Curve<T>, f: Sha512.Compression, m: seq<u8>, sk: Bytes32, pk: Bytes32, sig: array<u8>)
    requires Sound(c) && Hashes(c, f) && sig.Length == 64
    modifies sig
    ensures IsSignature(c, sk, pk, m, sig[..])
  {
    var extsk, low, r := new u8[64], new u8[32], new u64[5];
    ExtendKey(c, f, extsk, sk);
    Commit(c, f, r, sig, extsk[..], m, sk);
    Respond(c, f, low, r, sig[..32], extsk[..][..32], pk, m, sk);
    Assembled(c, sk, pk, m, sig[..32], low[..]);
    CopyAt(sig, 32, low[..]);
    assert sig[..] == sig[..32] + sig[32..64];
  }

  // ed25519_verify: the bits in which the strings differ are gathered, and 1 & ((d - 1) >> 8) is 1 for none
  method Verify(x: seq<u8>, y: seq<u8>) returns (same: int)
    requires |x| == |y|
    ensures same == if x == y then 1 else 0
  {
    var differentBits: u64 := 0;
    for i := 0 to |x|
      invariant differentBits < 0x100 && (differentBits == 0 <==> x[..i] == y[..i])
    {
      assert x[..i + 1] == x[..i] + [x[i]] && y[..i + 1] == y[..i] + [y[i]];
      assert x[..i + 1] == y[..i + 1] ==> x[..i] == x[..i + 1][..i] == y[..i + 1][..i] == y[..i];
      differentBits := Gather(differentBits, x[i], y[i]);
    }
    assert x[..|x|] == x && y[..|y|] == y;
    AndOne(W64(differentBits as int - 1) as int / 0x100);
    same := And(1, W64(differentBits as int - 1) as int / 0x100);
  }

  // differentbits |= x ^ y
  method Gather(bits: u64, x: u8, y: u8) returns (bits': u64)
    requires bits < 0x100
    ensures bits' < 0x100 && (bits' == 0 <==> bits == 0 && x == y)
  {
    ghost var n := 8;
    assert Radix.Pow(2, 8) == 0x100;
    XorBound(x as int, y as int, n);
    XorSame(x as int, y as int);
    OrBound(bits as int, Xor(x as int, y as int), n);
    OrNone(bits as int, Xor(x as int, y as int));
    bits' := Or(bits as int, Xor(x as int, y as int)) as u64;
  }

  // ed25519_sign_open: 0 for a signature that is accepted, otherwise -1
  method SignOpen<T(!new)>(c: Curve<T>, f: Sha512.Compression, m: seq<u8>, pk: Bytes32, sig: Bytes64) returns (r: int)
    requires Sound(c) && Hashes(c, f)
    ensures r == if Accepts(c, pk, m, sig) then 0 else -1
  {
    var a := c.unpackNegative(pk);
    if sig[63] / 32 != 0 || a.None? {
      return -1;
    }
    var hash := HashChallenge(c, f, sig[..32], pk, m);
    var checkR, hram, s := new u8[32], new u64[5], new u64[5];
    ModM.Expand256(hram, hash);
    ModM.Expand256(s, sig[32..]);
    TopLimb(hram);
    TopLimb(s);
    var p := ScalarMult.DoubleScalarmult(c.g, a.value, hram, s, c.base, c.sliding);
    Pack(c, checkR, p);
    var same := Verify(sig[..32], checkR[..]);
    assert checkR[..32] == checkR[..];
    r := if same != 0 then 0 else -1;
  }
}
