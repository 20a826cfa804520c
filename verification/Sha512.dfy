/** The buffered SHA-512 of ed25519-hash.h against the one-shot padded hash of FIPS 180-4, with the
    compression function as a parameter. */
module Sha512 {
  import opened Words
  import opened Radix

  /** The eight chaining words H. */
  datatype Chain = Chain(h0: u64, h1: u64, h2: u64, h3: u64, h4: u64, h5: u64, h6: u64, h7: u64)

  type Compression = (Chain, seq<u8>) -> Chain

  const INIT := Chain(0x6a09e667f3bcc908, 0xbb67ae8584caa73b, 0x3c6ef372fe94f82b, 0xa54ff53a5f1d36f1,
                      0x510e527fade682d1, 0x9b05688c2b3e6c1f, 0x1f83d9abfb41bd6b, 0x5be0cd19137e2179)

  /** The compression function run over the whole blocks of s; a shorter tail is ignored. */
  function Fold(f: Compression, h: Chain, s: seq<u8>): Chain
    decreases |s|
  {
    if |s| < 128 then h else Fold(f, f(h, s[..128]), s[128..])
  }

  lemma {:induction false} FoldConcat(f: Compression, h: Chain, s: seq<u8>, t: seq<u8>, blocks: nat)
    requires |s| == 128 * blocks
    ensures Fold(f, h, s + t) == Fold(f, Fold(f, h, s), t)
    decreases blocks
  {
    if blocks == 0 {
      assert s + t == t;
    } else {
      FoldConcat(f, f(h, s[..128]), s[128..], t, blocks - 1);
      assert (s + t)[..128] == s[..128] && (s + t)[128..] == s[128..] + t;
    }
  }

  /** n as k bytes, most significant first. */
  function Be(n: nat, k: nat): (s: seq<u8>)
    ensures |s| == k
  {
    if k == 0 then [] else Be(n / 0x100, k - 1) + [(n % 0x100) as u8]
  }

  function BeVal(s: seq<u8>): nat {
    if s == [] then 0 else 0x100 * BeVal(s[..|s| - 1]) + s[|s| - 1] as nat
  }

  lemma {:induction false} BeRoundTrip(n: nat, k: nat)
    requires n < Pow(0x100, k)
    ensures BeVal(Be(n, k)) == n
  {
    if k > 0 {
      BeRoundTrip(n / 0x100, k - 1);
      assert Be(n, k)[..k - 1] == Be(n / 0x100, k - 1);
    }
  }

  /** The low k bytes and the bytes above them. */
  lemma {:induction false} BeSplit(hi: nat, lo: nat, j: nat, k: nat)
    requires lo < Pow(0x100, k)
    ensures Be(hi * Pow(0x100, k) + lo, j + k) == Be(hi, j) + Be(lo, k)
    decreases k
  {
    if k == 0 {
      assert Be(lo, k) == [];
    } else {
      var p := Pow(0x100, k - 1);
      var n := hi * Pow(0x100, k) + lo;
      BeSplit(hi, lo / 0x100, j, k - 1);
      assert hi * (0x100 * p) == 0x100 * (hi * p);
      assert n / 0x100 == hi * p + lo / 0x100 && n % 0x100 == lo % 0x100;
      assert Be(hi, j) + (Be(lo / 0x100, k - 1) + [(lo % 0x100) as u8])
          == (Be(hi, j) + Be(lo / 0x100, k - 1)) + [(lo % 0x100) as u8];
    }
  }

  function Zeros(n: nat): (s: seq<u8>)
    ensures |s| == n && forall i :: 0 <= i < n ==> s[i] == 0
  {
    seq(n, _ => 0)
  }

  /** How many zero bytes follow the byte 0x80: the fewest that leave 16 bytes of the last block. */
  function ZeroCount(len: nat): (k: nat)
    ensures (len + 1 + k) % 128 == 112 && (len + 17 + k) % 128 == 0 && k < 128
  {
    (239 - len % 128) % 128
  }

  function Pad(zeros: nat, bits: nat, k: nat): (s: seq<u8>)
    ensures |s| == 1 + zeros + k
  {
    [0x80] + Zeros(zeros) + Be(bits, k)
  }

  /** Section 5.1.2 of FIPS 180-4, in bytes. The length field holds 128 bits. */
  function Padding(len: nat): (s: seq<u8>)
    ensures |s| == 17 + ZeroCount(len) && 17 <= |s| <= 144
  {
    Pad(ZeroCount(len), 8 * len % P128, 16)
  }

  function BeWords(w: seq<u64>): (s: seq<u8>)
    ensures |s| == 8 * |w|
  {
    if w == [] then [] else BeWords(w[..|w| - 1]) + Be(w[|w| - 1] as nat, 8)
  }

  function Digest(h: Chain): (s: seq<u8>)
    ensures |s| == 64
  {
    BeWords([h.h0, h.h1, h.h2, h.h3, h.h4, h.h5, h.h6, h.h7])
  }

  /** The hash of a whole message. */
  function Hash(f: Compression, m: seq<u8>): (s: seq<u8>)
    ensures |s| == 64
  {
    Digest(Fold(f, INIT, m + Padding(|m|)))
  }

  /** w is the first 64 bits of the fractional part of the square root of p, whose whole part is n. */
  ghost predicate IsRoot(p: nat, n: nat, w: u64) {
    var r := n * P64 + w as int;
    r * r <= p * P128 < (r + 1) * (r + 1)
  }

  /** Section 5.3.5 of FIPS 180-4: the initial words are those of the square roots of the first eight primes. */
  lemma InitialWords()
    ensures IsRoot(2, 1, INIT.h0) && IsRoot(3, 1, INIT.h1) && IsRoot(5, 2, INIT.h2) && IsRoot(7, 2, INIT.h3)
    ensures IsRoot(11, 3, INIT.h4) && IsRoot(13, 3, INIT.h5) && IsRoot(17, 4, INIT.h6) && IsRoot(19, 4, INIT.h7)
  {
  }

  lemma {:induction false} BeInjective(s: seq<u8>, t: seq<u8>)
    requires |s| == |t| && BeVal(s) == BeVal(t)
    ensures s == t
  {
    if s != [] {
      var n := |s| - 1;
      BeInjective(s[..n], t[..n]);
      assert s == s[..n] + [s[n]] && t == t[..n] + [t[n]];
    }
  }

  /** Section 5.1.2 of FIPS 180-4: p is the message, a byte 0x80, the fewest zeros that fill blocks of 128 bytes, and
      the length of the message in bits, in 16 bytes. */
  ghost predicate IsPadded(m: seq<u8>, p: seq<u8>) {
    && |p| % 128 == 0 && |m| + 17 <= |p| < |m| + 145 && p[..|m|] == m && p[|m|] == 0x80
    && (forall i :: |m| < i < |p| - 16 ==> p[i] == 0) && BeVal(p[|p| - 16..]) == 8 * |m| % P128
  }

  lemma SameLength(p: nat, q: nat, m: nat)
    requires p % 128 == 0 && q % 128 == 0 && m + 17 <= p < m + 145 && m + 17 <= q < m + 145
    ensures p == q
  {
  }

  lemma PaddedUnique(m: seq<u8>, p: seq<u8>, q: seq<u8>)
    requires IsPadded(m, p) && IsPadded(m, q)
    ensures p == q
  {
    SameLength(|p|, |q|, |m|);
    var a, b := |m| + 1, |p| - 16;
    BeInjective(p[b..], q[b..]);
    assert p == p[..|m|] + [p[|m|]] + p[a..b] + p[b..];
    assert q == q[..|m|] + [q[|m|]] + q[a..b] + q[b..];
    assert p[a..b] == q[a..b];
  }

  /** There is exactly one such p. */
  lemma PaddedExactly(m: seq<u8>, p: seq<u8>)
    ensures IsPadded(m, p) <==> p == m + Padding(|m|)
  {
    PaddingPads(m);
    if IsPadded(m, p) {
      PaddedUnique(m, p, m + Padding(|m|));
    }
  }

  lemma PaddingPads(m: seq<u8>)
    ensures IsPadded(m, m + Padding(|m|))
  {
    LengthModulo(m);
    PadParts(m, ZeroCount(|m|), 8 * |m| % P128, 16);
  }

  lemma PadParts(m: seq<u8>, zeros: nat, bits: nat, k: nat)
    ensures var p := m + Pad(zeros, bits, k);
            p[..|m|] == m && p[|m|] == 0x80 && forall i :: |m| < i < |p| - k ==> p[i] == 0
  {
    var p := m + Pad(zeros, bits, k);
    assert p == m + [0x80] + Zeros(zeros) + Be(bits, k);
  }

  lemma LengthModulo(m: seq<u8>)
    ensures var p := m + Padding(|m|); BeVal(p[|p| - 16..]) == 8 * |m| % P128
  {
    var n := 8;
    Pow16(n);
    PadLast(m, ZeroCount(|m|), 8 * |m| % P128, 2 * n);
  }

  /** The chaining words before each block, and after the last one. */
  ghost predicate IsRun(f: Compression, p: seq<u8>, c: seq<Chain>, n: nat) {
    && |p| == 128 * n && |c| == n + 1 && c[0] == INIT
    && forall i :: 0 <= i < n ==> c[i + 1] == f(c[i], p[128 * i..128 * i + 128])
  }

  lemma {:induction false} RunFold(f: Compression, p: seq<u8>, c: seq<Chain>, n: nat)
    requires IsRun(f, p, c, n)
    ensures Fold(f, INIT, p) == c[n]
  {
    if n > 0 {
      var q, k := p[..128 * (n - 1)], n - 1;
      assert forall i :: 0 <= i < k ==> q[128 * i..128 * i + 128] == p[128 * i..128 * i + 128];
      RunFold(f, q, c[..n], k);
      FoldBlock(f, INIT, q, p[128 * k..128 * k + 128], k);
      assert q + p[128 * k..128 * k + 128] == p;
    }
  }

  lemma {:induction false} RunOf(f: Compression, p: seq<u8>, n: nat) returns (c: seq<Chain>)
    requires |p| == 128 * n
    ensures IsRun(f, p, c, n)
  {
    if n == 0 {
      c := [INIT];
    } else {
      var q, k := p[..128 * (n - 1)], n - 1;
      c := RunOf(f, q, k);
      assert forall i :: 0 <= i < k ==> q[128 * i..128 * i + 128] == p[128 * i..128 * i + 128];
      c := c + [f(c[k], p[128 * k..128 * k + 128])];
    }
  }

  lemma {:induction false} WordAt(w: seq<u64>, i: nat)
    requires i < |w|
    ensures BeVal(BeWords(w)[8 * i..8 * i + 8]) == w[i] as int
  {
    var n, s := |w| - 1, BeWords(w);
    if i == n {
      Pow16(8);
      assert s[8 * i..8 * i + 8] == Be(w[n] as nat, 8);
      BeRoundTrip(w[n] as nat, 8);
    } else {
      WordAt(w[..n], i);
      assert s[8 * i..8 * i + 8] == BeWords(w[..n])[8 * i..8 * i + 8];
    }
  }

  /** The bytes of d, eight for each word of h. */
  ghost predicate Encodes(d: seq<u8>, h: Chain) {
    && |d| == 64 && BeVal(d[0..8]) == h.h0 as int && BeVal(d[8..16]) == h.h1 as int
    && BeVal(d[16..24]) == h.h2 as int && BeVal(d[24..32]) == h.h3 as int && BeVal(d[32..40]) == h.h4 as int
    && BeVal(d[40..48]) == h.h5 as int && BeVal(d[48..56]) == h.h6 as int && BeVal(d[56..64]) == h.h7 as int
  }

  lemma DigestEncodes(h: Chain)
    ensures Encodes(Digest(h), h)
  {
    var w := [h.h0, h.h1, h.h2, h.h3, h.h4, h.h5, h.h6, h.h7];
    WordAt(w, 0); WordAt(w, 1); WordAt(w, 2); WordAt(w, 3);
    WordAt(w, 4); WordAt(w, 5); WordAt(w, 6); WordAt(w, 7);
  }

  /** Section 6.4.2 of FIPS 180-4: the hash encodes the chaining words after the last block of the padded message. */
  lemma HashExactly(f: Compression, m: seq<u8>, p: seq<u8>, c: seq<Chain>, n: nat)
    requires IsPadded(m, p) && IsRun(f, p, c, n)
    ensures Encodes(Hash(f, m), c[n])
  {
    PaddedExactly(m, p);
    RunFold(f, p, c, n);
    DigestEncodes(c[n]);
  }

  // The exponent is a variable, so that the powers are not unfolded.
  lemma Pow16(n: nat)
    requires n == 8
    ensures Pow(0x100, n) == P64 && Pow(0x100, 2 * n) == P128
  {
    assert Pow(0x100, 8) == P64;
    PowAdd(0x100, n, n);
  }

  /** No two messages of fewer than 2^128 bits are padded to the same blocks. */
  lemma PaddingInjective(m: seq<u8>, n: seq<u8>)
    requires 8 * |m| < P128 && 8 * |n| < P128
    ensures m + Padding(|m|) == n + Padding(|n|) ==> m == n
  {
    LengthField(m);
    LengthField(n);
    assert m == (m + Padding(|m|))[..|m|] && n == (n + Padding(|n|))[..|n|];
  }

  lemma PadLast(m: seq<u8>, zeros: nat, bits: nat, k: nat)
    requires bits < Pow(0x100, k)
    ensures var p := m + Pad(zeros, bits, k); BeVal(p[|p| - k..]) == bits
  {
    var p := m + Pad(zeros, bits, k);
    assert p[|p| - k..] == Be(bits, k);
    BeRoundTrip(bits, k);
  }

  /** The last 16 bytes of the padded message are its length in bits. */
  lemma LengthField(m: seq<u8>)
    requires 8 * |m| < P128
    ensures var p := m + Padding(|m|); BeVal(p[|p| - 16..]) == 8 * |m|
  {
    var n := 8;
    Pow16(n);
    ModUnique(8 * |m|, 8 * |m|, 0, P128);
    PadLast(m, ZeroCount(|m|), 8 * |m|, 2 * n);
  }

  // sha512_STORE64_BE(out + i, v)
  method Store64Be(out: array<u8>, i: nat, v: u64)
    requires i + 8 <= out.Length
    modifies out
    ensures out[i..i + 8] == Be(v as nat, 8)
    ensures forall k :: 0 <= k < out.Length && !(i <= k < i + 8) ==> out[k] == old(out[k])
  {
    var w, k := v, 8;
    while k > 0
      invariant 0 <= k <= 8
      invariant Be(v as nat, 8) == Be(w as nat, k) + out[i + k..i + 8]
      invariant forall j :: 0 <= j < out.Length && !(i <= j < i + 8) ==> out[j] == old(out[j])
    {
      ghost var t, x := out[i + k..i + 8], w;
      k := k - 1;
      out[i + k], w := (w % 0x100) as u8, w / 0x100;
      assert out[i + k..i + 8] == [(x % 0x100) as u8] + t;
      assert Be(x as nat, k + 1) == Be(w as nat, k) + [(x % 0x100) as u8];
      assert Be(w as nat, k) + ([(x % 0x100) as u8] + t) == Be(w as nat, k) + [(x % 0x100) as u8] + t;
    }
  }

  // The sha512_STORE64_BE calls at the end of ed25519_hash_final.
  method StoreWords(out: array<u8>, w: seq<u64>)
    requires out.Length == 8 * |w|
    modifies out
    ensures out[..] == BeWords(w)
  {
    for i := 0 to |w|
      invariant out[..8 * i] == BeWords(w[..i])
    {
      ghost var done := out[..8 * i];
      Store64Be(out, 8 * i, w[i]);
      assert out[..8 * i] == done && out[..8 * (i + 1)] == done + out[8 * i..8 * i + 8];
      assert w[..i + 1][..i] == w[..i];
    }
    assert w[..|w|] == w;
  }

  method StoreDigest(out: array<u8>, h: Chain)
    requires out.Length == 64
    modifies out
    ensures out[..] == Digest(h)
  {
    StoreWords(out, [h.h0, h.h1, h.h2, h.h3, h.h4, h.h5, h.h6, h.h7]);
  }

  /** t0 and t1 hold the number of bits in n blocks, modulo 2^128. */
  predicate Counts(t0: u64, t1: u64, n: nat) {
    t0 % 1024 == 0 && t0 as int + P64 * t1 as int == 1024 * n % P128
  }

  lemma CountStep(t0: int, t1: int, n: nat)
    requires 0 <= t0 < P64 && 0 <= t1 < P64 && t0 % 1024 == 0 && t0 + P64 * t1 == 1024 * n % P128
    ensures t0 + 1024 < P64 ==> t0 + 1024 + P64 * t1 == 1024 * (n + 1) % P128
    ensures t0 + 1024 >= P64 ==> t0 + 1024 == P64
    ensures t0 + 1024 == P64 && t1 + 1 < P64 ==> P64 * (t1 + 1) == 1024 * (n + 1) % P128
    ensures t0 + 1024 == P64 && t1 + 1 == P64 ==> 1024 * (n + 1) % P128 == 0
  {
    var k := 1024 * n / P128;
    assert 1024 * n == P128 * k + (t0 + P64 * t1);
    if t0 + 1024 < P64 {
      ModUnique(1024 * (n + 1), t0 + 1024 + P64 * t1, k, P128);
    } else if t1 + 1 < P64 {
      ModUnique(1024 * (n + 1), P64 * (t1 + 1), k, P128);
    } else {
      ModUnique(1024 * (n + 1), 0, k + 1, P128);
    }
  }

  // S->T[0] += 1024; S->T[1] += (!S->T[0]) ? 1 : 0
  method Count(t0: u64, t1: u64, ghost n: nat) returns (t0': u64, t1': u64)
    requires Counts(t0, t1, n)
    ensures Counts(t0', t1', n + 1)
  {
    CountStep(t0 as int, t1 as int, n);
    t0' := W64(t0 as int + 1024);
    t1' := W64(t1 as int + if t0' == 0 then 1 else 0);
  }

  lemma PaddedTail(len: nat, blocks: nat, n: nat)
    requires n < 128 && len == 128 * blocks + n
    ensures ZeroCount(len) == if n <= 111 then 111 - n else 239 - n
  {
    ModUnique(len, n, blocks, 128);
  }

  lemma PaddedLater(m: seq<u8>, a: nat, b: nat)
    ensures m + ([0x80] + Zeros(a)) + Zeros(b) == m + [0x80] + Zeros(a + b)
  {
  }

  lemma BitCount(t0: nat, t1: nat, n: nat, r: nat)
    requires r < 128 && t0 < P64 && t1 < P64 && t0 - 8 * r + P64 * t1 == 1024 * n % P128
    ensures t0 + P64 * t1 == 8 * (128 * n + r) % P128
  {
    ModUnique(8 * (128 * n + r), t0 + P64 * t1, 1024 * n / P128, P128);
  }

  lemma PadWords(m: seq<u8>, zeros: nat, t0: nat, t1: nat, k: nat)
    requires k == 8 && t0 < P64
    ensures m + [0x80] + Zeros(zeros) + Be(t1, k) + Be(t0, k) == m + Pad(zeros, t0 + P64 * t1, 2 * k)
  {
    Pow16(8);
    BeSplit(t1, t0, k, k);
  }

  lemma Taken(m: seq<u8>, s: seq<u8>, at: nat)
    requires at + 128 <= |s|
    ensures m + s[..at] + s[at..at + 128] == m + s[..at + 128]
  {
  }

  lemma FoldBlock(f: Compression, h: Chain, m: seq<u8>, block: seq<u8>, blocks: nat)
    requires |m| == 128 * blocks && |block| == 128
    ensures Fold(f, h, m + block) == f(Fold(f, h, m), block)
  {
    FoldConcat(f, h, m, block, blocks);
    assert block[..128] == block;
  }

  lemma Hashed(f: Compression, m: seq<u8>, bits: nat, h: Chain)
    requires bits == 8 * |m| % P128 && h == Fold(f, INIT, m + Pad(ZeroCount(|m|), bits, 16))
    ensures Hash(f, m) == Digest(h)
  {
  }

  /** sha512_state. The buffer holds the last, incomplete block of the message. */
  class Hasher {
    const compress: Compression
    var chain: Chain
    var t0: u64
    var t1: u64
    var leftover: nat
    const buffer: array<u8>
    ghost var message: seq<u8>
    ghost var blocks: nat

    /** The chaining words and the counter stand after the whole blocks m. */
    ghost predicate Aligned(m: seq<u8>)
      reads this
    {
      |m| == 128 * blocks && chain == Fold(compress, INIT, m) && Counts(t0, t1, blocks)
    }

    ghost predicate Holds()
      reads this, buffer
    {
      && buffer.Length == 128 && leftover <= 128 && leftover <= |message|
      && Aligned(message[..|message| - leftover])
      && buffer[..leftover] == message[|message| - leftover..]
    }

    ghost predicate Valid()
      reads this, buffer
    {
      Holds() && leftover < 128
    }

    // ed25519_hash_init
    constructor (f: Compression)
      ensures Valid() && message == [] && compress == f && fresh(buffer)
    {
      compress, chain, t0, t1, leftover := f, INIT, 0, 0, 0;
      buffer := new u8[128];
      message, blocks := [], 0;
    }

    // sha512_blocks
    method Blocks(input: seq<u8>, n: nat, ghost m: seq<u8>)
      requires |input| == 128 * n && Aligned(m)
      modifies `chain, `t0, `t1, `blocks
      ensures Aligned(m + input)
    {
      assert m + input[..0] == m;
      for i := 0 to n
        invariant Aligned(m + input[..128 * i])
      {
        ghost var at := 128 * i;
        BlockStep(input[128 * i..128 * i + 128], m + input[..at]);
        Taken(m, input, at);
      }
      assert input[..128 * n] == input;
    }

    method BlockStep(block: seq<u8>, ghost m: seq<u8>)
      requires |block| == 128 && Aligned(m)
      modifies `chain, `t0, `t1, `blocks
      ensures Aligned(m + block)
    {
      FoldBlock(compress, INIT, m, block, blocks);
      chain := compress(chain, block);
      t0, t1 := Count(t0, t1, blocks);
      blocks := blocks + 1;
    }

    // memcpy and memset into the buffer
    method Fill(at: nat, s: seq<u8>)
      requires at + |s| <= buffer.Length
      modifies buffer
      ensures buffer[..] == old(buffer[..at]) + s + old(buffer[at + |s|..])
    {
      forall i | 0 <= i < |s| {
        buffer[at + i] := s[i];
      }
    }

    method Append(s: seq<u8>)
      requires Holds() && leftover + |s| <= 128
      modifies `leftover, `message, buffer
      ensures Holds() && message == old(message) + s && leftover == old(leftover) + |s|
    {
      ghost var m, tail := message[..|message| - leftover], message[|message| - leftover..];
      Fill(leftover, s);
      leftover := leftover + |s|;
      message := message + s;
      assert message[..|message| - leftover] == m && message[|message| - leftover..] == tail + s;
    }

    // sha512_blocks(S, S->buffer, 1)
    method Flush()
      requires Holds() && leftover == 128
      modifies `chain, `t0, `t1, `leftover, `blocks
      ensures Aligned(message) && Holds() && leftover == 0
    {
      Blocks(buffer[..], 1, message[..|message| - 128]);
      assert message[..|message| - 128] + buffer[..] == message;
      leftover := 0;
      assert message[..|message|] == message;
    }

    // The part of ed25519_hash_update that completes a block begun before.
    method TopUp(input: seq<u8>) returns (rest: seq<u8>, complete: bool)
      requires Valid()
      modifies this, buffer
      ensures buffer.Length == 128
      ensures if complete then Aligned(message) && message + rest == old(message) + input
              else Valid() && message == old(message) + input
    {
      var want := if 128 - leftover < |input| then 128 - leftover else |input|;
      Append(input[..want]);
      rest, complete := input[want..], leftover == 128;
      assert input == input[..want] + rest;
      if complete {
        Flush();
      }
    }

    // The part of ed25519_hash_update that starts at a block boundary.
    method Absorb(input: seq<u8>)
      requires buffer.Length == 128 && Aligned(message)
      modifies this, buffer
      ensures Valid() && message == old(message) + input
    {
      var whole := |input| - |input| % 128;
      leftover := |input| - whole;
      Blocks(input[..whole], whole / 128, message);
      Fill(0, input[whole..]);
      ghost var m := message + input[..whole];
      message := message + input;
      assert message[..|message| - leftover] == m && message[|message| - leftover..] == input[whole..];
    }

    // ed25519_hash_update
    method Update(input: seq<u8>)
      requires Valid()
      modifies this, buffer
      ensures Valid() && message == old(message) + input
    {
      if leftover > 0 {
        var rest, complete := TopUp(input);
        if complete {
          Absorb(rest);
        }
      } else {
        assert message[..|message|] == message;
        Absorb(input);
      }
    }

    method AppendWord(v: u64, k: nat)
      requires k == 8 && Holds() && leftover + k <= 128
      modifies `leftover, `message, buffer
      ensures Holds() && message == old(message) + Be(v as nat, k) && leftover == old(leftover) + k
    {
      ghost var m, tail := message[..|message| - leftover], message[|message| - leftover..];
      Store64Be(buffer, leftover, v);
      message := message + Be(v as nat, k);
      assert buffer[..leftover] == tail && buffer[..leftover + k] == tail + buffer[leftover..leftover + k];
      leftover := leftover + k;
      assert message[..|message| - leftover] == m && message[|message| - leftover..] == tail + Be(v as nat, k);
    }

    // The bytes ed25519_hash_final puts after the message, up to the length field.
    method AppendZeros()
      requires Valid()
      modifies this, buffer
      ensures Holds() && leftover == 112
      ensures message == old(message) + [0x80] + Zeros(ZeroCount(|old(message)|))
    {
      var n := leftover;
      PaddedTail(|message|, blocks, n);
      if n <= 111 {
        PaddedLater(message, 111 - n, 0);
        Append([0x80] + Zeros(111 - n));
      } else {
        PaddedLater(message, 127 - n, 112);
        Append([0x80] + Zeros(127 - n));
        Flush();
        Append(Zeros(112));
      }
    }

    // t0 and t1 of ed25519_hash_final: the sum T[0] + leftover * 8 does not wrap.
    method BitLength() returns (bits0: u64, bits1: u64)
      requires Valid()
      ensures bits0 as int + P64 * bits1 as int == 8 * |message| % P128
    {
      bits0, bits1 := t0 + leftover as u64 * 8, t1;
      BitCount(bits0 as nat, bits1 as nat, blocks, leftover);
    }

    // ed25519_hash_final
    method Final(out: array<u8>)
      requires Valid() && out.Length == 64 && out != buffer
      modifies this, buffer, out
      ensures out[..] == Hash(compress, old(message))
    {
      var bits0, bits1 := BitLength();
      ghost var m := message;
      AppendZeros();
      AppendWord(bits1, 8);
      AppendWord(bits0, 8);
      ghost var bits := bits0 as nat + P64 * bits1 as nat;
      PadWords(m, ZeroCount(|m|), bits0 as nat, bits1 as nat, 8);
      assert message == m + Pad(ZeroCount(|m|), bits, 16);
      Flush();
      Hashed(compress, m, bits, chain);
      StoreDigest(out, chain);
    }
  }

  // ed25519_hash_init, updates with a, b and d, ed25519_hash_final
  method HashThree(f: Compression, out: array<u8>, a: seq<u8>, b: seq<u8>, d: seq<u8>)
    requires out.Length == 64
    modifies out
    ensures out[..] == Hash(f, a + b + d)
  {
    var ctx := new Hasher(f);
    ctx.Update(a);
    ctx.Update(b);
    ctx.Update(d);
    NoPrefix(a, b, d);
    ctx.Final(out);
  }

  lemma NoPrefix(a: seq<u8>, b: seq<u8>, d: seq<u8>)
    ensures [] + a + b + d == a + b + d
  {
    assert [] + a == a;
  }
}
