/** Little-endian byte strings, as read by U8TO64_LE and written by U64TO8_LE. */
module Bytes {
  import opened Words

  /** The number a byte string encodes, least significant byte first. */
  ghost function LeVal(s: seq<u8>): nat {
    if s == [] then 0 else s[0] as int + 0x100 * LeVal(s[1..])
  }

  lemma FirstByte(a: nat, x: nat, b: nat, y: nat)
    requires a < 0x100 && b < 0x100 && a + 0x100 * x == b + 0x100 * y
    ensures a == b && x == y
  {
  }

  lemma {:induction false} LeInjective(s: seq<u8>, t: seq<u8>)
    requires |s| == |t| && LeVal(s) == LeVal(t)
    ensures s == t
  {
    if s != [] {
      FirstByte(s[0] as int, LeVal(s[1..]), t[0] as int, LeVal(t[1..]));
      LeInjective(s[1..], t[1..]);
      assert s == [s[0]] + s[1..] && t == [t[0]] + t[1..];
    }
  }

  lemma {:induction false} LeZeros(s: seq<u8>)
    requires forall i :: 0 <= i < |s| ==> s[i] == 0
    ensures LeVal(s) == 0
  {
    if s != [] {
      LeZeros(s[1..]);
    }
  }

  /** Padding a byte string with zeros keeps its value. */
  lemma {:induction false} LePad(s: seq<u8>, z: seq<u8>)
    requires LeVal(z) == 0
    ensures LeVal(s + z) == LeVal(s)
  {
    if s == [] {
      assert s + z == z;
    } else {
      LePad(s[1..], z);
      assert (s + z)[1..] == s[1..] + z;
    }
  }

  // U8TO64_LE(s + i)
  function Load64(s: seq<u8>, i: nat): (w: u64)
    requires i + 8 <= |s|
  {
    s[i] as u64 + 0x100 * s[i + 1] as u64 + 0x1_0000 * s[i + 2] as u64 + 0x100_0000 * s[i + 3] as u64
    + 0x1_0000_0000 * s[i + 4] as u64 + 0x100_0000_0000 * s[i + 5] as u64
    + 0x1_0000_0000_0000 * s[i + 6] as u64 + 0x100_0000_0000_0000 * s[i + 7] as u64
  }

  lemma LoadStep(s: seq<u8>, i: nat)
    requires i < |s|
    ensures LeVal(s[i..]) == s[i] as int + 0x100 * LeVal(s[i + 1..])
  {
    assert s[i..][1..] == s[i + 1..];
  }

  /** A string of at least 8 bytes is its first word plus 2^64 times the rest. */
  lemma LoadWord(s: seq<u8>, i: nat)
    requires i + 8 <= |s|
    ensures LeVal(s[i..]) == Load64(s, i) as int + P64 * LeVal(s[i + 8..])
  {
    LoadStep(s, i); LoadStep(s, i + 1); LoadStep(s, i + 2); LoadStep(s, i + 3);
    LoadStep(s, i + 4); LoadStep(s, i + 5); LoadStep(s, i + 6); LoadStep(s, i + 7);
  }

  /** The 256-bit number in four consecutive words. */
  ghost function Load256(s: seq<u8>, i: nat): int
    requires i + 32 <= |s|
  {
    Load64(s, i) as int + P64 * Load64(s, i + 8) as int + P128 * Load64(s, i + 16) as int
    + P192 * Load64(s, i + 24) as int
  }

  lemma LoadFour(s: seq<u8>, i: nat)
    requires i + 32 <= |s|
    ensures LeVal(s[i..]) == Load256(s, i) + P256 * LeVal(s[i + 32..])
    ensures 0 <= Load256(s, i) < P256
  {
    LoadWord(s, i); LoadWord(s, i + 8); LoadWord(s, i + 16); LoadWord(s, i + 24);
    FourWords(Load64(s, i) as int, Load64(s, i + 8) as int, Load64(s, i + 16) as int, Load64(s, i + 24) as int);
  }

  lemma FourWords(a: int, b: int, c: int, d: int)
    requires 0 <= a < P64 && 0 <= b < P64 && 0 <= c < P64 && 0 <= d < P64
    ensures 0 <= a + P64 * b + P128 * c + P192 * d < P256
  {
  }

  lemma Words4(s: seq<u8>)
    requires |s| == 32
    ensures LeVal(s) == Load256(s, 0) < P256
  {
    LoadFour(s, 0);
    assert s[0..] == s;
    assert s[32..] == [];
  }

  lemma Words8(s: seq<u8>)
    requires |s| == 64
    ensures LeVal(s) == Load256(s, 0) + P256 * Load256(s, 32) < P512
  {
    LoadFour(s, 0);
    LoadFour(s, 32);
    assert s[0..] == s;
    assert s[64..] == [];
  }

  /** Fewer than 32 bytes hold a number below 2^248. */
  lemma ShortBound(s: seq<u8>)
    requires |s| <= 31
    ensures LeVal(s) < P248
  {
    var z := seq(32 - |s|, _ => 0);
    LeZeros(z);
    LePad(s, z);
    Words4(s + z);
    ShortWord(s + z);
  }

  lemma ShortWord(t: seq<u8>)
    requires |t| == 32 && t[31] == 0
    ensures Load256(t, 0) < P248
  {
    assert Load64(t, 24) < W56;
  }

  // U64TO8_LE(out + i, v)
  method Store64(out: array<u8>, i: nat, v: u64)
    requires i + 8 <= out.Length
    modifies out
    ensures Load64(out[..], i) == v
    ensures forall k :: 0 <= k < out.Length && !(i <= k < i + 8) ==> out[k] == old(out[k])
  {
    var b0, w1 := LowByte(v);
    var b1, w2 := LowByte(w1);
    var b2, w3 := LowByte(w2);
    var b3, w4 := LowByte(w3);
    var b4, w5 := LowByte(w4);
    var b5, w6 := LowByte(w5);
    var b6, w7 := LowByte(w6);
    var b7, w8 := LowByte(w7);
    out[i], out[i + 1], out[i + 2], out[i + 3] := b0, b1, b2, b3;
    out[i + 4], out[i + 5], out[i + 6], out[i + 7] := b4, b5, b6, b7;
  }

  method LowByte(v: u64) returns (b: u8, rest: u64)
    ensures v as int == b as int + 0x100 * rest as int
  {
    b, rest := (v % 0x100) as u8, v / 0x100;
  }

  /** Four words written to a buffer of 32 bytes. */
  method StoreFour(out: array<u8>, a: u64, b: u64, c: u64, d: u64)
    requires out.Length == 32
    modifies out
    ensures LeVal(out[..]) == a as int + P64 * b as int + P128 * c as int + P192 * d as int
  {
    Store64(out, 0, a);
    Store64(out, 8, b);
    Store64(out, 16, c);
    Store64(out, 24, d);
    ghost var s := out[..];
    assert Load64(s, 0) == a && Load64(s, 8) == b && Load64(s, 16) == c && Load64(s, 24) == d;
    Words4(s);
  }

  method LoadFourWords(s: seq<u8>) returns (a: u64, b: u64, c: u64, d: u64)
    requires |s| == 32
    ensures LeVal(s) == a as int + P64 * b as int + P128 * c as int + P192 * d as int
  {
    a, b, c, d := Load64(s, 0), Load64(s, 8), Load64(s, 16), Load64(s, 24);
    Words4(s);
  }
}
