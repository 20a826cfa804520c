/** The choice of an entry of the packed base table, without branches on the digit
    (ge25519_scalarmult_base_choose_niels in ed25519-donna-impl-base.h, and the conditional moves and swaps of
    curve25519-donna-64bit.h). A row of 96 bytes is read through pointers to words, as twelve of them. */
module NielsTable {
  import opened Words
  import opened Radix
  import opened Bits
  import opened Field25519
  import opened CurveLaw
  import opened Edwards
  import opened Niels

  const B32: int := 0x1_0000_0000

  // (b ^ c) - 1 wraps around exactly when b and c are equal.
  function WindowEqual(b: nat, c: nat): nat {
    (Xor(b, c) - 1) % B32 / 0x8000_0000
  }

  lemma WindowEqualExact(b: nat, c: nat)
    requires b < 0x100 && c < 0x100
    ensures WindowEqual(b, c) == if b == c then 1 else 0
  {
    var n := 8;
    assert Pow(2, 8) == 0x100;
    XorSame(b, c);
    XorBound(b, c, n);
    TopBit(Xor(b, c));
  }

  lemma TopBit(x: nat)
    requires x < 0x100
    ensures (x - 1) % B32 / 0x8000_0000 == if x == 0 then 1 else 0
  {
    ModUnique(x - 1, if x == 0 then B32 - 1 else x - 1, if x == 0 then -1 else 0, B32);
  }

  /** The sign of a digit, and its size by (b + mask) ^ mask with mask = ~(sign - 1). */
  method Magnitude(b: i8) returns (sign: u64, u: nat)
    ensures sign == (if b < 0 then 1 else 0) && u == if b < 0 then -(b as int) else b as int
  {
    sign := SignBit(b);
    var mask := B32 - 1 - (sign as int - 1) % B32;
    MagnitudeOf(b as int, mask);
    u := Xor((b as int + mask) % B32, mask);
  }

  // (unsigned char)b >> 7
  function SignBit(b: i8): (sign: u64)
    ensures sign == if b < 0 then 1 else 0
  {
    ModUnique(b as int, if b < 0 then b as int + 0x100 else b as int, if b < 0 then -1 else 0, 0x100);
    (b as int % 0x100 / 0x80) as u64
  }

  lemma MagnitudeOf(b: int, mask: nat)
    requires -0x80 <= b < 0x80 && mask == if b < 0 then 0xffff_ffff else 0
    ensures Xor((b + mask) % B32, mask) == if b < 0 then -b else b
  {
    ModUnique(b + mask, b + mask, 0, B32);
    if b < 0 {
      XorAll32(mask + b, mask);
    } else {
      XorZero(b);
    }
  }

  // flag - 1
  function AllButOne(flag: nat): (mask: u64)
    requires flag <= 1
    ensures mask == if flag == 1 then 0 else 0xffff_ffff_ffff_ffff
  {
    ModUnique(flag - 1, if flag == 1 then 0 else P64 - 1, if flag == 1 then 0 else -1, P64);
    W64(flag - 1)
  }

  /** One word of a conditional move: (out & (flag - 1)) | (in & ~(flag - 1)). */
  method MoveWord(out: u64, source: u64, flag: nat) returns (r: u64)
    requires flag <= 1
    ensures r == if flag == 1 then source else out
  {
    var nb := AllButOne(flag) as int;
    var b := P64 - 1 - nb;
    MaskMoves(out as int, source as int, nb, b);
    r := Or(And(nb, out as int), And(b, source as int)) as u64;
  }

  /** curve25519_move_conditional_bytes */
  method MoveConditional(out: array<u64>, source: seq<u64>, flag: nat)
    requires out.Length == 12 == |source| && flag <= 1
    modifies out
    ensures out[..] == if flag == 1 then source else old(out[..])
  {
    for i := 0 to 12
      invariant forall j :: 0 <= j < i ==> out[j] == if flag == 1 then source[j] else old(out[j])
      invariant forall j :: i <= j < 12 ==> out[j] == old(out[j])
    {
      out[i] := MoveWord(out[i], source[i], flag);
    }
  }

  // (uint64_t)(-(int64_t)flag)
  function Ones(flag: u64): (mask: u64)
    requires flag <= 1
    ensures mask == if flag == 1 then 0xffff_ffff_ffff_ffff else 0
  {
    ModUnique(-(flag as int), if flag == 1 then P64 - 1 else 0, if flag == 1 then -1 else 0, P64);
    W64(-(flag as int))
  }

  /** One limb of a conditional swap. */
  method SwapLimb(a: u64, b: u64, swap: u64) returns (a': u64, b': u64)
    requires swap <= 1
    ensures a' == (if swap == 1 then b else a) && b' == if swap == 1 then a else b
  {
    var mask := Ones(swap) as int;
    var x := And(mask, Xor(a as int, b as int));
    MaskSelects(a as int, b as int, mask);
    MaskSelects(b as int, a as int, mask);
    XorTwice(a as int, b as int);
    a', b' := Xor(a as int, x) as u64, Xor(b as int, x) as u64;
  }

  /** curve25519_swap_conditional */
  method SwapConditional(a: Fe, b: Fe, swap: u64) returns (a': Fe, b': Fe)
    requires swap <= 1
    ensures a' == (if swap == 1 then b else a) && b' == if swap == 1 then a else b
  {
    var x0, y0 := SwapLimb(a.l0, b.l0, swap);
    var x1, y1 := SwapLimb(a.l1, b.l1, swap);
    var x2, y2 := SwapLimb(a.l2, b.l2, swap);
    var x3, y3 := SwapLimb(a.l3, b.l3, swap);
    var x4, y4 := SwapLimb(a.l4, b.l4, swap);
    a', b' := Fe(x0, x1, x2, x3, x4), Fe(y0, y1, y2, y3, y4);
  }

  /** The 256-bit number in words i to i + 3 of a row, less its top bit. */
  ghost function Field(row: seq<u64>, i: nat): int
    requires i + 4 <= |row|
  {
    (row[i] as int + P64 * row[i + 1] as int + P128 * row[i + 2] as int + P192 * row[i + 3] as int) % P255
  }

  /** The row holds y - x, y + x and w. */
  ghost predicate Holds(row: seq<u64>, x: int, y: int, w: int) {
    |row| == 12 && Cong(Field(row, 0), y - x) && Cong(Field(row, 4), y + x) && Cong(Field(row, 8), w)
  }

  /** The entry holds y - x, y + x and w, with z = 1. */
  ghost predicate Entered(t: Entry, x: int, y: int, w: int) {
    && t.ysubx.Below(SMALL) && t.xaddy.Below(SMALL) && t.t2d.Below(SMALL) && t.z == ONE
    && Stands(t.ysubx, y - x) && Stands(t.xaddy, y + x) && Stands(t.t2d, w)
  }

  const ONE: Fe := Fe(1, 0, 0, 0, 0)

  // curve25519_expand of words i to i + 3
  method ExpandField(row: seq<u64>, i: nat, ghost u: int) returns (r: Fe)
    requires i + 4 <= |row| && Cong(Field(row, i), u)
    ensures r.Below(W51) && Stands(r, u)
  {
    var a, b, c, d, e := Regroup51(row[i], row[i + 1], row[i + 2], row[i + 3]);
    r := Fe(a, b, c, d, e);
    Drop255(row[i] as int + P64 * row[i + 1] as int + P128 * row[i + 2] as int + P192 * row[i + 3] as int, r.Num(),
      row[i + 3] as int / 0x8000_0000_0000_0000);
  }

  /** The scan of the eight rows of a position: all are read, and the one of the digit is kept. */
  method Scan(table: seq<seq<u64>>, pos: nat, u: nat) returns (packed: seq<u64>)
    requires |table| == 256 && pos < 32 && u <= 8 && forall j :: 0 <= j < 256 ==> |table[j]| == 12
    ensures packed == if u == 0 then [1, 0, 0, 0, 1, 0, 0, 0, 0, 0, 0, 0] else table[8 * pos + u - 1]
  {
    var words := new u64[12](i => if i == 0 || i == 4 then 1 else 0);
    ghost var neutral := words[..];
    for i := 0 to 8
      invariant words[..] == if 1 <= u <= i then table[8 * pos + u - 1] else neutral
    {
      WindowEqualExact(u, i + 1);
      MoveConditional(words, table[8 * pos + i], WindowEqual(u, i + 1));
    }
    packed := words[..];
    assert neutral == [1, 0, 0, 0, 1, 0, 0, 0, 0, 0, 0, 0];
  }

  lemma NeutralRow()
    ensures Holds([1, 0, 0, 0, 1, 0, 0, 0, 0, 0, 0, 0], 0, 1, 0)
  {
  }

  /** ge25519_scalarmult_base_choose_niels: the entry for digit b at a position is that of row |b|, with x and w
      negated for a negative digit, and the neutral one for digit 0. */
  method ChooseNiels(table: seq<seq<u64>>, pos: nat, b: i8, ghost x: int, ghost y: int, ghost w: int)
    returns (t: Entry)
    requires |table| == 256 && pos < 32 && -8 <= b <= 8 && forall j :: 0 <= j < 256 ==> |table[j]| == 12
    requires b != 0 ==> Holds(table[8 * pos + (if b < 0 then -(b as int) else b as int) - 1], x, y, w)
    ensures b > 0 ==> Entered(t, x, y, w)
    ensures b < 0 ==> Entered(t, -x, y, -w)
    ensures b == 0 ==> Entered(t, 0, 1, 0)
  {
    var sign, u := Magnitude(b);
    var packed := Scan(table, pos, u);
    NeutralRow();
    t := Unpack(packed, sign, if b == 0 then 0 else x, if b == 0 then 1 else y, if b == 0 then 0 else w);
  }

  method Unpack(packed: seq<u64>, sign: u64, ghost x: int, ghost y: int, ghost w: int) returns (t: Entry)
    requires Holds(packed, x, y, w) && sign <= 1
    ensures if sign == 1 then Entered(t, -x, y, -w) else Entered(t, x, y, w)
  {
    var ysubx := ExpandField(packed, 0, y - x);
    var xaddy := ExpandField(packed, 4, y + x);
    var t2d := ExpandField(packed, 8, w);
    ysubx, xaddy := SwapConditional(ysubx, xaddy, sign);
    var neg := Negate(t2d, w);
    t2d, neg := SwapConditional(t2d, neg, sign);
    t := Entry(ysubx, xaddy, ONE, t2d);
  }

  /** The first point of ge25519_scalarmult_base_niels, from a row that holds w = 2*x*y: x, y and z doubled. */
  method FirstPoint(t: Entry, ghost x: int, ghost y: int, ghost xy: int) returns (r: Ge)
    requires Entered(t, x, y, 2 * xy)
    ensures r.Below(SMALL) && r.Is(2 * x, 2 * y, 2, 2 * xy)
    ensures Extended(x, y, 1, xy) ==> Extended(2 * x, 2 * y, 2, 2 * xy)
  {
    var rx := MinusReduce(t.xaddy, t.ysubx, y + x, y - x);
    var ry := PlusReduce(t.xaddy, t.ysubx, y + x, y - x);
    assert TWO.Num() == 2;
    r := Ge(rx, ry, TWO, t.t2d);
    if Extended(x, y, 1, xy) {
      ScaledExtended(2, x, y, 1, xy);
    }
  }

  const TWO: Fe := Fe(2, 0, 0, 0, 0)

  /** The same row as an entry, after the doublings: w = 2*x*y is multiplied by d. */
  method FirstEntry(t: Entry, ghost x: int, ghost y: int, ghost xy: int) returns (r: Entry)
    requires Entered(t, x, y, 2 * xy)
    ensures r.Below(W53) && r.Of(x, y, 1, xy)
  {
    CurveConstants();
    var t2d := Product(t.t2d, ECD, 2 * xy, D());
    r := t.(t2d := t2d);
    assert 2 * xy * D() == 2 * (D() * xy);
    assert ONE.Num() == 1;
  }

  /** The accumulator and the entry of position 0 are added as any others. */
  method AddFirst(p: Ge, t: Entry, ghost x1: int, ghost y1: int, ghost z1: int, ghost t1: int,
                  ghost x: int, ghost y: int, ghost xy: int)
    returns (r: Ge, ghost x3: int, ghost y3: int, ghost z3: int, ghost t3: int)
    requires p.Below(SMALL) && p.Is(x1, y1, z1, t1) && Entered(t, x, y, 2 * xy)
    requires Extended(x1, y1, z1, t1) && Extended(x, y, 1, xy)
    ensures r.Below(CARRIED) && r.Is(x3, y3, z3, t3) && IsSum(4, x1, y1, z1, x, y, 1, x3, y3, z3, t3)
    ensures Extended(x3, y3, z3, t3)
  {
    var q := FirstEntry(t, x, y, xy);
    r, x3, y3, z3, t3 := NielsAdd2(p, q, x1, y1, z1, t1, x, y, 1, xy);
  }
}
