/** The unrolled bit packing between 16 bytes and 26 five-bit symbols, and the number both sides write. */
module Packing {
  import opened Bits
  import opened PlaceValue

  const RAW_SIZE := 16
  const ENCODED_SIZE := 26
  const TWO_128: nat := 0x1_0000_0000_0000_0000_0000_0000_0000_0000

  /** The bit selections of the encoder, as arithmetic: five bytes make eight 5-bit symbols. */
  lemma {:induction false} EncodeBits(b1: u8, b2: u8, b3: u8, b4: u8, b5: u8)
    ensures Shr(And(b1, 248), 3) == b1 / 8
    ensures Or(Shl(And(b1, 7), 2), Shr(And(b2, 192), 6)) == b1 % 8 * 4 + b2 / 64
    ensures Shr(And(b2, 62), 1) == b2 / 2 % 32
    ensures Or(Shl(And(b2, 1), 4), Shr(And(b3, 240), 4)) == b2 % 2 * 16 + b3 / 16
    ensures Or(Shl(And(b3, 15), 1), Shr(And(b4, 128), 7)) == b3 % 16 * 2 + b4 / 128
    ensures Shr(And(b4, 124), 2) == b4 / 4 % 32
    ensures Or(Shl(And(b4, 3), 3), Shr(And(b5, 224), 5)) == b4 % 4 * 8 + b5 / 32
    ensures And(b5, 31) == b5 % 32
  {
    EncodeWhole(b1, b2, b4, b5);
    EncodeStraddle(b1, b2, b3, b4, b5);
  }

  lemma {:induction false} EncodeWhole(b1: u8, b2: u8, b4: u8, b5: u8)
    ensures Shr(And(b1, 248), 3) == b1 / 8
    ensures Shr(And(b2, 62), 1) == b2 / 2 % 32
    ensures Shr(And(b4, 124), 2) == b4 / 4 % 32
    ensures And(b5, 31) == b5 % 32
  {
    assert Pow(2, 5) == 32 && Pow(2, 3) == 8 && Pow(2, 1) == 2 && Pow(2, 2) == 4;
    assert Shl(31, 3) == 248 && Shl(31, 1) == 62 && Shl(31, 2) == 124;
    hide And, Shr, Shl, Pow;
    ReadField(b1, 3, 5, 8, 32, 248);
    ReadField(b2, 1, 5, 2, 32, 62);
    ReadField(b4, 2, 5, 4, 32, 124);
    AndLowMask(b5, 5);
  }

  lemma {:induction false} EncodeStraddle(b1: u8, b2: u8, b3: u8, b4: u8, b5: u8)
    ensures Or(Shl(And(b1, 7), 2), Shr(And(b2, 192), 6)) == b1 % 8 * 4 + b2 / 64
    ensures Or(Shl(And(b2, 1), 4), Shr(And(b3, 240), 4)) == b2 % 2 * 16 + b3 / 16
    ensures Or(Shl(And(b3, 15), 1), Shr(And(b4, 128), 7)) == b3 % 16 * 2 + b4 / 128
    ensures Or(Shl(And(b4, 3), 3), Shr(And(b5, 224), 5)) == b4 % 4 * 8 + b5 / 32
  {
    assert Shl(3, 6) == 192 && Shl(15, 4) == 240 && Shl(1, 7) == 128 && Shl(7, 5) == 224;
    EncodeJoin(b1, b2, 3, 2, 7, 192, 8, 4, 64);
    EncodeJoin(b2, b3, 1, 4, 1, 240, 2, 16, 16);
    EncodeJoin(b3, b4, 4, 1, 15, 128, 16, 2, 128);
    EncodeJoin(b4, b5, 2, 3, 3, 224, 4, 8, 32);
  }

  /** A symbol straddling two bytes: the low `j` bits of one, the high `k` of the next, five in all. */
  lemma {:induction false} EncodeJoin(a: u8, b: u8, j: nat, k: nat, low: nat, high: nat, p: nat, q: nat, r: nat)
    requires 0 < k < 8 && p == Pow(2, j) && q == Pow(2, k) && r == Pow(2, 8 - k)
    requires low == p - 1 && high == Shl(q - 1, 8 - k) && r * q == 256
    ensures Or(Shl(And(a, low), k), Shr(And(b, high), 8 - k)) == a % p * q + b / r
  {
    AndLowMask(a, j);
    ReadField(b, 8 - k, k, r, q, high);
    DivModRange(b, r);
    QuotientBound(b, r, q);
    DivModUnique(b / r, q, 0, b / r);
    OrDisjoint(a % p, b / r, k);
    ShlIsMul(a % p, k);
  }

  // ---------- Encoding ----------

  /** Eight symbols from five bytes. */
  function GroupSymbols(b: seq<u8>): (r: seq<nat>)
    requires |b| == 5
    ensures |r| == 8 && Below(r, 32)
  {
    [b[0] / 8, b[0] % 8 * 4 + b[1] / 64, b[1] / 2 % 32, b[1] % 2 * 16 + b[2] / 16,
     b[2] % 16 * 2 + b[3] / 128, b[3] / 4 % 32, b[3] % 4 * 8 + b[4] / 32, b[4] % 32]
  }

  /** The symbols the unrolled encoder selects: two from the first byte, then three groups. */
  function PackedSymbols(id: seq<u8>): (r: seq<nat>)
    requires |id| == RAW_SIZE
    ensures |r| == ENCODED_SIZE && Below(r, 32)
  {
    [id[0] / 32, id[0] % 32] + GroupSymbols(id[1..6]) + GroupSymbols(id[6..11]) + GroupSymbols(id[11..16])
  }

  lemma {:induction false} FiveBytes(b: seq<u8>)
    requires |b| == 5
    ensures Num(b, 256) == (((b[0] as int * 256 + b[1]) * 256 + b[2]) * 256 + b[3]) * 256 + b[4]
  {
    NumAppend([], b[0], 256);
    assert [] + [b[0]] == b[..1];
    forall i | 1 <= i < 5 ensures Num(b[..i + 1], 256) == Num(b[..i], 256) * 256 + b[i] {
      NumAppend(b[..i], b[i], 256);
      assert b[..i] + [b[i]] == b[..i + 1];
    }
    assert b[..5] == b;
  }

  lemma {:induction false} EightSymbols(d: seq<nat>)
    requires |d| == 8
    ensures Num(d, 32) ==
            ((((((d[0] * 32 + d[1]) * 32 + d[2]) * 32 + d[3]) * 32 + d[4]) * 32 + d[5]) * 32 + d[6]) * 32 + d[7]
  {
    NumAppend([], d[0], 32);
    assert [] + [d[0]] == d[..1];
    forall i | 1 <= i < 8 ensures Num(d[..i + 1], 32) == Num(d[..i], 32) * 32 + d[i] {
      NumAppend(d[..i], d[i], 32);
      assert d[..i] + [d[i]] == d[..i + 1];
    }
    assert d[..8] == d;
  }

  lemma {:induction false} GroupValue(b: seq<u8>)
    requires |b| == 5
    ensures Num(GroupSymbols(b), 32) == Num(b, 256)
  {
    FiveBytes(b);
    EightSymbols(GroupSymbols(b));
    GroupIdentity(b[0] / 8, b[0] % 8, b[1] / 64, b[1] / 2 % 32, b[1] % 2, b[2] / 16, b[2] % 16,
                  b[3] / 128, b[3] / 4 % 32, b[3] % 4, b[4] / 32, b[4] % 32);
    ByteParts(b[0], b[1], b[2], b[3], b[4]);
  }

  lemma {:induction false} ByteParts(b0: u8, b1: u8, b2: u8, b3: u8, b4: u8)
    ensures b0 == 8 * (b0 / 8) + b0 % 8
    ensures b1 == 64 * (b1 / 64) + 2 * (b1 / 2 % 32) + b1 % 2
    ensures b2 == 16 * (b2 / 16) + b2 % 16
    ensures b3 == 128 * (b3 / 128) + 4 * (b3 / 4 % 32) + b3 % 4
    ensures b4 == 32 * (b4 / 32) + b4 % 32
  {
  }

  /** Forty bits, read as five bytes and as eight symbols. */
  lemma {:induction false} GroupIdentity(h0: int, l0: int, h1: int, m1: int, l1: int, h2: int, l2: int,
                                         h3: int, m3: int, l3: int, h4: int, l4: int)
    ensures ((((8 * h0 + l0) * 256 + (64 * h1 + 2 * m1 + l1)) * 256 + (16 * h2 + l2)) * 256
             + (128 * h3 + 4 * m3 + l3)) * 256 + (32 * h4 + l4)
         == ((((((h0 * 32 + (4 * l0 + h1)) * 32 + m1) * 32 + (16 * l1 + h2)) * 32 + (2 * l2 + h3)) * 32 + m3) * 32
             + (8 * l3 + h4)) * 32 + l4
  {
  }

  /** Appending a group on both sides keeps two equal values equal: 256^5 == 32^8. */
  lemma {:induction false} GroupExtends(a: seq<nat>, d: seq<nat>, b: seq<nat>, g: seq<nat>)
    requires Num(a, 256) == Num(d, 32) && Num(b, 256) == Num(g, 32)
    requires |b| == 5 && |g| == 8
    ensures Num(a + b, 256) == Num(d + g, 32)
  {
    NumConcat(a, b, 256);
    NumConcat(d, g, 32);
    assert Pow(256, 5) == Pow(32, 8);
  }

  /** One byte above three groups, against two symbols above three groups. */
  lemma {:induction false} ThreeGroups(a: seq<nat>, a1: seq<nat>, a2: seq<nat>, a3: seq<nat>,
                                       d: seq<nat>, d1: seq<nat>, d2: seq<nat>, d3: seq<nat>)
    requires |a1| == |a2| == |a3| == 5 && |d1| == |d2| == |d3| == 8
    requires Num(a, 256) == Num(d, 32) && Num(a1, 256) == Num(d1, 32)
    requires Num(a2, 256) == Num(d2, 32) && Num(a3, 256) == Num(d3, 32)
    ensures Num(a + a1 + a2 + a3, 256) == Num(d + d1 + d2 + d3, 32)
  {
    GroupExtends(a, d, a1, d1);
    GroupExtends(a + a1, d + d1, a2, d2);
    GroupExtends(a + a1 + a2, d + d1 + d2, a3, d3);
  }

  lemma {:induction false} OneDigit(x: nat, base: nat)
    ensures Num([x], base) == x
  {
  }

  lemma {:induction false} TwoDigits(x: nat, y: nat, base: nat)
    ensures Num([x, y], base) == x * base + y
  {
    OneDigit(x, base);
    NumAppend([x], y, base);
    assert [x] + [y] == [x, y];
  }

  lemma {:induction false} PackedValue(id: seq<u8>)
    requires |id| == RAW_SIZE
    ensures Num(PackedSymbols(id), 32) == Num(id, 256)
  {
    OneDigit(id[0], 256);
    TwoDigits(id[0] / 32, id[0] % 32, 32);
    GroupValue(id[1..6]);
    GroupValue(id[6..11]);
    GroupValue(id[11..16]);
    ThreeGroups([id[0]], id[1..6], id[6..11], id[11..16], [id[0] / 32, id[0] % 32],
                GroupSymbols(id[1..6]), GroupSymbols(id[6..11]), GroupSymbols(id[11..16]));
    assert [id[0]] + id[1..6] + id[6..11] + id[11..16] == id;
  }

  lemma {:induction false} RawBound(id: seq<u8>)
    requires |id| == RAW_SIZE
    ensures Num(id, 256) < TWO_128
  {
    NumBound(id, 256);
    PowAdd(256, 8, 8);
    assert Pow(256, 8) == TWO_64;
  }

  /** The unrolled selections are the 26 base-32 digits of the 128-bit number. */
  lemma {:induction false} PackedIsBase32(id: seq<u8>)
    requires |id| == RAW_SIZE
    ensures PackedSymbols(id) == ToDigits(Num(id, 256), 32, ENCODED_SIZE)
  {
    PackedValue(id);
    DigitsOfNum(PackedSymbols(id), 32);
  }

  // ---------- Decoding ----------

  /** Five bytes from eight looked-up symbols, as the unrolled decoder writes them. */
  function UngroupBytes(d: seq<u8>): (r: seq<u8>)
    requires |d| == 8
    ensures |r| == 5
  {
    [Or8(Shl8(d[0], 3), Shr(d[1], 2)),
     Or8(Or8(Shl8(d[1], 6), Shl8(d[2], 1)), Shr(d[3], 4)),
     Or8(Shl8(d[3], 4), Shr(d[4], 1)),
     Or8(Or8(Shl8(d[4], 7), Shl8(d[5], 2)), Shr(d[6], 3)),
     Or8(Shl8(d[6], 5), d[7])]
  }

  /** The 16 bytes of the unrolled decoder, for any looked-up symbols. */
  function UnpackedBytes(d: seq<u8>): (r: seq<u8>)
    requires |d| == ENCODED_SIZE
    ensures |r| == RAW_SIZE
  {
    [Or8(Shl8(d[0], 5), d[1])] + UngroupBytes(d[2..10]) + UngroupBytes(d[10..18]) + UngroupBytes(d[18..26])
  }

  lemma {:induction false} DecodeShr(x: u8)
    ensures Shr(x, 1) == x / 2 && Shr(x, 2) == x / 4 && Shr(x, 3) == x / 8 && Shr(x, 4) == x / 16
  {
    ShrIsDiv(x, 1);
    ShrIsDiv(x, 2);
    ShrIsDiv(x, 3);
    ShrIsDiv(x, 4);
  }

  /** A byte made of three symbols: the low bits of one, all of the next, the top bits of a third. */
  lemma {:induction false} JoinThree(x: u8, j: nat, y: u8, k: nat, z: nat, p: nat, q: nat, r: nat, t: nat)
    requires p == Pow(2, k) && q == Pow(2, j) && q == 32 * p
    requires r > 0 && r * q == 256 && t == r * 32 && t * p == 256
    requires y < 32 && z < p
    ensures Shl8(y, k) == y * p && x % r * 32 + y < 256
    ensures Or8(Or8(Shl8(x, j), Shl8(y, k)), z) == (x % r * 32 + y) * p + z
  {
    JoinLow(y, k, 0, p, t);
    ModSmall(y, t);
    MulMonotone(y, 31, p);
    JoinLow(x, j, y * p, q, r);
    DivModRange(x, r);
    MulAssociative(x % r, 32, p);
    Distribute(x % r * 32, y, p);
    JoinLow(x % r * 32 + y, k, z, p, t);
    ModSmall(x % r * 32 + y, t);
  }

  lemma {:induction false} OrIsOr8(a: u8, b: u8)
    ensures Or8(a, b) == Or(a, b)
  {
  }

  lemma {:induction false} DecodeHigh(a: u8, b: u8)
    requires a < 32 && b < 32
    ensures Or8(Shl8(a, 3), Shr(b, 2)) == a * 8 + b / 4
  {
    assert Pow(2, 3) == 8;
    DecodeShr(b);
    hide Or, Shl8, Shr, Pow, Or8;
    OrIsOr8(Shl8(a, 3), Shr(b, 2));
    JoinLow(a, 3, b / 4, 8, 32);
    ModSmall(a, 32);
  }

  lemma {:induction false} DecodeMiddle(a: u8, b: u8)
    requires a < 32 && b < 32
    ensures Or8(Shl8(a, 4), Shr(b, 1)) == a % 16 * 16 + b / 2
  {
    assert Pow(2, 4) == 16;
    DecodeShr(b);
    hide Or, Shl8, Shr, Pow;
    JoinLow(a, 4, b / 2, 16, 16);
  }

  lemma {:induction false} DecodeLow(a: u8, b: u8)
    requires a < 32 && b < 32
    ensures Or8(Shl8(a, 5), b) == a % 8 * 32 + b
  {
    assert Pow(2, 5) == 32;
    hide Or, Shl8, Pow;
    JoinLow(a, 5, b, 32, 8);
  }

  lemma {:induction false} DecodeFirst(a: u8, b: u8)
    requires a < 8 && b < 32
    ensures Or8(Shl8(a, 5), b) == a * 32 + b
  {
    DecodeLow(a, b);
    hide Or8, Shl8;
  }

  lemma {:induction false} DecodeThree(a: u8, b: u8, c: u8)
    requires a < 32 && b < 32 && c < 32
    ensures Or8(Or8(Shl8(a, 6), Shl8(b, 1)), Shr(c, 4)) == a % 4 * 64 + b * 2 + c / 16
    ensures Or8(Or8(Shl8(a, 7), Shl8(b, 2)), Shr(c, 3)) == a % 2 * 128 + b * 4 + c / 8
  {
    DecodeShr(c);
    assert Pow(2, 1) == 2 && Pow(2, 6) == 64 && Pow(2, 2) == 4 && Pow(2, 7) == 128;
    hide Or8, Shl8, Shr, Pow;
    JoinThree(a, 6, b, 1, c / 16, 2, 64, 4, 128);
    JoinThree(a, 7, b, 2, c / 8, 4, 128, 2, 64);
  }

  lemma {:induction false} UngroupArithmetic(d: seq<u8>)
    requires |d| == 8 && Below(d, 32)
    ensures UngroupBytes(d) == [d[0] * 8 + d[1] / 4, d[1] % 4 * 64 + d[2] * 2 + d[3] / 16, d[3] % 16 * 16 + d[4] / 2,
                                d[4] % 2 * 128 + d[5] * 4 + d[6] / 8, d[6] % 8 * 32 + d[7]]
  {
    hide Or8, Shl8, Shr;
    DecodeHigh(d[0], d[1]);
    DecodeThree(d[1], d[2], d[3]);
    DecodeMiddle(d[3], d[4]);
    DecodeThree(d[4], d[5], d[6]);
    DecodeLow(d[6], d[7]);
  }

  lemma {:induction false} UngroupValue(d: seq<u8>)
    requires |d| == 8 && Below(d, 32)
    ensures Num(UngroupBytes(d), 256) == Num(d, 32)
  {
    UngroupArithmetic(d);
    FiveBytes(UngroupBytes(d));
    EightSymbols(d);
    GroupIdentity(d[0], d[1] / 4, d[1] % 4, d[2], d[3] / 16, d[3] % 16, d[4] / 2,
                  d[4] % 2, d[5], d[6] / 8, d[6] % 8, d[7]);
  }

  lemma {:induction false} DecodedValue(b0: nat, u1: seq<nat>, u2: seq<nat>, u3: seq<nat>, d: seq<nat>)
    requires |d| == ENCODED_SIZE && b0 == d[0] * 32 + d[1] && |u1| == |u2| == |u3| == 5
    requires Num(u1, 256) == Num(d[2..10], 32) && Num(u2, 256) == Num(d[10..18], 32)
    requires Num(u3, 256) == Num(d[18..26], 32)
    ensures Num([b0] + u1 + u2 + u3, 256) == Num(d, 32)
  {
    OneDigit(b0, 256);
    TwoDigits(d[0], d[1], 32);
    ThreeGroups([b0], u1, u2, u3, [d[0], d[1]], d[2..10], d[10..18], d[18..26]);
    assert [d[0], d[1]] + d[2..10] + d[10..18] + d[18..26] == d;
  }

  /** The unrolled decoder writes the big-endian bytes of the base-32 number, when that fits 128 bits. */
  lemma {:induction false} UnpackedValue(d: seq<u8>)
    requires |d| == ENCODED_SIZE && Below(d, 32) && d[0] < 8
    ensures Num(UnpackedBytes(d), 256) == Num(d, 32)
  {
    hide Or8, Shl8, UngroupBytes, Num;
    DecodeFirst(d[0], d[1]);
    UngroupValue(d[2..10]);
    UngroupValue(d[10..18]);
    UngroupValue(d[18..26]);
    DecodedValue(Or8(Shl8(d[0], 5), d[1]), UngroupBytes(d[2..10]), UngroupBytes(d[10..18]),
                 UngroupBytes(d[18..26]), d);
  }
}
