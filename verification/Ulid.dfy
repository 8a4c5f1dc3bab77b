/** The 16-byte identifier: a 48-bit millisecond field above an 80-bit entropy field. */
module Ulids {
  import opened Bits
  import opened Errors
  import opened PlaceValue
  import opened Packing
  import opened Base32
  import opened Marshal

  const MAX_TIME: u64 := 0xFFFF_FFFF_FFFF

  datatype Ordering = Less | Equal | Greater

  /** The entropy tail. */
  function EntropyBytes(id: seq<u8>): (e: seq<u8>)
    requires |id| == RAW_SIZE
    ensures |e| == 10
  {
    id[6..]
  }

  /** `time`: six bytes shifted into place and joined by OR. */
  function TimeOf(id: seq<u8>): nat
    requires |id| == RAW_SIZE
  {
    Or(Or(Or(Or(Or(Shl(id[0], 40), Shl(id[1], 32)), Shl(id[2], 24)), Shl(id[3], 16)), Shl(id[4], 8)), id[5])
  }

  /** `compare`: the derived order on byte arrays. */
  function Compare(a: seq<u8>, b: seq<u8>): Ordering {
    if LexLess(a, b) then Less else if a == b then Equal else Greater
  }

  class Ulid {
    const raw: array<u8>

    ghost predicate Valid()
      reads this
    {
      raw.Length == RAW_SIZE
    }

    constructor Zero()
      ensures Valid() && fresh(raw)
      ensures raw[..] == seq(RAW_SIZE, _ => 0)
    {
      raw := new u8[RAW_SIZE](_ => 0);
    }

    /** Overwrite the time field; a time wider than 48 bits is refused and changes nothing. */
    method SetTime(ms: u64) returns (r: Result<()>)
      requires Valid()
      modifies raw
      ensures ms > MAX_TIME ==> r == Err(BigTime) && raw[..] == old(raw[..])
      ensures ms <= MAX_TIME ==> r == Ok(()) && raw[..] == ToBE(ms, 6) + old(raw[6..])
    {
      if ms > MAX_TIME {
        return Err(BigTime);
      }
      hide Shr, ToBE;
      TimeBytes(ms);
      ghost var entropy := raw[6..];
      raw[0] := Shr(ms, 40) % 256;
      raw[1] := Shr(ms, 32) % 256;
      raw[2] := Shr(ms, 24) % 256;
      raw[3] := Shr(ms, 16) % 256;
      raw[4] := Shr(ms, 8) % 256;
      raw[5] := ms % 256;
      assert raw[..6] == ToBE(ms, 6) && raw[6..] == entropy;
      assert raw[..] == raw[..6] + raw[6..];
      r := Ok(());
    }

    /** Overwrite the entropy field; a slice of any other length than ten is refused. */
    method SetEntropy(entropy: seq<u8>) returns (r: Result<()>)
      requires Valid()
      modifies raw
      ensures |entropy| != 10 ==> r == Err(DataSize) && raw[..] == old(raw[..])
      ensures |entropy| == 10 ==> r == Ok(()) && raw[..] == old(raw[..6]) + entropy
    {
      if |entropy| != 10 {
        return Err(DataSize);
      }
      forall i | 0 <= i < 10 {
        raw[6 + i] := entropy[i];
      }
      assert raw[..] == raw[..6] + raw[6..];
      r := Ok(());
    }
  }

  lemma {:induction false} TimeBytes(ms: u64)
    ensures ToBE(ms, 6) == [Shr(ms, 40) % 256, Shr(ms, 32) % 256, Shr(ms, 24) % 256,
                            Shr(ms, 16) % 256, Shr(ms, 8) % 256, ms % 256]
  {
    hide Shr, ToDigits;
    DigitAt(ms, 6, 0);
    DigitAt(ms, 6, 1);
    DigitAt(ms, 6, 2);
    DigitAt(ms, 6, 3);
    DigitAt(ms, 6, 4);
    DigitAt(ms, 6, 5);
    ShrZero(ms);
  }

  /** The digit `k` places from the end is a shift and a truncation. */
  lemma {:induction false} DigitAt(v: nat, n: nat, k: nat)
    requires k < n
    ensures ToDigits(v, 256, n)[n - 1 - k] == Shr(v, 8 * k) % 256
    decreases n
  {
    if k > 0 {
      DigitAt(v / 256, n - 1, k - 1);
      ShrByte(v, 8 * (k - 1));
    }
  }

  lemma {:induction false} ShrZero(a: nat)
    ensures Shr(a, 0) == a
  {
  }

  lemma {:induction false} ShrByte(v: nat, n: nat)
    ensures Shr(v, n + 8) == Shr(v / 256, n)
  {
    assert Pow(2, 8) == 256;
    ShrIsDiv(v, 8);
    ShrTwice(v, 8, n);
  }

  lemma {:induction false} ShrTwice(v: nat, m: nat, n: nat)
    ensures Shr(v, m + n) == Shr(Shr(v, m), n)
  {
    if m > 0 {
      ShrTwice(v / 2, m - 1, n);
    }
  }

  lemma {:induction false} ShlTwice(v: nat, m: nat, n: nat)
    ensures Shl(v, m + n) == Shl(Shl(v, m), n)
  {
    if n > 0 {
      ShlTwice(v, m, n - 1);
    }
  }

  lemma {:induction false} OrShl(a: nat, b: nat, n: nat)
    ensures Or(Shl(a, n), Shl(b, n)) == Shl(Or(a, b), n)
  {
    if n > 0 {
      OrShl(a, b, n - 1);
    }
  }

  /** One more byte joined below a shifted prefix. */
  lemma {:induction false} JoinByte(h: nat, b: u8, n: nat)
    ensures Or(Shl(h, n + 8), Shl(b, n)) == Shl(h * 256 + b, n)
  {
    assert Pow(2, 8) == 256;
    ShlTwice(h, 8, n);
    OrShl(Shl(h, 8), b, n);
    OrDisjoint(h, b, 8);
    ShlIsMul(h, 8);
  }

  // ---------- Fields ----------

  function WithTime(id: seq<u8>, ms: nat): (r: seq<u8>)
    requires |id| == RAW_SIZE
    ensures |r| == RAW_SIZE
  {
    ToBE(ms, 6) + id[6..]
  }

  function WithEntropy(id: seq<u8>, e: seq<u8>): (r: seq<u8>)
    requires |id| == RAW_SIZE && |e| == 10
    ensures |r| == RAW_SIZE
  {
    id[..6] + e
  }

  lemma {:induction false} TimeIsPrefix(id: seq<u8>)
    requires |id| == RAW_SIZE
    ensures TimeOf(id) == Num(id[..6], 256) <= MAX_TIME
  {
    var n := (i: nat) requires i <= 6 => Num(id[..i], 256);
    forall i | 0 <= i < 6 ensures n(i + 1) == n(i) * 256 + id[i] {
      NumAppend(id[..i], id[i], 256);
      assert id[..i] + [id[i]] == id[..i + 1];
    }
    assert n(0) == 0;
    NumBound(id[..6], 256);
    assert Pow(256, 6) == 0x1_0000_0000_0000;
    JoinSix(id[0], id[1], id[2], id[3], id[4], id[5], n(2), n(3), n(4), n(5), n(6));
  }

  lemma {:induction false} JoinSix(b0: u8, b1: u8, b2: u8, b3: u8, b4: u8, b5: u8,
                                   n2: nat, n3: nat, n4: nat, n5: nat, n6: nat)
    requires n2 == b0 as int * 256 + b1 && n3 == n2 * 256 + b2 && n4 == n3 * 256 + b3
    requires n5 == n4 * 256 + b4 && n6 == n5 * 256 + b5
    ensures Or(Or(Or(Or(Or(Shl(b0, 40), Shl(b1, 32)), Shl(b2, 24)), Shl(b3, 16)), Shl(b4, 8)), b5) == n6
  {
    hide Or, Shl;
    JoinByte(b0, b1, 32);
    JoinByte(n2, b2, 24);
    JoinByte(n3, b3, 16);
    JoinByte(n4, b4, 8);
    JoinByte(n5, b5, 0);
    ShlZero(b5);
    ShlZero(n6);
  }

  lemma {:induction false} ShlZero(a: nat)
    ensures Shl(a, 0) == a
  {
  }

  /** The identifier as a number is its time above its entropy. */
  lemma {:induction false} FieldValue(id: seq<u8>)
    requires |id| == RAW_SIZE
    ensures Num(EntropyBytes(id), 256) < TWO_80
    ensures Num(id, 256) == TimeOf(id) * TWO_80 + Num(EntropyBytes(id), 256)
  {
    TimeIsPrefix(id);
    assert id == id[..6] + id[6..];
    NumConcat(id[..6], id[6..], 256);
    NumBound(id[6..], 256);
    assert Pow(256, 10) == TWO_80;
  }

  /** Writing a field is read back, leaves the other field alone, and undoes nothing else. */
  lemma {:induction false} FieldsAreIndependent(id: seq<u8>, ms: nat, e: seq<u8>)
    requires |id| == RAW_SIZE && ms <= MAX_TIME && |e| == 10
    ensures TimeOf(WithTime(id, ms)) == ms && EntropyBytes(WithTime(id, ms)) == EntropyBytes(id)
    ensures EntropyBytes(WithEntropy(id, e)) == e && TimeOf(WithEntropy(id, e)) == TimeOf(id)
    ensures WithEntropy(WithTime(id, ms), e) == WithTime(WithEntropy(id, e), ms) == ToBE(ms, 6) + e
    ensures WithEntropy(WithTime(id, TimeOf(id)), EntropyBytes(id)) == id
  {
    hide TimeOf;
    TimeIsPrefix(id);
    TimeIsPrefix(WithTime(id, ms));
    TimeIsPrefix(WithEntropy(id, e));
    assert WithTime(id, ms)[..6] == ToBE(ms, 6);
    assert WithEntropy(id, e)[..6] == id[..6];
    assert Pow(256, 6) == 0x1_0000_0000_0000;
    DigitsNum(ms, 256, 6);
    DigitsOfNum(id[..6], 256);
    assert WithTime(id, TimeOf(id)) == id;
  }

  /** Ten characters of text are the time alone, sixteen the entropy alone. */
  lemma {:induction false} TextFields(id: seq<u8>)
    requires |id| == RAW_SIZE
    ensures Text(id) == Characters(ToDigits(TimeOf(id), 32, 10))
                      + Characters(ToDigits(Num(EntropyBytes(id), 256), 32, 16))
  {
    hide TimeOf, Encode, ToDigits, Num;
    FieldValue(id);
    TimeIsPrefix(id);
    assert Pow(32, 10) == 0x4_0000_0000_0000;
    PowAdd(32, 8, 8);
    assert Pow(32, 8) == 0x100_0000_0000;
    DigitsSplit(TimeOf(id), Num(EntropyBytes(id), 256), 32, 10, 16);
  }

  /** The first ten characters sort as the time does, whatever the entropy. */
  lemma {:induction false} TimeTextOrder(a: seq<u8>, b: seq<u8>)
    requires |a| == |b| == RAW_SIZE
    ensures LexLess(Text(a)[..10], Text(b)[..10]) <==> TimeOf(a) < TimeOf(b)
    ensures Text(a)[..10] == Text(b)[..10] <==> TimeOf(a) == TimeOf(b)
  {
    hide TimeOf, Encode, ToDigits, Num;
    TextFields(a);
    TextFields(b);
    TimeIsPrefix(a);
    TimeIsPrefix(b);
    assert Pow(32, 10) == 0x4_0000_0000_0000;
    DigitsOrder(TimeOf(a), TimeOf(b), 32, 10);
    CharactersOrder(ToDigits(TimeOf(a), 32, 10), ToDigits(TimeOf(b), 32, 10));
  }

  lemma {:induction false} CharactersOrder(c: seq<nat>, d: seq<nat>)
    requires |c| == |d| && Below(c, 32) && Below(d, 32)
    ensures LexLess(Characters(c), Characters(d)) <==> LexLess(c, d)
    ensures Characters(c) == Characters(d) <==> c == d
  {
    forall i, j | 0 <= i < j < 32 ensures ENCODING[i] < ENCODING[j] { EncodingIncreases(i, j); }
    LexMap(c, d, Characters(c), Characters(d), ENCODING);
    SymbolsOfCharacters(c);
    SymbolsOfCharacters(d);
  }

  /** `compare` is the order of the 128-bit numbers, and of the texts. */
  lemma {:induction false} CompareIsNumeric(a: seq<u8>, b: seq<u8>)
    requires |a| == |b| == RAW_SIZE
    ensures Compare(a, b) == Compare(Text(a), Text(b))
    ensures Compare(a, b) == Less <==> Num(a, 256) < Num(b, 256)
    ensures Compare(a, b) == Equal <==> Num(a, 256) == Num(b, 256)
    ensures Compare(a, b) == Less <==> Compare(b, a) == Greater
  {
    hide Text, Num;
    TextOrder(a, b);
    TextOrder(b, a);
    if Num(a, 256) == Num(b, 256) {
      NumInjective(a, b, 256);
    }
  }
}
