/** The process-wide generator: xorshift with the default bound settles every increment. */
module DefaultGenerator {
  import opened Bits
  import opened PlaceValue
  import opened Entropy
  import opened Monotonic
  import opened MathRngs
  import opened RandomOutcomes

  /** The bound of the process-wide generator: 0 read as the largest 32-bit word. */
  const DEFAULT_BOUND: u64 := 0xFFFF_FFFF

  /** Its candidates are the low halves of successive xorshift states; only these are rejected. */
  predicate Extreme(x: bv64) {
    Value(x) % 0x1_0000_0000 == 0 || Value(x) % 0x1_0000_0000 == 0xFFFF_FFFF
  }

  /** The `k` states after `x` are all extreme. */
  predicate Extremes(x: bv64, k: nat)
    decreases k
  {
    k == 0 || (Extreme(Next(x)) && Extremes(Next(x), k - 1))
  }

  /** No six successive states of xorshift, other than zeros, have low halves that are all zeros or all ones. */
  lemma {:induction false} SixExtremes(x: bv64)
    requires Extremes(x, 6)
    ensures x == 0
  {
    hide Next, Extreme;
    var a := Next(x);
    var b := Next(a);
    var c := Next(b);
    var d := Next(c);
    assert Extremes(a, 5) && Extremes(b, 4) && Extremes(c, 3) && Extremes(d, 2) && Extremes(Next(d), 1);
    hide Extremes;
    ExtremeLowHalf(a);
    ExtremeLowHalf(b);
    ExtremeLowHalf(c);
    ExtremeLowHalf(d);
    ExtremeLowHalf(Next(d));
    ExtremeLowHalf(Next(Next(d)));
    hide ExtremeLow;
    SixLowHalves(x);
  }

  /** The low half of a word is all zeros or all ones. */
  predicate ExtremeLow(x: bv64) {
    x & 0xFFFF_FFFF == 0 || x & 0xFFFF_FFFF == 0xFFFF_FFFF
  }

  lemma {:induction false} SixLowHalves(x: bv64)
    requires ExtremeLow(Next(x)) && ExtremeLow(Next(Next(x))) && ExtremeLow(Next(Next(Next(x))))
    requires ExtremeLow(Next(Next(Next(Next(x))))) && ExtremeLow(Next(Next(Next(Next(Next(x))))))
    requires ExtremeLow(Next(Next(Next(Next(Next(Next(x)))))))
    ensures x == 0
  {
  }

  // ---------- From the value of a word to its bits ----------

  function Digit(n: nat, p: nat): nat
    requires p > 0
  {
    n / p % 2
  }

  lemma {:induction false} Bits0(n: nat)
    requires n < TWO_64
    ensures ((n as bv64) >> 0) & 1 == 1 <==> Digit(n, 0x1) == 1
    ensures ((n as bv64) >> 1) & 1 == 1 <==> Digit(n, 0x2) == 1
    ensures ((n as bv64) >> 2) & 1 == 1 <==> Digit(n, 0x4) == 1
    ensures ((n as bv64) >> 3) & 1 == 1 <==> Digit(n, 0x8) == 1
    ensures ((n as bv64) >> 4) & 1 == 1 <==> Digit(n, 0x10) == 1
    ensures ((n as bv64) >> 5) & 1 == 1 <==> Digit(n, 0x20) == 1
    ensures ((n as bv64) >> 6) & 1 == 1 <==> Digit(n, 0x40) == 1
    ensures ((n as bv64) >> 7) & 1 == 1 <==> Digit(n, 0x80) == 1
  {
  }

  lemma {:induction false} Bits8(n: nat)
    requires n < TWO_64
    ensures ((n as bv64) >> 8) & 1 == 1 <==> Digit(n, 0x100) == 1
    ensures ((n as bv64) >> 9) & 1 == 1 <==> Digit(n, 0x200) == 1
    ensures ((n as bv64) >> 10) & 1 == 1 <==> Digit(n, 0x400) == 1
    ensures ((n as bv64) >> 11) & 1 == 1 <==> Digit(n, 0x800) == 1
    ensures ((n as bv64) >> 12) & 1 == 1 <==> Digit(n, 0x1000) == 1
    ensures ((n as bv64) >> 13) & 1 == 1 <==> Digit(n, 0x2000) == 1
    ensures ((n as bv64) >> 14) & 1 == 1 <==> Digit(n, 0x4000) == 1
    ensures ((n as bv64) >> 15) & 1 == 1 <==> Digit(n, 0x8000) == 1
  {
  }

  lemma {:induction false} Bits16(n: nat)
    requires n < TWO_64
    ensures ((n as bv64) >> 16) & 1 == 1 <==> Digit(n, 0x10000) == 1
    ensures ((n as bv64) >> 17) & 1 == 1 <==> Digit(n, 0x20000) == 1
    ensures ((n as bv64) >> 18) & 1 == 1 <==> Digit(n, 0x40000) == 1
    ensures ((n as bv64) >> 19) & 1 == 1 <==> Digit(n, 0x80000) == 1
    ensures ((n as bv64) >> 20) & 1 == 1 <==> Digit(n, 0x100000) == 1
    ensures ((n as bv64) >> 21) & 1 == 1 <==> Digit(n, 0x200000) == 1
    ensures ((n as bv64) >> 22) & 1 == 1 <==> Digit(n, 0x400000) == 1
    ensures ((n as bv64) >> 23) & 1 == 1 <==> Digit(n, 0x800000) == 1
  {
  }

  lemma {:induction false} Bits24(n: nat)
    requires n < TWO_64
    ensures ((n as bv64) >> 24) & 1 == 1 <==> Digit(n, 0x1000000) == 1
    ensures ((n as bv64) >> 25) & 1 == 1 <==> Digit(n, 0x2000000) == 1
    ensures ((n as bv64) >> 26) & 1 == 1 <==> Digit(n, 0x4000000) == 1
    ensures ((n as bv64) >> 27) & 1 == 1 <==> Digit(n, 0x8000000) == 1
    ensures ((n as bv64) >> 28) & 1 == 1 <==> Digit(n, 0x10000000) == 1
    ensures ((n as bv64) >> 29) & 1 == 1 <==> Digit(n, 0x20000000) == 1
    ensures ((n as bv64) >> 30) & 1 == 1 <==> Digit(n, 0x40000000) == 1
    ensures ((n as bv64) >> 31) & 1 == 1 <==> Digit(n, 0x80000000) == 1
  {
  }

  lemma {:induction false} PowersOfTwo()
    ensures Pow(2, 0) == 0x1 && Pow(2, 1) == 0x2 && Pow(2, 2) == 0x4 && Pow(2, 3) == 0x8
    ensures Pow(2, 4) == 0x10 && Pow(2, 5) == 0x20 && Pow(2, 6) == 0x40 && Pow(2, 7) == 0x80
    ensures Pow(2, 8) == 0x100 && Pow(2, 9) == 0x200 && Pow(2, 10) == 0x400 && Pow(2, 11) == 0x800
    ensures Pow(2, 12) == 0x1000 && Pow(2, 13) == 0x2000 && Pow(2, 14) == 0x4000 && Pow(2, 15) == 0x8000
    ensures Pow(2, 16) == 0x10000 && Pow(2, 17) == 0x20000 && Pow(2, 18) == 0x40000 && Pow(2, 19) == 0x80000
    ensures Pow(2, 20) == 0x100000 && Pow(2, 21) == 0x200000 && Pow(2, 22) == 0x400000 && Pow(2, 23) == 0x800000
    ensures Pow(2, 24) == 0x1000000 && Pow(2, 25) == 0x2000000 && Pow(2, 26) == 0x4000000 && Pow(2, 27) == 0x8000000
    ensures Pow(2, 28) == 0x10000000 && Pow(2, 29) == 0x20000000 && Pow(2, 30) == 0x40000000 && Pow(2, 31) == 0x80000000
  {
  }

  /** Binary digit `i` of a number whose low 32 bits are all alike. */
  lemma {:induction false} LowDigit(n: nat, i: nat)
    requires i < 32 && (n % 0x1_0000_0000 == 0 || n % 0x1_0000_0000 == 0xFFFF_FFFF)
    ensures Digit(n, Pow(2, i)) == n % 2
  {
    var k, q, h := n / 0x1_0000_0000, Pow(2, i), Pow(2, 32 - i);
    PowAdd(2, 32 - i, i);
    WordPowers();
    EvenPower(32 - i);
    hide Pow;
    AlikeDigit(n, k, q, h);
  }

  lemma {:induction false} EvenPower(i: nat)
    requires i > 0
    ensures Pow(2, i) % 2 == 0
  {
  }

  lemma {:induction false} AlikeDigit(n: nat, k: nat, q: nat, h: nat)
    requires q > 0 && h * q == 0x1_0000_0000 && h % 2 == 0
    requires n == k * 0x1_0000_0000 || n == k * 0x1_0000_0000 + 0xFFFF_FFFF
    ensures Digit(n, q) == n % 2
  {
    MulAssociative(k, h, q);
    EvenProduct(k, h);
    if n == k * 0x1_0000_0000 {
      DivModUnique(n, q, k * h, 0);
    } else {
      Distribute(k * h, h - 1, q);
      Distribute(h, -1, q);
      DivModUnique(n, q, k * h + h - 1, q - 1);
    }
  }

  lemma {:induction false} EvenProduct(k: nat, h: nat)
    requires h % 2 == 0
    ensures k * h % 2 == 0
  {
    MulAssociative(k, h / 2, 2);
  }

  lemma {:induction false} LowDigits(n: nat)
    requires n % 0x1_0000_0000 == 0 || n % 0x1_0000_0000 == 0xFFFF_FFFF
    ensures forall i :: 0 <= i < 32 ==> Digit(n, Pow(2, i)) == n % 2
  {
    hide Digit, Pow;
    forall i | 0 <= i < 32 ensures Digit(n, Pow(2, i)) == n % 2 {
      LowDigit(n, i);
    }
  }

  lemma {:induction false} LowByte0(n: nat)
    requires n < TWO_64 && (n % 0x1_0000_0000 == 0 || n % 0x1_0000_0000 == 0xFFFF_FFFF)
    ensures ((n as bv64) >> 0) & 0xFF == if n % 2 == 0 then 0 else 0xFF
  {
    hide Digit, Pow;
    LowDigits(n);
    PowersOfTwo();
    Bits0(n);
  }

  lemma {:induction false} LowByte8(n: nat)
    requires n < TWO_64 && (n % 0x1_0000_0000 == 0 || n % 0x1_0000_0000 == 0xFFFF_FFFF)
    ensures ((n as bv64) >> 8) & 0xFF == if n % 2 == 0 then 0 else 0xFF
  {
    hide Digit, Pow;
    LowDigits(n);
    PowersOfTwo();
    Bits8(n);
  }

  lemma {:induction false} LowByte16(n: nat)
    requires n < TWO_64 && (n % 0x1_0000_0000 == 0 || n % 0x1_0000_0000 == 0xFFFF_FFFF)
    ensures ((n as bv64) >> 16) & 0xFF == if n % 2 == 0 then 0 else 0xFF
  {
    hide Digit, Pow;
    LowDigits(n);
    PowersOfTwo();
    Bits16(n);
  }

  lemma {:induction false} LowByte24(n: nat)
    requires n < TWO_64 && (n % 0x1_0000_0000 == 0 || n % 0x1_0000_0000 == 0xFFFF_FFFF)
    ensures ((n as bv64) >> 24) & 0xFF == if n % 2 == 0 then 0 else 0xFF
  {
    hide Digit, Pow;
    LowDigits(n);
    PowersOfTwo();
    Bits24(n);
  }

  lemma {:induction false} ExtremeLowHalf(x: bv64)
    requires Extreme(x)
    ensures ExtremeLow(x)
  {
    BackToWord(x);
    hide Value;
    LowHalfAlike(Value(x));
  }

  lemma {:induction false} BackToWord(x: bv64)
    ensures Value(x) as bv64 == x
  {
  }

  lemma {:induction false} LowHalfAlike(n: nat)
    requires n < TWO_64 && (n % 0x1_0000_0000 == 0 || n % 0x1_0000_0000 == 0xFFFF_FFFF)
    ensures ExtremeLow(n as bv64)
  {
    hide ExtremeLow;
    LowByte0(n);
    LowByte8(n);
    LowByte16(n);
    LowByte24(n);
    LowFromBytes(n as bv64);
  }

  lemma {:induction false} LowFromBytes(x: bv64)
    requires (x >> 0) & 0xFF == (x >> 8) & 0xFF == (x >> 16) & 0xFF == (x >> 24) & 0xFF
    requires (x >> 0) & 0xFF == 0 || (x >> 0) & 0xFF == 0xFF
    ensures ExtremeLow(x)
  {
  }

  // ---------- The loop ----------

  /** Five there are. */
  lemma {:induction false} FiveExtremes()
    ensures Extremes(0x1A3E_5CE8_D32E_48D1, 5)
  {
    assert Next(0x1A3E_5CE8_D32E_48D1) == 0xD000_0000_0000_0000;
    assert Next(0xD000_0000_0000_0000) == 0xD1A0_0000_0000_0000;
    assert Next(0xD1A0_0000_0000_0000) == 0x5003_4000_0000_0000;
    assert Next(0x5003_4000_0000_0000) == 0xB573_4680_0000_0000;
    assert Next(0xB573_4680_0000_0000) == 0xDC02_000D_0000_0000;
    hide Next;
    assert Extremes(0xDC02_000D_0000_0000, 0) && Extremes(0xB573_4680_0000_0000, 1) && Extremes(0x5003_4000_0000_0000, 2);
  }

  lemma {:induction false} DefaultShape()
    ensures ByteLen(DEFAULT_BOUND) == 4 && Mask(DEFAULT_BOUND) == 255
  {
    WordPowers();
    assert Pow(2, 32) == 2 * Pow(2, 31);
    BitLenIs(0xFFFF_FFFE, 32);
    hide BitLen, Pow;
  }

  /** One draw of four bytes is one step, and is rejected exactly for an extreme low half. */
  lemma {:induction false} DefaultDraw(x: bv64)
    ensures RngRead(x, 4) == (Next(x), Filled(WordBytes(Next(x))[..4]))
    ensures Rejected(DEFAULT_BOUND, WordBytes(Next(x))[..4]) <==> Extreme(Next(x))
  {
    hide Next, Mask, WordBytes;
    assert Words(Next(x), 0) == [] && Iterate(Next(x), 0) == Next(x);
    assert Words(x, 1) == WordBytes(Next(x)) && Iterate(x, 1) == Next(x);
    LowBytes(Next(x));
  }

  lemma {:induction false} LowBytes(y: bv64)
    ensures Rejected(DEFAULT_BOUND, WordBytes(y)[..4]) <==> Extreme(y)
  {
    DefaultCandidate(WordBytes(y)[..4]);
    FourBytes(Value(y));
    hide Mask, NumLE, ToLE;
  }

  /** The first four of a word's little-endian bytes are its low half. */
  lemma {:induction false} FourBytes(n: nat)
    ensures NumLE(ToLE(n, 8)[..4], 256) == n % 0x1_0000_0000
  {
    assert ToLE(n, 8)[..4] == ToLE(n, 4) by { hide NumLE; FrontBytes(n, 8, 4); }
    WrapBytes(n, 4);
    assert Pow(256, 4) == 0x1_0000_0000;
  }

  lemma {:induction false} DefaultCandidate(b: seq<u8>)
    requires |b| == 4
    ensures Rejected(DEFAULT_BOUND, b) <==> NumLE(b, 256) == 0 || NumLE(b, 256) >= DEFAULT_BOUND
  {
    DefaultShape();
    MaskIsRemainder(DEFAULT_BOUND, b[0]);
    hide Mask, And, NumLE;
    assert [b[0]] + b[1..] == b;
  }

  /** One round of the loop over the process-wide generator. */
  lemma {:induction false} DefaultRound(x: bv64, fuel: nat)
    requires Fills(RngRead) && fuel > 0 && ByteLen(DEFAULT_BOUND) > 0
    ensures var p := Draws(RngRead, x, DEFAULT_BOUND, fuel);
            p.Undecided? <==> Extreme(Next(x)) && Draws(RngRead, Next(x), DEFAULT_BOUND, fuel - 1).Undecided?
  {
    DefaultShape();
    DefaultDraw(x);
    hide Next, Mask, ByteLen, Candidate, WordBytes, RngRead, Extreme;
  }

  /** The loop is undecided after `k` draws exactly when the next `k` states are all extreme. */
  lemma {:induction false} DefaultRounds(x: bv64, k: nat)
    requires Fills(RngRead) && ByteLen(DEFAULT_BOUND) > 0
    ensures Draws(RngRead, x, DEFAULT_BOUND, k).Undecided? <==> Extremes(x, k)
    decreases k
  {
    hide Next, Extreme, ByteLen, RngRead, Candidate, Mask;
    if k > 0 {
      DefaultRounds(Next(x), k - 1);
      DefaultRound(x, k);
    }
  }

  /** The process-wide generator settles every increment within six draws, from every state it can be in. */
  lemma {:induction false} DefaultSettles(x: bv64)
    requires Fills(RngRead) && x != 0
    ensures !Increment(RngRead, x, DEFAULT_BOUND, 6).Undecided?
  {
    DefaultShape();
    hide Draws, ByteLen, Extremes;
    DefaultRounds(x, 6);
    if Extremes(x, 6) {
      hide Increment;
      SixExtremes(x);
    }
  }

  /** Fewer do not do: from this state the first five draws are rejected. */
  lemma {:induction false} FiveAreNotEnough()
    requires Fills(RngRead)
    ensures Increment(RngRead, 0x1A3E_5CE8_D32E_48D1, DEFAULT_BOUND, 5).Undecided?
  {
    DefaultShape();
    hide Draws, ByteLen, Extremes;
    DefaultRounds(0x1A3E_5CE8_D32E_48D1, 5);
    FiveExtremes();
  }

  /** So every call on it returns. */
  lemma {:induction false} DefaultReturns(st: State<bv64>, ms: u64, fuel: nat)
    requires Fills(RngRead) && st.src != 0 && st.inc == DEFAULT_BOUND && fuel >= 6
    ensures !Increment(RngRead, st.src, st.inc, fuel).Undecided?
    ensures ReadStep(RngRead, st, ms, fuel).1.Done? && NewStep(RngRead, st, ms, fuel).1.Done?
  {
    hide RngRead, Draws, ByteLen, Num, ToBE;
    DefaultSettles(st.src);
    ByteLenRange(st.inc);
    FuelAgrees(RngRead, st.src, st.inc, 6, fuel);
    hide Increment;
  }
}
