/** The xorshift64 generator behind `make()` and `--quick`, as an entropy source. */
module MathRngs {
  import opened Bits
  import opened PlaceValue
  import opened Entropy

  /** One step of the generator: x ^= x << 13, x ^= x >> 7, x ^= x << 17. */
  function Next(x: bv64): bv64 {
    var a := x ^ (x << 13);
    var b := a ^ (a >> 7);
    b ^ (b << 17)
  }

  /** Its inverse: each xor-shift undone by the geometric series of its shift. */
  function Previous(y: bv64): bv64 {
    var b := y ^ (y << 17) ^ (y << 34) ^ (y << 51);
    var a := b ^ (b >> 7) ^ (b >> 14) ^ (b >> 21) ^ (b >> 28) ^ (b >> 35) ^ (b >> 42) ^ (b >> 49) ^ (b >> 56) ^ (b >> 63);
    a ^ (a << 13) ^ (a << 26) ^ (a << 39) ^ (a << 52)
  }

  /** The step is a bijection of the 64-bit words, and zero is its only fixed point. */
  lemma {:induction false} NextIsBijective(x: bv64)
    ensures Previous(Next(x)) == x && Next(Previous(x)) == x
    ensures Next(x) == x <==> x == 0
    ensures Next(x) == 0 <==> x == 0
  {
  }

  /** Seeding: a zero seed is replaced. */
  function Seeded(seed: bv64): bv64 {
    if seed == 0 then 0x9E37_79B9_7F4A_7C15 else seed
  }

  /** The time-based seed of the process-wide generator, wrapping in 64 bits. */
  function TimeSeed(now: u64): u64 {
    var seed := (now * 1_000_000 + 0x9E37_79B9_7F4A_7C15) % TWO_64;
    if seed == 0 then 0xDEAD_BEEF_DEAD_BEEF else seed
  }

  /** The state after `k` steps. */
  function Iterate(x: bv64, k: nat): bv64
    decreases k
  {
    if k == 0 then x else Iterate(Next(x), k - 1)
  }

  /** The word as a number. */
  function Value(x: bv64): (n: nat)
    ensures n < TWO_64
  {
    x as int
  }

  /** `to_le_bytes`. */
  function WordBytes(x: bv64): (r: seq<u8>)
    ensures |r| == 8
  {
    ToLE(Value(x), 8)
  }

  /** The little-endian bytes of the `k` states that follow `x`. */
  function Words(x: bv64, k: nat): (r: seq<u8>)
    ensures |r| == 8 * k
    decreases k
  {
    if k == 0 then [] else WordBytes(Next(x)) + Words(Next(x), k - 1)
  }

  /** The generator as a source: `n` bytes cost ceil(n / 8) steps. */
  function RngRead(x: bv64, n: nat): (bv64, Draw) {
    var k := (n + 7) / 8;
    (Iterate(x, k), Filled(Words(x, k)[..n]))
  }

  class MathRng {
    var state: bv64

    constructor FromSeed(seed: bv64)
      ensures state == Seeded(seed) != 0 && (seed != 0 ==> state == seed)
    {
      state := if seed == 0 then 0x9E37_79B9_7F4A_7C15 else seed;
    }

    method NextWord() returns (x: bv64)
      modifies this
      ensures x == state == Next(old(state))
    {
      hide Next;
      x := Next(state);
      state := x;
    }

    /** Copy the low `n` bytes of the next state. */
    method PutWord(dst: array<u8>, at: nat, n: nat)
      requires n <= 8 && at + n <= dst.Length
      modifies this, dst
      ensures state == Next(old(state))
      ensures dst[..] == Splice(old(dst[..]), at, WordBytes(state)[..n])
    {
      hide Next, WordBytes;
      var v := NextWord();
      var bytes := WordBytes(v);
      forall j | 0 <= j < n {
        dst[at + j] := bytes[j];
      }
    }

    /** Fill `dst[at..at + n]`: whole words, then the low bytes of one more. */
    method Read(dst: array<u8>, at: nat, n: nat)
      requires at + n <= dst.Length
      modifies this, dst
      ensures state == RngRead(old(state), n).0 == Iterate(old(state), (n + 7) / 8)
      ensures dst[..] == Splice(old(dst[..]), at, RngRead(old(state), n).1.bytes)
      ensures forall i :: 0 <= i < n ==> dst[at + i] == StreamByte(old(state), i)
    {
      hide Next, WordBytes, Words, Iterate, Splice;
      ghost var before, x, done := dst[..], state, 0;
      NoWordsYet(x, before, at);
      var i := 0;
      while i + 8 <= n
        invariant i == 8 * done <= n && state == Iterate(x, done)
        invariant dst[..] == Splice(before, at, Words(x, done))
      {
        OneMoreWord(x, done);
        PutWord(dst, at + i, 8);
        assert WordBytes(state)[..8] == WordBytes(state);
        SpliceTwice(before, at, Words(x, done), WordBytes(state));
        i := i + 8;
        done := done + 1;
      }
      if i < n {
        OneMoreWord(x, done);
        assert (n + 7) / 8 == done + 1;
        PutWord(dst, at + i, n - i);
        SpliceTwice(before, at, Words(x, done), WordBytes(state)[..n - i]);
        assert Words(x, done + 1)[..n] == Words(x, done) + WordBytes(state)[..n - i];
      } else {
        assert (n + 7) / 8 == done && Words(x, done)[..n] == Words(x, done);
      }
      ReadBytes(x, n);
      hide RngRead, StreamByte;
      SpliceAt(before, at, RngRead(x, n).1.bytes);
    }
  }

  lemma {:induction false} NoWordsYet(x: bv64, buffer: seq<u8>, at: nat)
    requires at <= |buffer|
    ensures Iterate(x, 0) == x && Splice(buffer, at, Words(x, 0)) == buffer
  {
  }

  // ---------- The stream ----------

  lemma {:induction false} NoWords(x: bv64)
    ensures Iterate(x, 0) == x && Words(x, 0) == []
  {
  }

  lemma {:induction false} FirstStep(x: bv64, k: nat)
    requires k > 0
    ensures Iterate(x, k) == Iterate(Next(x), k - 1) && Words(x, k) == WordBytes(Next(x)) + Words(Next(x), k - 1)
  {
    hide Next, WordBytes;
  }

  lemma {:induction false} IterateSplit(x: bv64, j: nat, k: nat)
    ensures Iterate(x, j + k) == Iterate(Iterate(x, j), k)
    ensures Words(x, j + k) == Words(x, j) + Words(Iterate(x, j), k)
    decreases j
  {
    hide Next, WordBytes;
    if j > 0 {
      hide Words, Iterate;
      FirstStep(x, j);
      FirstStep(x, j + k);
      IterateSplit(Next(x), j - 1, k);
    } else {
      hide Words, Iterate;
      NoWords(x);
      assert [] + Words(x, k) == Words(x, k);
    }
  }

  lemma {:induction false} OneMoreWord(x: bv64, k: nat)
    ensures Iterate(x, k + 1) == Next(Iterate(x, k))
    ensures Words(x, k + 1) == Words(x, k) + WordBytes(Next(Iterate(x, k)))
  {
    hide Next, WordBytes;
    IterateSplit(x, k, 1);
    var y := Iterate(x, k);
    assert Iterate(Next(y), 0) == Next(y) && Words(Next(y), 0) == [];
  }

  /** The eight bytes of a word are the little-endian digits of its value. */
  lemma {:induction false} WordBytesValue(x: bv64)
    ensures NumLE(WordBytes(x), 256) == Value(x)
  {
    assert Pow(256, 8) == TWO_64;
    LittleEndianDigits(Value(x), 8);
  }

  /** Byte `i` of the stream from state `x`: byte `i % 8`, counted from the low end, of the state after `i / 8 + 1` steps. */
  function StreamByte(x: bv64, i: nat): nat {
    Value(Iterate(x, i / 8 + 1)) / Pow(256, i % 8) % 256
  }

  lemma {:induction false} WordsAt(x: bv64, k: nat, i: nat)
    requires i < 8 * k
    ensures Words(x, k)[i] == StreamByte(x, i)
    decreases k
  {
    hide Next, ToLE, Value;
    if i < 8 {
      LittleEndianAt(Value(Next(x)), 8, i);
      assert Iterate(Next(x), 0) == Next(x);
    } else {
      WordsAt(Next(x), k - 1, i - 8);
    }
  }

  /** What a read of `n` bytes gives, and the state it leaves. */
  lemma {:induction false} ReadBytes(x: bv64, n: nat)
    ensures var (x', d) := RngRead(x, n);
            && x' == Iterate(x, (n + 7) / 8) && d.Filled? && |d.bytes| == n
            && forall i :: 0 <= i < n ==> d.bytes[i] == StreamByte(x, i)
  {
    hide Iterate, Words, StreamByte;
    forall i | 0 <= i < n ensures RngRead(x, n).1.bytes[i] == StreamByte(x, i) {
      WordsAt(x, (n + 7) / 8, i);
    }
  }

  /** A read split after a whole number of words gives the same bytes and the same state. */
  lemma {:induction false} ReadSplits(x: bv64, m: nat, n: nat)
    requires m % 8 == 0
    ensures var (x', first) := RngRead(x, m);
            var (x'', rest) := RngRead(x', n);
            RngRead(x, m + n) == (x'', Filled(first.bytes + rest.bytes))
  {
    hide Iterate, Words;
    var j, k := m / 8, (n + 7) / 8;
    assert m == 8 * j && (m + 7) / 8 == j && (m + n + 7) / 8 == j + k;
    IterateSplit(x, j, k);
    var a, b := Words(x, j), Words(Iterate(x, j), k);
    assert a[..m] == a;
    assert (a + b)[..m + n] == a + b[..n];
  }

  /** Every reachable state is non-zero. */
  lemma {:induction false} IterateNonZero(x: bv64, k: nat)
    requires x != 0
    ensures Iterate(x, k) != 0
    decreases k
  {
    hide Next;
    if k > 0 {
      NextIsBijective(x);
      IterateNonZero(Next(x), k - 1);
    }
  }

  lemma {:induction false} SeedsAreNonZero(seed: bv64, now: u64)
    ensures Seeded(seed) != 0 && (seed != 0 ==> Seeded(seed) == seed)
    ensures TimeSeed(now) as bv64 != 0
  {
    TimeSeedIsOdd(now);
    hide TimeSeed;
    OddWord(TimeSeed(now));
  }

  lemma {:induction false} OddWord(n: u64)
    requires n % 2 == 1
    ensures n as bv64 != 0
  {
    assert (n as bv64) & 1 == 1;
  }

  /** The time-based seed is always odd, so its fallback for zero is never used. */
  lemma {:induction false} TimeSeedIsOdd(now: u64)
    ensures TimeSeed(now) % 2 == 1 && TimeSeed(now) == (now * 1_000_000 + 0x9E37_79B9_7F4A_7C15) % TWO_64
  {
    var h := now * 500_000 + 0x4F1B_BCDC_BFA5_3E0A;
    OddRemainder(h);
    assert now * 1_000_000 + 0x9E37_79B9_7F4A_7C15 == 2 * h + 1;
  }

  lemma {:induction false} OddRemainder(h: nat)
    ensures (2 * h + 1) % TWO_64 % 2 == 1
  {
    var q, r := h / 0x8000_0000_0000_0000, h % 0x8000_0000_0000_0000;
    DivModUnique(2 * h + 1, TWO_64, q, 2 * r + 1);
  }

  /** Two clock readings give the same seed exactly when they agree modulo 2^58, so all that fit an identifier differ. */
  lemma {:induction false} TimeSeedsDiffer(a: u64, b: u64)
    ensures TimeSeed(a) == TimeSeed(b) <==> (a - b) % 0x400_0000_0000_0000 == 0
  {
    TimeSeedIsOdd(a);
    TimeSeedIsOdd(b);
    hide TimeSeed;
    SameRemainder(a * 1_000_000 + 0x9E37_79B9_7F4A_7C15, b * 1_000_000 + 0x9E37_79B9_7F4A_7C15, TWO_64);
    ScaledMultiple(a - b);
  }

  lemma {:induction false} SameRemainder(x: int, y: int, m: int)
    requires m > 0
    ensures x % m == y % m <==> (x - y) % m == 0
  {
    var q, r, q', r' := x / m, x % m, y / m, y % m;
    assert x - y == (q - q') * m + (r - r') by { Distribute(q, -q', m); }
    if r >= r' {
      DivModUnique(x - y, m, q - q', r - r');
    } else {
      Distribute(q - q', -1, m);
      DivModUnique(x - y, m, q - q' - 1, r - r' + m);
    }
  }

  /** 1_000_000 is 2^6 times 15625, which has an inverse modulo 2^64. */
  lemma {:induction false} ScaledMultiple(d: int)
    ensures d * 1_000_000 % TWO_64 == 0 <==> d % 0x400_0000_0000_0000 == 0
  {
    if d * 1_000_000 % TWO_64 == 0 {
      var k := d * 1_000_000 / TWO_64;
      assert d * 15625 == k * 0x400_0000_0000_0000;
      assert d == 0x400_0000_0000_0000 * (0x790FB65668C26139 * k - 64 * 0x1CDD * d);
      DivModUnique(d, 0x400_0000_0000_0000, 0x790FB65668C26139 * k - 64 * 0x1CDD * d, 0);
    } else if d % 0x400_0000_0000_0000 == 0 {
      var k := d / 0x400_0000_0000_0000;
      DivModUnique(d * 1_000_000, TWO_64, k * 15625, 0);
    }
  }

  lemma {:induction false} ZeroNum(ds: seq<nat>, base: nat)
    requires base > 0 && Num(ds, base) == 0
    ensures forall i :: 0 <= i < |ds| ==> ds[i] == 0
  {
    if |ds| > 0 {
      var n := |ds| - 1;
      assert Num(ds[..n], base) * base + ds[n] == 0;
      MulAtLeast(Num(ds[..n], base), base);
      ZeroNum(ds[..n], base);
      assert forall i :: 0 <= i < n ==> ds[i] == ds[..n][i];
    }
  }

  lemma {:induction false} ZeroLittleEndian(bs: seq<nat>)
    requires forall i :: 0 <= i < |bs| ==> bs[i] == 0
    ensures NumLE(bs, 256) == 0
  {
    if |bs| > 0 {
      ZeroLittleEndian(bs[1..]);
    }
  }

  lemma {:induction false} ZeroWordBytes(x: bv64, b: seq<u8>)
    requires b == WordBytes(x) && forall i :: 0 <= i < 8 ==> b[i] == 0
    ensures x == 0
  {
    ZeroLittleEndian(b);
    WordBytesValue(x);
  }

  /** A draw of eight bytes or more from a non-zero state is not all zeros, and leaves a non-zero state. */
  lemma {:induction false} DrawsAreNonZero(x: bv64, n: nat)
    requires x != 0
    ensures RngRead(x, n).0 != 0
    ensures n >= 8 ==> Num(RngRead(x, n).1.bytes, 256) != 0
  {
    hide Next, WordBytes;
    IterateNonZero(x, (n + 7) / 8);
    NextIsBijective(x);
    var bytes := RngRead(x, n).1.bytes;
    if n >= 8 {
      assert bytes[..8] == WordBytes(Next(x));
      if Num(bytes, 256) == 0 {
        ZeroNum(bytes, 256);
        ZeroWordBytes(Next(x), bytes[..8]);
      }
    }
  }
}
