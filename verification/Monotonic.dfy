/** Monotonic entropy: an 80-bit accumulator over an entropy source. */
module Monotonic {
  import opened Bits
  import opened Errors
  import opened PlaceValue
  import opened Packing
  import opened Ulids
  import opened Entropy

  // ---------- The 80-bit accumulator ----------

  class Uint80 {
    var hi: u16
    var lo: u64

    function Value(): (v: nat)
      reads this
      ensures v < TWO_80
    {
      hi * TWO_64 + lo
    }

    constructor ()
      ensures Value() == 0
    {
      hi, lo := 0, 0;
    }

    predicate IsZero()
      reads this
      ensures IsZero() <==> Value() == 0
    {
      hi == 0 && lo == 0
    }

    /** The first ten bytes, as the source reads them. */
    method SetBytes(bs: seq<u8>)
      requires |bs| >= 10
      modifies this
      ensures Value() == Num(bs[..10], 256)
    {
      JoinByte(bs[0], bs[1], 0);
      ShlZero(bs[1]);
      ShlZero(bs[0] as int * 256 + bs[1]);
      TwoDigits(bs[0], bs[1], 256);
      assert bs[..2] == [bs[0], bs[1]];
      NumBound(bs[2..10], 256);
      assert Pow(256, 8) == TWO_64;
      hi := Or(Shl(bs[0], 8), bs[1]);
      lo := Num(bs[2..10], 256);
      NumConcat(bs[..2], bs[2..10], 256);
      assert bs[..10] == bs[..2] + bs[2..10];
    }

    method AppendTo(bs: array<u8>, at: nat)
      requires at + 10 <= bs.Length
      modifies bs
      ensures bs[..] == Splice(old(bs[..]), at, ToBE(Value(), 10))
    {
      hide ToBE, Shr;
      var low := ToBE(lo, 8);
      bs[at] := Shr(hi, 8) % 256;
      bs[at + 1] := hi % 256;
      forall i | 0 <= i < 8 {
        bs[at + 2 + i] := low[i];
      }
      HalvesToBytes(hi, lo);
      assert bs[..] == bs[..at] + bs[at..at + 10] + bs[at + 10..];
    }

    /** Add, wrapping at 2^80; the report is exact although only the high halves are compared. */
    method Add(n: u64) returns (overflow: bool)
      modifies this
      ensures Value() == (old(Value()) + n) % TWO_80
      ensures overflow <==> old(Value()) + n >= TWO_80
    {
      var oldLo, oldHi := lo, hi;
      lo := (lo + n) % TWO_64;
      if lo < oldLo {
        hi := (hi + 1) % 0x1_0000;
      }
      overflow := hi < oldHi;
    }
  }

  lemma {:induction false} HalvesToBytes(hi: u16, lo: u64)
    ensures ToBE(hi * TWO_64 + lo, 10) == [Shr(hi, 8) % 256, hi % 256] + ToBE(lo, 8)
  {
    WordPowers();
    hide ToDigits, Shr, Pow;
    DigitsSplit(hi, lo, 256, 2, 8);
    DigitAt(hi, 2, 0);
    DigitAt(hi, 2, 1);
    ShrZero(hi);
  }

  // ---------- The increment ----------

  /** Number of bits of `n`: 64 minus the leading zeros of a 64-bit word. */
  function BitLen(n: nat): nat {
    if n == 0 then 0 else 1 + BitLen(n / 2)
  }

  lemma {:induction false} BitLenBounds(n: nat)
    ensures n < Pow(2, BitLen(n))
    ensures n > 0 ==> BitLen(n) > 0 && Pow(2, BitLen(n) - 1) <= n
  {
    if n > 0 {
      BitLenBounds(n / 2);
    }
  }

  /** The bit length is the only exponent that brackets the number. */
  lemma {:induction false} BitLenIs(n: nat, k: nat)
    requires k > 0 && Pow(2, k - 1) <= n < Pow(2, k)
    ensures BitLen(n) == k
  {
    BitLenBounds(n);
    if BitLen(n) < k {
      PowMonotone(2, BitLen(n), k - 1);
    } else if k < BitLen(n) {
      PowMonotone(2, k, BitLen(n) - 1);
    }
  }

  function ByteLenOf(bitLen: nat): nat {
    (bitLen + 7) / 8
  }

  function MsbitLenOf(bitLen: nat): (r: nat)
    ensures 1 <= r <= 8
  {
    if bitLen % 8 == 0 then 8 else bitLen % 8
  }

  /** Bytes drawn per candidate for the increment bound `inc`. */
  function ByteLen(inc: nat): nat
    requires inc >= 2
  {
    ByteLenOf(BitLen(inc - 1))
  }

  function Mask(inc: nat): (m: nat)
    requires inc >= 2
    ensures m < 256
  {
    PowMonotone(2, MsbitLenOf(BitLen(inc - 1)), 8);
    assert Pow(2, 8) == 256;
    Pow(2, MsbitLenOf(BitLen(inc - 1))) - 1
  }

  lemma {:induction false} BitLenAtMost(n: nat, k: nat)
    requires n < Pow(2, k)
    ensures BitLen(n) <= k
  {
    if n > 0 {
      BitLenAtMost(n / 2, k - 1);
    }
  }

  lemma {:induction false} ByteLenRange(inc: u64)
    requires inc >= 2
    ensures 1 <= ByteLen(inc) <= 8
  {
    WordPowers();
    BitLenAtMost(inc - 1, 64);
    BitLenBounds(inc - 1);
  }

  /** The candidate read from a draw: byte 0 is masked, and byte 0 is the least significant. */
  function Candidate(mask: nat, bytes: seq<u8>): nat
    requires |bytes| > 0
  {
    NumLE([And(bytes[0], mask)] + bytes[1..], 256)
  }

  datatype Pick<S> = Picked(src: S, inc: nat) | Starved(src: S, error: Error) | Undecided

  /** Draw until a candidate lies in [1, inc); at most `fuel` draws are followed. */
  function Draws<S(!new)>(read: Reader<S>, src: S, inc: nat, fuel: nat): Pick<S>
    requires Fills(read) && inc >= 2 && ByteLen(inc) > 0
  {
    if fuel == 0 then Undecided
    else
      var (src', d) := read(src, ByteLen(inc));
      match d
      case Failed(error, _) => Starved(src', error)
      case Filled(bytes) =>
        var c := Candidate(Mask(inc), bytes);
        if c == 0 || c >= inc then Draws(read, src', inc, fuel - 1) else Picked(src', 1 + c)
  }

  /** The increment for one call. */
  function Increment<S(!new)>(read: Reader<S>, src: S, inc: u64, fuel: nat): Pick<S>
    requires Fills(read)
  {
    if inc <= 1 then Picked(src, 1)
    else
      ByteLenRange(inc);
      Draws(read, src, inc, fuel)
  }

  // ---------- One call ----------

  datatype State<S> = State(src: S, ms: u64, ent: nat, inc: u64)

  /** A call either finishes with a result, or has not finished within the draws followed. */
  datatype Outcome<+T> = Done(result: Result<T>) | Pending

  /** `monotonic_read` on a buffer of at least ten bytes: the new state and the entropy written. */
  function ReadStep<S(!new)>(read: Reader<S>, st: State<S>, ms: u64, fuel: nat): (State<S>, Outcome<nat>)
    requires Fills(read)
  {
    if st.ent != 0 && st.ms == ms then
      match Increment(read, st.src, st.inc, fuel)
      case Undecided => (st, Pending)
      case Starved(src, error) => (st.(src := src), Done(Err(error)))
      case Picked(src, inc) =>
        var sum := st.ent + inc;
        (st.(src := src, ent := sum % TWO_80), Done(if sum >= TWO_80 then Err(MonotonicOverflow) else Ok(sum)))
    else
      match read(st.src, 10)
      case (src, Failed(error, _)) => (st.(src := src), Done(Err(error)))
      case (src, Filled(bytes)) => (State(src, ms, Num(bytes, 256), st.inc), Done(Ok(Num(bytes, 256))))
  }

  /** What a failing call has written to its buffer: what a failed fresh read left there; a failed increment writes nothing. */
  function Leavings<S(!new)>(read: Reader<S>, st: State<S>, ms: u64): (r: map<nat, u8>)
    requires Fills(read)
    ensures forall k :: k in r ==> k < 10
  {
    if st.ent != 0 && st.ms == ms then map[]
    else
      match read(st.src, 10)
      case (_, Failed(_, left)) => left
      case _ => map[]
  }

  /** `new_monotonic` with a source: the time is checked before the source is touched. */
  function NewStep<S(!new)>(read: Reader<S>, st: State<S>, ms: u64, fuel: nat): (State<S>, Outcome<seq<u8>>)
    requires Fills(read)
  {
    if ms > MAX_TIME then (st, Done(Err(BigTime)))
    else
      match ReadStep(read, st, ms, fuel)
      case (st', Pending) => (st', Pending)
      case (st', Done(Err(error))) => (st', Done(Err(error)))
      case (st', Done(Ok(ent))) => (st', Done(Ok(ToBE(ms, 6) + ToBE(ent, 10))))
  }

  // ---------- The object ----------

  class MonotonicEntropy<!S(!new)> {
    const read: Reader<S>
    var inner: S
    var ms: u64
    const entropy: Uint80
    var inc: u64
    const randBuf: array<u8>

    ghost predicate Valid()
      reads this
    {
      randBuf.Length == 8 && Fills(read)
    }

    ghost function Now(): State<S>
      reads this, entropy
    {
      State(inner, ms, entropy.Value(), inc)
    }

    constructor (read: Reader<S>, inner: S, inc: u64)
      requires Fills(read)
      ensures Valid() && this.read == read && fresh(entropy) && fresh(randBuf)
      ensures Now() == State(inner, 0, 0, if inc == 0 then 0xFFFF_FFFF else inc)
    {
      this.read := read;
      this.inner := inner;
      ms := 0;
      entropy := new Uint80();
      this.inc := if inc == 0 then 0xFFFF_FFFF else inc;
      randBuf := new u8[8](_ => 0);
    }

    /** One round of the rejection loop: fill the scratch buffer, mask its first byte, read it little-endian. */
    method DrawCandidate(byteLen: nat, mask: u8) returns (r: Result<u64>)
      requires Valid() && 1 <= byteLen <= 8
      modifies this`inner, randBuf
      ensures var (src, d) := read(old(inner), byteLen);
              && inner == src
              && (d.Failed? ==> r == Err(d.error))
              && (d.Filled? ==> r == Ok(Candidate(mask, d.bytes)))
    {
      hide And, NumLE;
      var (src, d) := read(inner, byteLen);
      inner := src;
      if d.Failed? {
        forall i | 0 <= i < byteLen && i in d.left {
          randBuf[i] := d.left[i];
        }
        return Err(d.error);
      }
      forall i | 0 <= i < byteLen {
        randBuf[i] := d.bytes[i];
      }
      randBuf[0] := And(randBuf[0], mask);
      assert randBuf[..byteLen] == [And(d.bytes[0], mask)] + d.bytes[1..];
      var c := Widen(randBuf[..byteLen]);
      r := Ok(c);
    }

    /** The rejection loop. `fuel` bounds the draws of the run considered; it is not executed. */
    method Random(ghost fuel: nat) returns (r: Result<u64>)
      requires Valid() && !Increment(read, inner, inc, fuel).Undecided?
      modifies this`inner, randBuf
      ensures var p := Increment(read, old(inner), inc, fuel);
              && inner == p.src
              && (p.Picked? ==> r == Ok(p.inc)) && (p.Starved? ==> r == Err(p.error))
    {
      if inc <= 1 {
        return Ok(1);
      }
      ByteLenRange(inc);
      var bitLen := BitLen(inc - 1);
      var byteLen := ByteLenOf(bitLen);
      var mask: u8 := Mask(inc);
      assert byteLen == ByteLen(inc);
      hide Mask, ByteLen, ByteLenOf, Candidate;
      var c: u64 := 0;
      ghost var left: nat := fuel;
      while c == 0 || c >= inc
        invariant inc == old(inc) && left <= fuel
        invariant Draws(read, old(inner), inc, fuel) ==
                  if c == 0 || c >= inc then Draws(read, inner, inc, left) else Picked(inner, 1 + c)
        decreases left
      {
        var candidate := DrawCandidate(byteLen, mask);
        if candidate.Err? {
          return candidate;
        }
        c := candidate.value;
        left := left - 1;
      }
      r := Ok(1 + c);
    }

    method IncrementEntropy(ghost fuel: nat) returns (r: Result<()>)
      requires Valid() && !Increment(read, inner, inc, fuel).Undecided?
      modifies this`inner, randBuf, entropy
      ensures var p := Increment(read, old(inner), inc, fuel);
              && inner == p.src
              && (p.Starved? ==> r == Err(p.error) && entropy.Value() == old(entropy.Value()))
              && (p.Picked? ==>
                    && entropy.Value() == (old(entropy.Value()) + p.inc) % TWO_80
                    && r == if old(entropy.Value()) + p.inc >= TWO_80 then Err(MonotonicOverflow) else Ok(()))
    {
      var pick := Random(fuel);
      if pick.Err? {
        return Err(pick.error);
      }
      var overflow := entropy.Add(pick.value);
      if overflow {
        return Err(MonotonicOverflow);
      }
      r := Ok(());
    }

    /** The branch for a new millisecond, or for an accumulator of zero: ten bytes from the source. */
    method ReadFresh(ms: u64, dst: array<u8>, at: nat, ghost fuel: nat) returns (r: Result<()>)
      requires Valid() && at + 10 <= dst.Length && (entropy.Value() == 0 || this.ms != ms)
      modifies this`inner, this`ms, entropy, dst
      ensures Performed(ReadStep(read, old(Now()), ms, fuel), Now(), r,
                        Leavings(read, old(Now()), ms), old(dst[..]), dst[..], at)
      ensures var (src, d) := read(old(inner), 10);
              && inner == src
              && (d.Filled? ==> r == Ok(()) && this.ms == ms && entropy.Value() == Num(d.bytes, 256)
                                && dst[..] == Splice(old(dst[..]), at, d.bytes))
              && (d.Failed? ==> r == Err(d.error) && this.ms == old(this.ms) && entropy.Value() == old(entropy.Value())
                                && dst[..] == Scatter(old(dst[..]), at, d.left))
    {
      hide ToDigits, Num;
      ghost var before := dst[..];
      var (src, d) := read(inner, 10);
      inner := src;
      if d.Failed? {
        forall i | 0 <= i < 10 && i in d.left {
          dst[at + i] := d.left[i];
        }
        assert dst[..] == Scatter(before, at, d.left);
        return Err(d.error);
      }
      forall i | 0 <= i < 10 {
        dst[at + i] := d.bytes[i];
      }
      assert dst[..] == Splice(before, at, d.bytes);
      assert dst[at..at + 10] == d.bytes;
      this.ms := ms;
      assert dst[at..at + 10][..10] == d.bytes;
      entropy.SetBytes(dst[at..at + 10]);
      DigitsOfNum(d.bytes, 256);
      r := Ok(());
    }

    /** The branch for the same millisecond: increment, then write the accumulator. */
    method ReadIncremented(dst: array<u8>, at: nat, ghost fuel: nat) returns (r: Result<()>)
      requires Valid() && at + 10 <= dst.Length && dst != randBuf && entropy.Value() != 0
      requires !ReadStep(read, Now(), ms, fuel).1.Pending?
      modifies this`inner, entropy, randBuf, dst
      ensures Performed(ReadStep(read, old(Now()), ms, fuel), Now(), r,
                        Leavings(read, old(Now()), ms), old(dst[..]), dst[..], at)
      ensures var p := Increment(read, old(inner), inc, fuel);
              && inner == p.src
              && (p.Picked? ==> entropy.Value() == (old(entropy.Value()) + p.inc) % TWO_80
                                && r == if old(entropy.Value()) + p.inc >= TWO_80 then Err(MonotonicOverflow) else Ok(()))
              && (p.Starved? ==> r == Err(p.error) && entropy.Value() == old(entropy.Value()))
              && dst[..] == if r.Ok? then Splice(old(dst[..]), at, ToBE(entropy.Value(), 10)) else old(dst[..])
    {
      hide Increment, ToBE, Num;
      assert Scatter(dst[..], at, map[]) == dst[..];
      var step := IncrementEntropy(fuel);
      if step.Err? {
        return Err(step.error);
      }
      entropy.AppendTo(dst, at);
      r := Ok(());
    }

    /** `monotonic_read` into the `len` bytes of `dst` from `at`: exactly one step. */
    method MonotonicRead(ms: u64, dst: array<u8>, at: nat, len: nat, ghost fuel: nat) returns (r: Result<()>)
      requires Valid() && at + len <= dst.Length && dst != randBuf
      requires len >= 10 ==> !ReadStep(read, Now(), ms, fuel).1.Pending?
      modifies this`inner, this`ms, entropy, randBuf, dst
      ensures len < 10 ==> r == Err(BufferSize) && Now() == old(Now()) && dst[..] == old(dst[..])
      ensures len >= 10 ==> Performed(ReadStep(read, old(Now()), ms, fuel), Now(), r,
                                      Leavings(read, old(Now()), ms), old(dst[..]), dst[..], at)
      ensures len >= 10 && (old(entropy.Value()) == 0 || old(this.ms) != ms) ==>
                var (src, d) := read(old(inner), 10);
                && inner == src
                && (d.Filled? ==> r == Ok(()) && this.ms == ms && entropy.Value() == Num(d.bytes, 256)
                                  && dst[..] == Splice(old(dst[..]), at, d.bytes))
                && (d.Failed? ==> r == Err(d.error) && this.ms == old(this.ms) && entropy.Value() == old(entropy.Value())
                                  && dst[..] == Scatter(old(dst[..]), at, d.left))
      ensures len >= 10 && old(entropy.Value()) != 0 && old(this.ms) == ms ==>
                var p := Increment(read, old(inner), inc, fuel);
                && inner == p.src && this.ms == ms
                && (p.Picked? ==> entropy.Value() == (old(entropy.Value()) + p.inc) % TWO_80
                                  && r == if old(entropy.Value()) + p.inc >= TWO_80 then Err(MonotonicOverflow) else Ok(()))
                && (p.Starved? ==> r == Err(p.error) && entropy.Value() == old(entropy.Value()))
                && dst[..] == if r.Ok? then Splice(old(dst[..]), at, ToBE(entropy.Value(), 10)) else old(dst[..])
    {
      hide ReadStep, Performed, Leavings;
      if len < 10 {
        return Err(BufferSize);
      }
      if !entropy.IsZero() && this.ms == ms {
        r := ReadIncremented(dst, at, fuel);
      } else {
        r := ReadFresh(ms, dst, at, fuel);
      }
    }
  }

  /**
   * A finished step, as seen by the caller: the object is in the new state; success wrote the ten big-endian
   * bytes of the entropy at `at` and nothing else; failure wrote no more than what a failed read left at `at`.
   */
  ghost predicate Performed<S>(step: (State<S>, Outcome<nat>), after: State<S>, r: Result<()>,
                               leavings: map<nat, u8>, before: seq<u8>, dst: seq<u8>, at: nat)
    requires at + 10 <= |before|
  {
    && after == step.0 && step.1.Done?
    && (step.1.result.Err? ==> r == Err(step.1.result.error) && dst == Scatter(before, at, leavings))
    && (step.1.result.Ok? ==>
          r == Ok(()) && dst == Splice(before, at, ToBE(step.1.result.value, 10)))
  }

  /** The word a candidate of `n` bytes is widened to. */
  function WordLen(n: nat): (w: nat)
    requires 1 <= n <= 8
    ensures n <= w <= 8
  {
    if n <= 2 then n else if n <= 4 then 4 else 8
  }

  /** The match on the byte count: zero-extend to a machine word, then read it little-endian. */
  method Widen(bs: seq<u8>) returns (c: u64)
    requires 1 <= |bs| <= 8
    ensures c == NumLE(bs, 256)
  {
    hide NumLE;
    var wide := bs + seq(WordLen(|bs|) - |bs|, _ => 0);
    LittleEndianPadding(bs, WordLen(|bs|) - |bs|);
    LittleEndianBound(wide);
    c := NumLE(wide, 256);
  }

  lemma {:induction false} LittleEndianPadding(bs: seq<nat>, k: nat)
    ensures NumLE(bs + seq(k, _ => 0), 256) == NumLE(bs, 256)
  {
    var z := seq(k, _ => 0);
    if |bs| > 0 {
      assert (bs + z)[1..] == bs[1..] + z;
      LittleEndianPadding(bs[1..], k);
    } else if k > 0 {
      assert (bs + z)[1..] == [] + seq(k - 1, _ => 0);
      LittleEndianPadding([], k - 1);
    }
  }

  lemma {:induction false} LittleEndianBound(bs: seq<nat>)
    requires Below(bs, 256) && |bs| <= 8
    ensures NumLE(bs, 256) < Pow(256, |bs|) <= TWO_64
  {
    if |bs| > 0 {
      LittleEndianBound(bs[1..]);
    }
    PowMonotone(256, |bs|, 8);
    assert Pow(256, 8) == TWO_64;
  }
}
