/** The Rust generator against the Go reference, both reading one byte tape. */
module PortRefinement {
  import opened Bits
  import opened Errors
  import opened PlaceValue
  import opened Entropy
  import opened Monotonic
  import opened Runs
  import opened RandomOutcomes
  import opened GoReference

  predicate IsPowerOfTwo(n: nat) {
    n > 0 && n == Pow(2, BitLen(n) - 1)
  }

  /** The two bit lengths, of `inc` and of `inc - 1`, agree exactly off the powers of two. */
  lemma {:induction false} BitLengthsAgree(inc: nat)
    requires inc >= 2
    ensures BitLen(inc) == BitLen(inc - 1) <==> !IsPowerOfTwo(inc)
    ensures IsPowerOfTwo(inc) ==> BitLen(inc) == BitLen(inc - 1) + 1
  {
    BitLenBounds(inc);
    BitLenBounds(inc - 1);
    var k := BitLen(inc);
    if IsPowerOfTwo(inc) {
      BitLenIs(inc - 1, k - 1);
    } else {
      BitLenIs(inc - 1, k);
    }
  }

  /** The unread tail of Go's scratch buffer is still zero. */
  ghost predicate TailZero(rand: seq<u8>, n: nat) {
    |rand| == 8 && forall i :: n <= i < 8 ==> rand[i] == 0
  }

  /** With a zero tail, Go's whole-word read is the zero-extended read of the Rust port. */
  lemma {:induction false} CandidatesAgree(rand: seq<u8>, bytes: seq<u8>, mask: nat)
    requires 1 <= |bytes| <= 8 && TailZero(rand, |bytes|)
    ensures TailZero(Refill(rand, bytes, mask), |bytes|)
    ensures GoCandidate(Refill(rand, bytes, mask), |bytes|) == Candidate(mask, bytes)
  {
    var n := |bytes|;
    var head := [And(bytes[0], mask)] + bytes[1..];
    hide And, NumLE;
    assert Refill(rand, bytes, mask)[..WordLen(n)] == head + seq(WordLen(n) - n, _ => 0);
    LittleEndianPadding(head, WordLen(n) - n);
  }

  /** Same tape, same bound off the powers of two: the loops pick the same increment and stop at the same byte. */
  lemma {:induction false} DrawsAgree(rest: seq<u8>, rand: seq<u8>, inc: u64, fuel: nat)
    requires Fills(SliceRead) && inc >= 2 && !IsPowerOfTwo(inc) && fuel > |rest| && TailZero(rand, GoByteLen(inc))
    ensures 1 <= ByteLen(inc) <= 8
    ensures var p, q := Draws(SliceRead, rest, inc, fuel), GoDraws(rest, rand, inc);
            && !p.Undecided? && (p.Picked? <==> q.GoPicked?) && (p.Starved? ==> p.error == Read(UnexpectedEof))
            && (p.Picked? ==> q.rest == p.src && q.inc == p.inc && TailZero(q.rand, GoByteLen(inc)))
    decreases |rest|
  {
    BitLengthsAgree(inc);
    ByteLenRange(inc);
    SliceDraw(rest, inc, fuel);
    assert GoByteLen(inc) == ByteLen(inc) && GoMask(inc) == Mask(inc);
    var n := ByteLen(inc);
    hide BitLen, Draws, Candidate, GoCandidate, Refill, ByteLen, GoByteLen, Mask, GoMask, IsPowerOfTwo;
    if |rest| >= n {
      CandidatesAgree(rand, rest[..n], Mask(inc));
      if Rejected(inc, rest[..n]) {
        DrawsAgree(rest[n..], Refill(rand, rest[..n], GoMask(inc)), inc, fuel - 1);
      }
    }
  }

  /** A generator state of the port and one of the reference that stand for each other. */
  ghost predicate Related(st: State<seq<u8>>, go: GoState) {
    && go.rest == st.src && go.ms == st.ms && go.ent == st.ent && go.inc == st.inc
    && |go.rand| == 8 && (st.inc >= 2 ==> TailZero(go.rand, GoByteLen(st.inc)))
  }

  /** A call of the port over a slice, followed for as many draws as the slice can supply. */
  function RustStep(st: State<seq<u8>>, ms: u64): (State<seq<u8>>, Outcome<nat>)
    requires Fills(SliceRead)
  {
    ReadStep(SliceRead, st, ms, |st.src| + 1)
  }

  /** The bounds for which the port makes the same draws. */
  predicate Portable(inc: u64) {
    inc <= 1 || !IsPowerOfTwo(inc)
  }

  predicate ReadFailure<T>(r: Result<T>) {
    r.Err? && r.error.Read?
  }

  lemma {:induction false} IncrementsAgree(rest: seq<u8>, rand: seq<u8>, inc: u64)
    requires Fills(SliceRead) && Portable(inc) && |rand| == 8
    requires inc >= 2 ==> TailZero(rand, GoByteLen(inc))
    ensures var p, q := Increment(SliceRead, rest, inc, |rest| + 1), GoIncrement(rest, rand, inc);
            && !p.Undecided? && (p.Picked? <==> q.GoPicked?) && (p.Starved? ==> p.error == Read(UnexpectedEof))
            && (p.Picked? ==> q.rest == p.src && q.inc == p.inc && (inc >= 2 ==> TailZero(q.rand, GoByteLen(inc))))
  {
    hide Draws, GoDraws;
    if inc >= 2 {
      DrawsAgree(rest, rand, inc, |rest| + 1);
    }
  }

  /** One call: the two report the same result, or both report a failed read; otherwise the states stay related. */
  lemma {:induction false} StepsAgree(st: State<seq<u8>>, go: GoState, ms: u64)
    requires Fills(SliceRead) && Portable(st.inc) && Related(st, go)
    ensures RustStep(st, ms).1.Done?
    ensures var (st', out), (go', r) := RustStep(st, ms), GoStep(go, ms, 10);
            && (ReadFailure(out.result) <==> ReadFailure(r))
            && (!ReadFailure(r) ==> out.result == r && Related(st', go'))
  {
    IncrementsAgree(st.src, go.rand, st.inc);
    hide Increment, GoIncrement, TailZero, Num;
  }

  /**
   * The caller's ten bytes after such a call. On success both sides wrote the same. On failure the port wrote
   * nothing, while the reference wrote its accumulator, after an overflow already wrapped, or what it could read.
   */
  lemma {:induction false} BuffersCompared(st: State<seq<u8>>, go: GoState, ms: u64, before: seq<u8>,
                                           r: Result<()>, after: State<seq<u8>>, dst: seq<u8>)
    requires Fills(SliceRead) && Portable(st.inc) && Related(st, go) && |before| == 10 && st.ent < TWO_80
    requires Performed(RustStep(st, ms), after, r, Leavings(SliceRead, st, ms), before, dst, 0)
    ensures var buffer := GoBuffer(go, ms, before);
            && (r.Ok? ==> dst == buffer)
            && (r.Err? ==> dst == before)
            && (r == Err(MonotonicOverflow) ==> buffer == ToBE(after.ent, 10) && after.ent < st.ent)
            && (r.Err? && r.error.Read? && st.ent != 0 && st.ms == ms ==> buffer == ToBE(st.ent, 10))
            && (r.Err? && r.error.Read? && (st.ent == 0 || st.ms != ms) ==>
                  |st.src| < 10 && buffer[..|st.src|] == st.src && buffer[|st.src|..] == before[|st.src|..])
  {
    hide *;
    BuffersByStep(st, go, ms, before, r, after, dst);
    if st.ent == 0 || st.ms != ms {
      PortFailsShort(st, ms);
      PartialFillParts(before, st.src);
    }
    PortBufferAfter(st, ms, before, r, after, dst);
  }

  lemma {:induction false} BuffersByStep(st: State<seq<u8>>, go: GoState, ms: u64, before: seq<u8>,
                                         r: Result<()>, after: State<seq<u8>>, dst: seq<u8>)
    requires Fills(SliceRead) && Portable(st.inc) && Related(st, go) && |before| == 10 && st.ent < TWO_80
    requires Performed(RustStep(st, ms), after, r, Leavings(SliceRead, st, ms), before, dst, 0)
    ensures var buffer := GoBuffer(go, ms, before);
            && (r.Ok? ==> dst == buffer)
            && (r.Err? ==> dst == before)
            && (r == Err(MonotonicOverflow) ==> buffer == ToBE(after.ent, 10) && after.ent < st.ent)
            && (r.Err? && r.error.Read? ==>
                  buffer == if st.ent != 0 && st.ms == ms then ToBE(st.ent, 10) else PartialFill(before, st.src))
  {
    hide RustStep, GoStep, GoBuffer, ToDigits, ToBE, TailZero, PartialFill, Portable, Performed;
    StepsAgree(st, go, ms);
    GoBufferAfter(go, ms, before);
    OverflowWraps(st, ms);
    PortBufferAfter(st, ms, before, r, after, dst);
  }

  lemma {:induction false} PartialFillParts(buffer: seq<u8>, got: seq<u8>)
    ensures |got| <= |buffer| ==>
              PartialFill(buffer, got)[..|got|] == got && PartialFill(buffer, got)[|got|..] == buffer[|got|..]
  {
  }

  lemma {:induction false} PortFailsShort(st: State<seq<u8>>, ms: u64)
    requires Fills(SliceRead) && (st.ent == 0 || st.ms != ms)
    ensures RustStep(st, ms).1.Done? && (RustStep(st, ms).1.result.Err? ==> |st.src| < 10)
  {
    hide Num;
  }

  /** What the port's buffer holds, over a slice. */
  lemma {:induction false} PortBufferAfter(st: State<seq<u8>>, ms: u64, before: seq<u8>,
                                           r: Result<()>, after: State<seq<u8>>, dst: seq<u8>)
    requires Fills(SliceRead) && |before| == 10
    requires Performed(RustStep(st, ms), after, r, Leavings(SliceRead, st, ms), before, dst, 0)
    ensures after == RustStep(st, ms).0
    ensures match RustStep(st, ms).1
            case Done(Ok(value)) => r == Ok(()) && dst == ToBE(value, 10)
            case Done(Err(error)) => r == Err(error) && dst == before
            case Pending => false
  {
    hide RustStep, ToDigits;
    assert Leavings(SliceRead, st, ms) == map[] && Scatter(before, 0, map[]) == before;
    match RustStep(st, ms).1 {
      case Done(Ok(value)) => assert Splice(before, 0, ToBE(value, 10)) == ToBE(value, 10);
      case _ =>
    }
  }

  /** What the reference's buffer holds, by its own report. */
  lemma {:induction false} GoBufferAfter(go: GoState, ms: u64, before: seq<u8>)
    requires |go.rand| == 8 && |before| == 10
    ensures var (go', r) := GoStep(go, ms, 10);
            GoBuffer(go, ms, before) ==
            if r.Ok? || r == Err(MonotonicOverflow) then ToBE(go'.ent, 10)
            else if go.ent != 0 && go.ms == ms then ToBE(go.ent, 10) else PartialFill(before, go.rest)
    ensures var (go', r) := GoStep(go, ms, 10); r.Ok? ==> r.value == go'.ent
  {
    hide GoIncrement, PartialFill;
    if go.ent != 0 && go.ms == ms {
      var ten := ToBE(GoStep(go, ms, 10).0.ent, 10);
      hide ToDigits, Num;
      assert Splice(before, 0, ten) == ten;
    } else if |go.rest| >= 10 {
      DigitsOfNum(go.rest[..10], 256);
      hide ToDigits, Num;
    }
  }

  lemma {:induction false} OverflowWraps(st: State<seq<u8>>, ms: u64)
    requires Fills(SliceRead) && st.ent < TWO_80
    ensures var (st', out) := RustStep(st, ms);
            && (Overflowed(out) ==> st'.ent < st.ent)
            && (Success(out) ==> out.result.value == st'.ent)
  {
    OverflowIsExact(SliceRead, st, ms, |st.src| + 1);
    IncrementRange(SliceRead, st.src, st.inc, |st.src| + 1);
    StepFacts(SliceRead, st, ms, |st.src| + 1);
    hide ReadStep, Increment;
  }

  /** Where the two loops stop when the tape runs out: the port keeps the odd bytes, the reference has read them. */
  lemma {:induction false} DrawsStarve(rest: seq<u8>, rand: seq<u8>, inc: u64, fuel: nat)
    requires Fills(SliceRead) && inc >= 2 && !IsPowerOfTwo(inc) && fuel > |rest| && TailZero(rand, GoByteLen(inc))
    ensures var p, q := Draws(SliceRead, rest, inc, fuel), GoDraws(rest, rand, inc);
            p.Starved? && q.GoStarved? ==>
              && q.rest == [] && q.kind == (if p.src == [] then EOF else UnexpectedEof) && TailZero(q.rand, GoByteLen(inc))
    decreases |rest|
  {
    BitLengthsAgree(inc);
    ByteLenRange(inc);
    SliceDraw(rest, inc, fuel);
    assert GoByteLen(inc) == ByteLen(inc) && GoMask(inc) == Mask(inc);
    var n := ByteLen(inc);
    hide BitLen, Draws, Candidate, GoCandidate, Refill, ByteLen, GoByteLen, Mask, GoMask, IsPowerOfTwo;
    if |rest| >= n {
      CandidatesAgree(rand, rest[..n], Mask(inc));
      if Rejected(inc, rest[..n]) {
        DrawsStarve(rest[n..], Refill(rand, rest[..n], GoMask(inc)), inc, fuel - 1);
      }
    }
  }

  /**
   * After a failed read: both keep millisecond and accumulator; the port keeps the bytes that were too few, the
   * reference has consumed them. So the two errors and the two states agree exactly if there were none.
   */
  lemma {:induction false} FailuresCompared(st: State<seq<u8>>, go: GoState, ms: u64)
    requires Fills(SliceRead) && Portable(st.inc) && Related(st, go) && ReadFailure(GoStep(go, ms, 10).1)
    ensures var (st', out), (go', r) := RustStep(st, ms), GoStep(go, ms, 10);
            && out == Done(Err(Read(UnexpectedEof))) && r == Err(Read(if st'.src == [] then EOF else UnexpectedEof))
            && st'.ms == go'.ms == st.ms && st'.ent == go'.ent == st.ent && go'.rest == []
            && (Related(st', go') <==> st'.src == [])
  {
    StepsAgree(st, go, ms);
    if st.inc >= 2 {
      DrawsStarve(st.src, go.rand, st.inc, |st.src| + 1);
      DrawsAgree(st.src, go.rand, st.inc, |st.src| + 1);
    }
    hide Draws, GoDraws, TailZero, Num;
  }

  /** The reference draws from 2^bitLen buffers, with the bit length of the bound itself. */
  lemma {:induction false} ReferenceRange(inc: u64)
    requires inc >= 2
    ensures GoByteLen(inc) > 0
    ensures (GoMask(inc) + 1) * Pow(256, GoByteLen(inc) - 1) == Pow(2, BitLen(inc)) && inc < Pow(2, BitLen(inc)) <= 2 * inc
  {
    var k, n := BitLen(inc), GoByteLen(inc);
    GoByteLenRange(inc);
    BitLenBounds(inc);
    BytesAreEightBits(n - 1);
    PowAdd(2, MsbitLenOf(k), 8 * (n - 1));
    assert 8 * (n - 1) + MsbitLenOf(k) == k;
    assert Pow(2, k) == 2 * Pow(2, k - 1);
  }

  /**
   * Longer buffers, of which the port fills ten bytes and the reference, on a fresh read, all: for every bound that
   * agrees at ten bytes, the reports agree unless the tape has ten bytes but not the whole buffer; and where
   * both succeed the tapes stay together only in the increment branch or at ten bytes.
   */
  lemma {:induction false} LongerBuffers(st: State<seq<u8>>, go: GoState, ms: u64, len: nat)
    requires Fills(SliceRead) && Portable(st.inc) && Related(st, go) && len >= 10
    ensures var (st', out), (go', r) := RustStep(st, ms), GoStep(go, ms, len);
            var increments := st.ent != 0 && st.ms == ms;
            && (SameReport(out, r) <==> increments || |st.src| < 10 || len <= |st.src|)
            && (!SameReport(out, r) ==> out.result.Ok? && ReadFailure(r))
            && (SameReport(out, r) && r.Ok? ==> (Related(st', go') <==> increments || len == 10))
  {
    StepsAgree(st, go, ms);
    hide Increment, GoIncrement, TailZero, Num;
  }

  // ---------- Runs ----------

  /** The constructors' default: a bound of 0 becomes the largest 32-bit word. */
  function Bound(inc: u64): u64 {
    if inc == 0 then 0xFFFF_FFFF else inc
  }

  function RustAt(tape: seq<u8>, inc: u64, mss: seq<u64>, n: nat): State<seq<u8>>
    requires Fills(SliceRead) && n <= |mss|
  {
    if n == 0 then State(tape, 0, 0, Bound(inc)) else RustStep(RustAt(tape, inc, mss, n - 1), mss[n - 1]).0
  }

  function RustOut(tape: seq<u8>, inc: u64, mss: seq<u64>, n: nat): Outcome<nat>
    requires Fills(SliceRead) && n < |mss|
  {
    RustStep(RustAt(tape, inc, mss, n), mss[n]).1
  }

  function GoAt(tape: seq<u8>, inc: u64, mss: seq<u64>, n: nat): (st: GoState)
    requires n <= |mss|
    ensures |st.rand| == 8
  {
    if n == 0 then GoState(tape, 0, 0, Bound(inc), seq(8, _ => 0)) else GoStep(GoAt(tape, inc, mss, n - 1), mss[n - 1], 10).0
  }

  function GoOut(tape: seq<u8>, inc: u64, mss: seq<u64>, n: nat): Result<nat>
    requires n < |mss|
  {
    GoStep(GoAt(tape, inc, mss, n), mss[n], 10).1
  }

  /** Same success with the same entropy, same overflow, or a failed read on both sides. */
  predicate SameReport(a: Outcome<nat>, b: Result<nat>) {
    a.Done? && (a.result == b || (ReadFailure(a.result) && ReadFailure(b)))
  }

  /** The port reproduces the reference on every tape and call sequence, up to and including the first failed read. */
  ghost predicate Reproduces(inc: u64)
    requires Fills(SliceRead)
  {
    forall tape, mss, n: nat ::
      n < |mss| && (forall k :: 0 <= k < n ==> !ReadFailure(GoOut(tape, inc, mss, k)))
      ==> SameReport(RustOut(tape, inc, mss, n), GoOut(tape, inc, mss, n))
  }

  lemma {:induction false} BoundUnchanged(tape: seq<u8>, inc: u64, mss: seq<u64>, n: nat)
    requires Fills(SliceRead) && n <= |mss|
    ensures RustAt(tape, inc, mss, n).inc == Bound(inc)
  {
    hide Increment;
    if n > 0 {
      BoundUnchanged(tape, inc, mss, n - 1);
    }
  }

  lemma {:induction false} StatesStayRelated(tape: seq<u8>, inc: u64, mss: seq<u64>, n: nat)
    requires Fills(SliceRead) && Portable(Bound(inc)) && n <= |mss|
    requires forall k :: 0 <= k < n ==> !ReadFailure(GoOut(tape, inc, mss, k))
    ensures Related(RustAt(tape, inc, mss, n), GoAt(tape, inc, mss, n))
  {
    hide RustStep, GoStep, Portable;
    if n > 0 {
      StatesStayRelated(tape, inc, mss, n - 1);
      BoundUnchanged(tape, inc, mss, n - 1);
      assert !ReadFailure(GoOut(tape, inc, mss, n - 1));
      StepsAgree(RustAt(tape, inc, mss, n - 1), GoAt(tape, inc, mss, n - 1), mss[n - 1]);
    }
  }

  /** The tape on which a power of two tells the two apart: ten bytes for entropy 1, then one block. */
  function TellingByte(inc: nat): nat {
    var k := BitLen(inc) - 1;
    if k % 8 == 0 then 1 else Pow(2, k % 8) + 1
  }

  function TellingTape(inc: u64): seq<u8>
    requires inc >= 2 && TellingByte(inc) < 256 && ByteLen(inc) >= 1
  {
    ToBE(1, 10) + TellingBlock(inc)
  }

  function TellingBlock(inc: u64): (b: seq<u8>)
    requires inc >= 2 && TellingByte(inc) < 256 && ByteLen(inc) >= 1
    ensures |b| == ByteLen(inc)
  {
    [TellingByte(inc)] + seq(ByteLen(inc) - 1, _ => 0)
  }

  /** Lengths and masks on both sides when the bit lengths are `k` and `k + 1`. */
  lemma {:induction false} LengthsDiffer(inc: u64, k: nat)
    requires inc >= 2 && BitLen(inc) == k + 1 && BitLen(inc - 1) == k > 0
    ensures GoByteLen(inc) == ByteLen(inc) + if k % 8 == 0 then 1 else 0
  {
    hide BitLen;
  }

  lemma {:induction false} MasksDiffer(inc: u64, k: nat)
    requires inc >= 2 && BitLen(inc) == k + 1 && BitLen(inc - 1) == k > 0
    ensures k % 8 == 0 ==> Mask(inc) == 255 && TellingByte(inc) == 1
    ensures k % 8 != 0 ==> 1 <= Mask(inc) <= 127 && GoMask(inc) == 2 * Mask(inc) + 1 && TellingByte(inc) == Mask(inc) + 2
  {
    hide BitLen;
    var r := k % 8;
    if r > 0 {
      assert MsbitLenOf(k) == r && MsbitLenOf(k + 1) == r + 1;
      SmallPower(r);
    } else {
      assert Pow(2, 8) == 256;
    }
    hide Pow, MsbitLenOf;
  }

  lemma {:induction false} SmallPower(r: nat)
    requires 0 < r < 8
    ensures 2 <= Pow(2, r) <= 128 && Pow(2, r + 1) == 2 * Pow(2, r)
  {
    PowMonotone(2, 1, r);
    PowMonotone(2, r, 7);
    assert Pow(2, 7) == 128 && Pow(2, 1) == 2;
  }

  lemma {:induction false} TellingFacts(inc: u64)
    requires inc >= 2 && IsPowerOfTwo(inc)
    ensures 1 <= ByteLen(inc) <= 8 && TellingByte(inc) < 256
    ensures TellingByte(inc) % (Mask(inc) + 1) == 1
    ensures GoByteLen(inc) != ByteLen(inc) ==> GoByteLen(inc) > ByteLen(inc)
    ensures GoByteLen(inc) == ByteLen(inc) ==> 1 < TellingByte(inc) <= GoMask(inc)
  {
    var k := BitLen(inc - 1);
    BitLengthsAgree(inc);
    BitLenBounds(inc - 1);
    hide *;
    LengthsDiffer(inc, k);
    MasksDiffer(inc, k);
    ByteLenRange(inc);
    var m := Mask(inc) + 1;
    DivModUnique(TellingByte(inc), m, if k % 8 == 0 then 0 else 1, 1);
  }

  /** With one block left, the port draws 2. */
  lemma {:induction false} PortDrawsTwo(inc: u64, fuel: nat)
    requires Fills(SliceRead) && inc >= 2 && IsPowerOfTwo(inc) && fuel > 0
    requires 1 <= ByteLen(inc) && TellingByte(inc) < 256
    ensures Increment(SliceRead, TellingBlock(inc), inc, fuel) == Picked([], 2)
  {
    TellingFacts(inc);
    var b, n, block := TellingByte(inc), ByteLen(inc), TellingBlock(inc);
    MaskIsRemainder(inc, b);
    TellingCandidate(b, n, Mask(inc));
    SliceDraw(block, inc, fuel);
    assert block[..n] == block && block[n..] == [];
    hide TellingByte, BitLen, Draws, Candidate, ByteLen, Mask, IsPowerOfTwo, And;
  }

  lemma {:induction false} GoDraw(rest: seq<u8>, rand: seq<u8>, inc: u64)
    requires inc >= 2 && |rand| == 8
    ensures 1 <= GoByteLen(inc) <= 8
    ensures var n, q := GoByteLen(inc), GoDraws(rest, rand, inc);
            if |rest| < n then q.GoStarved?
            else
              var rand' := Refill(rand, rest[..n], GoMask(inc));
              var c := GoCandidate(rand', n);
              q == if c == 0 || c >= inc then GoDraws(rest[n..], rand', inc) else GoPicked(rest[n..], rand', 1 + c)
  {
    GoByteLenRange(inc);
    hide GoByteLen, GoMask, Refill, GoCandidate;
  }

  /** On that block, the reference does not. */
  lemma {:induction false} ReferenceDoesNot(inc: u64, rand: seq<u8>)
    requires inc >= 2 && IsPowerOfTwo(inc)
    requires |rand| == 8 && forall i :: 0 <= i < 8 ==> rand[i] == 0
    requires 1 <= ByteLen(inc) && TellingByte(inc) < 256
    ensures var q := GoIncrement(TellingBlock(inc), rand, inc); q.GoPicked? ==> q.inc != 2
  {
    TellingFacts(inc);
    GoByteLenRange(inc);
    var b, n, block := TellingByte(inc), ByteLen(inc), TellingBlock(inc);
    if GoByteLen(inc) == n {
      TellingCandidate(b, n, GoMask(inc));
      CandidatesAgree(rand, block, GoMask(inc));
      GoMaskKeeps(inc, b);
      assert block[..n] == block && block[n..] == [];
      GoDraw([], Refill(rand, block, GoMask(inc)), inc);
    }
    GoDraw(block, rand, inc);
    hide GoDraws, TellingByte, BitLen, Candidate, GoCandidate, Refill, ByteLen, GoByteLen, GoMask, IsPowerOfTwo, And;
  }

  lemma {:induction false} GoMaskKeeps(inc: nat, b: u8)
    requires b <= GoMask(inc)
    ensures And(b, GoMask(inc)) == b
  {
    var k := MsbitLenOf(BitLen(inc));
    AndLowMask(b, k);
    ModSmall(b, Pow(2, k));
  }

  lemma {:induction false} TellingCandidate(b: u8, n: nat, mask: nat)
    requires n >= 1
    ensures Candidate(mask, [b] + seq(n - 1, _ => 0)) == And(b, mask)
  {
    hide And;
    var block := [b] + seq(n - 1, _ => 0);
    assert [And(b, mask)] + block[1..] == [And(b, mask)] + seq(n - 1, _ => 0);
    LittleEndianPadding([And(b, mask)], n - 1);
    assert NumLE([And(b, mask)][1..], 256) == 0;
  }

  lemma {:induction false} PowersOfTwoDiffer(inc: u64)
    requires Fills(SliceRead) && inc >= 2 && IsPowerOfTwo(inc)
    ensures !Reproduces(inc)
  {
    TellingFacts(inc);
    var tape, mss := TellingTape(inc), [0, 0];
    var block, zeros := TellingBlock(inc), seq(8, _ => 0);
    hide BitLen, TellingByte, ByteLen, TellingBlock, IsPowerOfTwo;
    assert tape[..10] == ToBE(1, 10) && tape[10..] == block;
    assert Num(tape[..10], 256) == 1 by { WordPowers(); DigitsNum(1, 256, 10); }
    PortDrawsTwo(inc, |block| + 1);
    ReferenceDoesNot(inc, zeros);
    hide Num, ToDigits, Increment, GoIncrement;
    assert RustAt(tape, inc, mss, 0) == State(tape, 0, 0, inc) && GoAt(tape, inc, mss, 0) == GoState(tape, 0, 0, inc, zeros);
    assert RustAt(tape, inc, mss, 1) == State(block, 0, 1, inc);
    assert GoAt(tape, inc, mss, 1) == GoState(block, 0, 1, inc, zeros);
    assert RustOut(tape, inc, mss, 1) == Done(Ok(3));
    assert !ReadFailure(GoOut(tape, inc, mss, 0));
    assert !SameReport(RustOut(tape, inc, mss, 1), GoOut(tape, inc, mss, 1));
  }

  /** The port reproduces the reference exactly for the bounds that are 0, 1 or not a power of two. */
  lemma {:induction false} PortEquivalence(inc: u64)
    requires Fills(SliceRead)
    ensures Reproduces(inc) <==> inc <= 1 || !IsPowerOfTwo(inc)
  {
    DefaultBoundIsPortable();
    hide IsPowerOfTwo, RustStep, GoStep;
    if inc <= 1 || !IsPowerOfTwo(inc) {
      forall tape: seq<u8>, mss: seq<u64>, n: nat
        | n < |mss| && (forall k :: 0 <= k < n ==> !ReadFailure(GoOut(tape, inc, mss, k)))
        ensures SameReport(RustOut(tape, inc, mss, n), GoOut(tape, inc, mss, n))
      {
        StatesStayRelated(tape, inc, mss, n);
        BoundUnchanged(tape, inc, mss, n);
        StepsAgree(RustAt(tape, inc, mss, n), GoAt(tape, inc, mss, n), mss[n]);
      }
    } else {
      PowersOfTwoDiffer(inc);
    }
  }

  lemma {:induction false} DefaultBoundIsPortable()
    ensures !IsPowerOfTwo(0xFFFF_FFFF)
  {
  }
}
