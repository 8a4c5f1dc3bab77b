/** What the rejection loop of `random` can return, and when it stops. */
module RandomOutcomes {
  import opened Bits
  import opened Errors
  import opened PlaceValue
  import opened Entropy
  import opened Monotonic
  import opened Ulids
  import opened Runs

  // ---------- Termination ----------

  /** Following more draws never changes a decided outcome. */
  lemma {:induction false} FuelAgrees<S(!new)>(read: Reader<S>, src: S, inc: nat, fuel: nat, more: nat)
    requires Fills(read) && inc >= 2 && ByteLen(inc) > 0 && fuel <= more
    requires !Draws(read, src, inc, fuel).Undecided?
    ensures Draws(read, src, inc, more) == Draws(read, src, inc, fuel)
    decreases fuel
  {
    var (src', d) := read(src, ByteLen(inc));
    if d.Filled? {
      var c := Candidate(Mask(inc), d.bytes);
      if c == 0 || c >= inc {
        FuelAgrees(read, src', inc, fuel - 1, more - 1);
      }
    }
  }

  /** A slice meets the contract of a source, which the lemmas below take as a hypothesis. */
  lemma {:induction false} SliceFills()
    ensures Fills(SliceRead)
  {
  }

  /** So do the zeros. */
  lemma {:induction false} ZeroFills()
    ensures Fills(ZeroRead)
  {
  }

  predicate Rejected(inc: nat, bytes: seq<u8>)
    requires inc >= 2 && |bytes| > 0
  {
    var c := Candidate(Mask(inc), bytes);
    c == 0 || c >= inc
  }

  /** The first `blocks` blocks of the tape are rejected. */
  ghost predicate AllRejected(tape: seq<u8>, inc: nat, blocks: nat)
    requires inc >= 2 && ByteLen(inc) > 0
    decreases blocks
  {
    var n := ByteLen(inc);
    blocks > 0 ==> n <= |tape| && Rejected(inc, tape[..n]) && AllRejected(tape[n..], inc, blocks - 1)
  }

  /** `rest` is what is left of the tape after a number of whole blocks of `n` bytes. */
  ghost predicate LeftAfter(tape: seq<u8>, rest: seq<u8>, n: nat, blocks: nat) {
    |rest| <= |tape| && |tape| - |rest| == n * blocks && rest == tape[|tape| - |rest|..]
  }

  lemma {:induction false} OneMoreBlock(tape: seq<u8>, rest: seq<u8>, n: nat, blocks: nat)
    requires n <= |tape| && LeftAfter(tape[n..], rest, n, blocks)
    ensures LeftAfter(tape, rest, n, blocks + 1)
  {
  }

  /** The block of `n` bytes before the unread `rest` is not rejected, and gives the increment `v`. */
  ghost predicate LastBlockGives(tape: seq<u8>, rest: seq<u8>, inc: nat, v: nat)
    requires inc >= 2 && ByteLen(inc) > 0
  {
    var n, at := ByteLen(inc), |tape| - |rest|;
    n <= at <= |tape| && !Rejected(inc, tape[at - n..at]) && v == 1 + Candidate(Mask(inc), tape[at - n..at])
  }

  lemma {:induction false} LastBlockOfTail(tape: seq<u8>, rest: seq<u8>, inc: nat, v: nat)
    requires inc >= 2 && 0 < ByteLen(inc) <= |tape|
    requires LastBlockGives(tape[ByteLen(inc)..], rest, inc, v)
    ensures LastBlockGives(tape, rest, inc, v)
  {
    hide ByteLen;
    var n, at := ByteLen(inc), |tape| - |rest|;
    assert tape[n..][at - n - n..at - n] == tape[at - n..at];
  }

  lemma {:induction false} SliceDraw(tape: seq<u8>, inc: nat, fuel: nat)
    requires Fills(SliceRead) && inc >= 2 && ByteLen(inc) > 0 && fuel > 0
    ensures var n, p := ByteLen(inc), Draws(SliceRead, tape, inc, fuel);
            if |tape| < n then p == Starved(tape, Read(UnexpectedEof))
            else if Rejected(inc, tape[..n]) then p == Draws(SliceRead, tape[n..], inc, fuel - 1)
            else p == Picked(tape[n..], 1 + Candidate(Mask(inc), tape[..n]))
  {
  }

  /** The loop stopped on `tape` after rejecting `rejections` blocks: by accepting the next one, or at the end of the tape. */
  ghost predicate Stopped(tape: seq<u8>, inc: nat, p: Pick<seq<u8>>, rejections: nat)
    requires inc >= 2 && ByteLen(inc) > 0
  {
    && AllRejected(tape, inc, rejections)
    && match p
       case Undecided => false
       case Picked(src, v) => LeftAfter(tape, src, ByteLen(inc), rejections + 1) && LastBlockGives(tape, src, inc, v)
       case Starved(src, error) =>
         LeftAfter(tape, src, ByteLen(inc), rejections) && |src| < ByteLen(inc) && error == Read(UnexpectedEof)
  }

  lemma {:induction false} StoppedAtOnce(tape: seq<u8>, inc: nat)
    requires inc >= 2 && ByteLen(inc) > 0
    ensures var n := ByteLen(inc);
            if |tape| < n then Stopped(tape, inc, Starved(tape, Read(UnexpectedEof)), 0)
            else !Rejected(inc, tape[..n]) ==>
                   Stopped(tape, inc, Picked(tape[n..], 1 + Candidate(Mask(inc), tape[..n])), 0)
  {
    hide ByteLen, Mask, Candidate, Rejected;
    assert tape[0..] == tape;
  }

  lemma {:induction false} OneMoreRejection(tape: seq<u8>, inc: nat, p: Pick<seq<u8>>, k: nat)
    requires inc >= 2 && 0 < ByteLen(inc) <= |tape| && Rejected(inc, tape[..ByteLen(inc)])
    requires Stopped(tape[ByteLen(inc)..], inc, p, k)
    ensures Stopped(tape, inc, p, k + 1)
  {
    hide ByteLen, LeftAfter, LastBlockGives, Rejected;
    var n := ByteLen(inc);
    match p {
      case Picked(src, v) =>
        OneMoreBlock(tape, src, n, k + 1);
        LastBlockOfTail(tape, src, inc, v);
      case Starved(src, _) =>
        OneMoreBlock(tape, src, n, k);
    }
  }

  /**
   * Over a slice the loop always stops: it rejects some number of whole blocks and then either accepts the
   * next one, or reports the end of the slice with fewer bytes left than a block and nothing further consumed.
   */
  lemma {:induction false} SliceTerminates(tape: seq<u8>, inc: u64, fuel: nat) returns (rejections: nat)
    requires Fills(SliceRead) && inc >= 2 && fuel > |tape|
    ensures 1 <= ByteLen(inc) <= 8
    ensures Stopped(tape, inc, Draws(SliceRead, tape, inc, fuel), rejections)
    decreases |tape|
  {
    ByteLenRange(inc);
    SliceDraw(tape, inc, fuel);
    hide Candidate, Mask, ByteLen, Draws, Stopped;
    var n := ByteLen(inc);
    if n <= |tape| && Rejected(inc, tape[..n]) {
      var k := SliceTerminates(tape[n..], inc, fuel - 1);
      OneMoreRejection(tape, inc, Draws(SliceRead, tape, inc, fuel), k);
      rejections := k + 1;
    } else {
      StoppedAtOnce(tape, inc);
      rejections := 0;
    }
  }

  /** `ZeroReader` with a bound of 2 or more never settles: no number of draws decides the loop. */
  lemma {:induction false} ZerosNeverSettle(inc: u64, fuel: nat)
    requires Fills(ZeroRead) && inc >= 2
    ensures 1 <= ByteLen(inc) && Draws(ZeroRead, (), inc, fuel).Undecided?
    decreases fuel
  {
    ByteLenRange(inc);
    if fuel > 0 {
      var zeros := ZeroRead((), ByteLen(inc)).1.bytes;
      ZeroCandidate(Mask(inc), zeros);
      hide Candidate, Mask, ByteLen;
      ZerosNeverSettle(inc, fuel - 1);
    }
  }

  lemma {:induction false} ZeroCandidate(mask: nat, zeros: seq<u8>)
    requires |zeros| > 0 && forall i :: 0 <= i < |zeros| ==> zeros[i] == 0
    ensures Candidate(mask, zeros) == 0
  {
    assert [And(zeros[0], mask)] + zeros[1..] == [] + seq(|zeros|, _ => 0);
    LittleEndianPadding([], |zeros|);
  }

  /** Yet it never comes to that: from a fresh generator every call draws afresh, and is answered with zeros. */
  lemma {:induction false} ZerosNeverIncrement(st: State<()>, reqs: seq<Request>, n: nat)
    requires Fills(ZeroRead) && st.ent == 0 && n < |reqs|
    ensures StateAt(ZeroRead, st, reqs, n).ent == 0
    ensures Output(ZeroRead, st, reqs, n) ==
            Done(if reqs[n].ms > MAX_TIME then Err(BigTime) else Ok(ToBE(reqs[n].ms, 6) + ToBE(0, 10)))
    decreases n
  {
    if n > 0 {
      ZerosNeverIncrement(st, reqs, n - 1);
      var s, r := StateAt(ZeroRead, st, reqs, n - 1), reqs[n - 1];
      ZeroCall(s, r.ms, r.fuel);
      AsidesKeep(ZeroRead, NewStep(ZeroRead, s, r.ms, r.fuel).0, r.asides);
    }
    hide NewStep, ToBE, Interleaved;
    ZeroCall(StateAt(ZeroRead, st, reqs, n), reqs[n].ms, reqs[n].fuel);
  }

  lemma {:induction false} ZeroCall(st: State<()>, ms: u64, fuel: nat)
    requires Fills(ZeroRead) && st.ent == 0
    ensures NewStep(ZeroRead, st, ms, fuel).0.ent == 0
    ensures NewStep(ZeroRead, st, ms, fuel).1 ==
            Done(if ms > MAX_TIME then Err(BigTime) else Ok(ToBE(ms, 6) + ToBE(0, 10)))
  {
    var zeros := ZeroRead((), 10).1.bytes;
    ZeroDigits(zeros);
    hide ToBE, Num;
  }

  lemma {:induction false} ZeroDigits(zeros: seq<u8>)
    requires forall i :: 0 <= i < |zeros| ==> zeros[i] == 0
    ensures Num(zeros, 256) == 0
    decreases |zeros|
  {
    if |zeros| > 0 {
      ZeroDigits(zeros[..|zeros| - 1]);
    }
  }

  // ---------- The values that can be returned ----------

  lemma {:induction false} LittleEndianInjective(a: seq<nat>, b: seq<nat>)
    requires |a| == |b| && Below(a, 256) && Below(b, 256) && NumLE(a, 256) == NumLE(b, 256)
    ensures a == b
  {
    if |a| > 0 {
      LittleEndianInjective(a[1..], b[1..]);
      assert a == [a[0]] + a[1..] && b == [b[0]] + b[1..];
    }
  }

  /** A buffer the mask leaves alone; every draw is masked to exactly one of these. */
  ghost predicate MaskedBuffer(inc: nat, bytes: seq<u8>)
    requires inc >= 2
  {
    |bytes| == ByteLen(inc) > 0 && bytes[0] <= Mask(inc)
  }

  lemma {:induction false} MaskIsRemainder(inc: nat, b: u8)
    requires inc >= 2
    ensures And(b, Mask(inc)) == b % (Mask(inc) + 1) <= Mask(inc)
    ensures b <= Mask(inc) ==> And(b, Mask(inc)) == b
  {
    var k := MsbitLenOf(BitLen(inc - 1));
    AndLowMask(b, k);
    DivModRange(b, Pow(2, k));
    if b <= Mask(inc) {
      ModSmall(b, Pow(2, k));
    }
  }

  /** Some tape makes the loop return `v`. */
  ghost predicate CanReturn(inc: u64, v: nat)
    requires inc >= 2
  {
    SliceFills();
    exists tape: seq<u8>, fuel: nat ::
      Increment(SliceRead, tape, inc, fuel).Picked? && Increment(SliceRead, tape, inc, fuel).inc == v
  }

  /** Some masked buffer is accepted and gives `v`. */
  ghost predicate Given(inc: nat, v: nat)
    requires inc >= 2
  {
    exists bytes: seq<u8> :: MaskedBuffer(inc, bytes) && !Rejected(inc, bytes) && v == 1 + Candidate(Mask(inc), bytes)
  }

  lemma {:induction false} MaskedGives(inc: nat, bytes: seq<u8>)
    requires inc >= 2 && |bytes| == ByteLen(inc) > 0 && !Rejected(inc, bytes)
    ensures Given(inc, 1 + Candidate(Mask(inc), bytes))
  {
    var masked := [And(bytes[0], Mask(inc))] + bytes[1..];
    MaskIsRemainder(inc, bytes[0]);
    MaskIsRemainder(inc, masked[0]);
    hide Mask, ByteLen, And, NumLE;
    assert masked[1..] == bytes[1..];
    assert MaskedBuffer(inc, masked) && Candidate(Mask(inc), masked) == Candidate(Mask(inc), bytes);
  }

  lemma {:induction false} DrawsAreGiven<S(!new)>(read: Reader<S>, src: S, inc: nat, fuel: nat)
    requires Fills(read) && inc >= 2 && ByteLen(inc) > 0
    ensures var p := Draws(read, src, inc, fuel); p.Picked? ==> Given(inc, p.inc)
    decreases fuel
  {
    hide Candidate, Mask, ByteLen, Given;
    if fuel > 0 {
      var (src', d) := read(src, ByteLen(inc));
      DrawsAreGiven(read, src', inc, fuel - 1);
      if d.Filled? && !Rejected(inc, d.bytes) {
        MaskedGives(inc, d.bytes);
      }
    }
  }

  lemma {:induction false} GivenIsDrawn(inc: u64, bytes: seq<u8>)
    requires Fills(SliceRead) && inc >= 2 && |bytes| == ByteLen(inc) > 0 && !Rejected(inc, bytes)
    ensures Increment(SliceRead, bytes, inc, 1) == Picked([], 1 + Candidate(Mask(inc), bytes))
  {
    SliceDraw(bytes, inc, 1);
    hide Candidate, Mask, ByteLen, Draws;
    assert bytes[..|bytes|] == bytes && bytes[|bytes|..] == [];
  }

  lemma {:induction false} ReturnedIsGiven(inc: u64, v: nat)
    requires inc >= 2
    ensures CanReturn(inc, v) <==> Given(inc, v)
  {
    SliceFills();
    ByteLenRange(inc);
    hide Candidate, Mask, ByteLen, Draws, Rejected;
    if Given(inc, v) {
      var bytes: seq<u8> :| MaskedBuffer(inc, bytes) && !Rejected(inc, bytes) && v == 1 + Candidate(Mask(inc), bytes);
      GivenIsDrawn(inc, bytes);
    }
    if CanReturn(inc, v) {
      var tape: seq<u8>, fuel: nat :|
        Increment(SliceRead, tape, inc, fuel).Picked? && Increment(SliceRead, tape, inc, fuel).inc == v;
      DrawsAreGiven(SliceRead, tape, inc, fuel);
    }
  }

  /** What any source makes the loop return, some tape does. */
  lemma {:induction false} AnySourceReturns<S(!new)>(read: Reader<S>, src: S, inc: u64, fuel: nat)
    requires Fills(read) && inc >= 2
    ensures var p := Increment(read, src, inc, fuel); p.Picked? ==> CanReturn(inc, p.inc)
  {
    ByteLenRange(inc);
    DrawsAreGiven(read, src, inc, fuel);
    hide Draws, ByteLen, Given, CanReturn;
    var p := Increment(read, src, inc, fuel);
    if p.Picked? {
      ReturnedIsGiven(inc, p.inc);
    }
  }

  lemma {:induction false} CandidateOfMasked(inc: nat, bytes: seq<u8>)
    requires inc >= 2 && MaskedBuffer(inc, bytes)
    ensures Candidate(Mask(inc), bytes) == NumLE(bytes, 256)
    ensures Candidate(Mask(inc), bytes) % 256 == bytes[0]
  {
    MaskIsRemainder(inc, bytes[0]);
    hide Mask, And, ByteLen;
    assert [bytes[0]] + bytes[1..] == bytes;
    assert NumLE(bytes, 256) == bytes[0] + 256 * NumLE(bytes[1..], 256);
    hide NumLE;
    DivModUnique(NumLE(bytes, 256), 256, NumLE(bytes[1..], 256), bytes[0]);
  }

  /** 2^bitLen candidates: the masked low byte times the free upper bytes. */
  lemma {:induction false} BoundFits(inc: u64)
    requires inc >= 2
    ensures inc <= Pow(256, ByteLen(inc)) && Mask(inc) >= 1
  {
    ByteLenRange(inc);
    BitLenBounds(inc - 1);
    PowMonotone(2, BitLen(inc - 1), 8 * ByteLen(inc));
    BytesAreEightBits(ByteLen(inc));
    var k := MsbitLenOf(BitLen(inc - 1));
    PowMonotone(2, 1, k);
  }

  lemma {:induction false} BytesAreEightBits(n: nat)
    ensures Pow(2, 8 * n) == Pow(256, n)
  {
    if n > 0 {
      BytesAreEightBits(n - 1);
      PowAdd(2, 8, 8 * (n - 1));
      assert Pow(2, 8) == 256;
    }
  }

  lemma {:induction false} GivenExactly(inc: u64, v: nat)
    requires inc >= 2
    ensures Given(inc, v) <==> 2 <= v <= inc && (v - 1) % 256 <= Mask(inc)
    ensures Mask(inc) >= 1
  {
    BoundFits(inc);
    ByteLenRange(inc);
    hide Mask, ByteLen, Candidate;
    if Given(inc, v) {
      var bytes: seq<u8> :| MaskedBuffer(inc, bytes) && !Rejected(inc, bytes) && v == 1 + Candidate(Mask(inc), bytes);
      CandidateOfMasked(inc, bytes);
    }
    if 2 <= v <= inc && (v - 1) % 256 <= Mask(inc) {
      var bytes := ToLE(v - 1, ByteLen(inc));
      LittleEndianDigits(v - 1, ByteLen(inc));
      assert MaskedBuffer(inc, bytes);
      CandidateOfMasked(inc, bytes);
    }
  }

  /**
   * Exactly the values 1 + c with 1 <= c < inc whose low byte survives the mask can be returned by the loop.
   */
  lemma {:induction false} OutcomeSet(inc: u64, v: nat)
    requires inc >= 2
    ensures CanReturn(inc, v) <==> 2 <= v <= inc && (v - 1) % 256 <= Mask(inc)
    ensures CanReturn(inc, 2)
  {
    hide Mask, CanReturn, Given;
    GivenExactly(inc, v);
    ReturnedIsGiven(inc, v);
    GivenExactly(inc, 2);
    ReturnedIsGiven(inc, 2);
  }

  /** No two masked buffers give the same candidate. */
  lemma {:induction false} OneBufferEach(inc: nat, a: seq<u8>, b: seq<u8>)
    requires inc >= 2 && MaskedBuffer(inc, a) && MaskedBuffer(inc, b)
    requires Candidate(Mask(inc), a) == Candidate(Mask(inc), b)
    ensures a == b
  {
    CandidateOfMasked(inc, a);
    CandidateOfMasked(inc, b);
    LittleEndianInjective(a, b);
  }

  /** The whole range [2, inc] is reachable exactly when the mask falls on the most significant byte or on none. */
  lemma {:induction false} FullRange(inc: u64)
    requires inc >= 2
    ensures (forall v :: 2 <= v <= inc ==> CanReturn(inc, v))
            <==> BitLen(inc - 1) <= 8 || BitLen(inc - 1) % 8 == 0
  {
    var k := BitLen(inc - 1);
    hide *;
    if k <= 8 || k % 8 == 0 {
      forall v | 2 <= v <= inc ensures CanReturn(inc, v) {
        Covered(inc, v);
      }
    } else {
      NarrowMask(inc);
      OutcomeSet(inc, 256);
    }
  }

  lemma {:induction false} Covered(inc: u64, v: nat)
    requires 2 <= v <= inc && (BitLen(inc - 1) <= 8 || BitLen(inc - 1) % 8 == 0)
    ensures CanReturn(inc, v)
  {
    BitLenBounds(inc - 1);
    hide BitLen, Pow, Mask, CanReturn;
    OutcomeSet(inc, v);
    MaskCovers(inc, v - 1);
  }

  /** A mask meant for the top byte but applied to the low one: 256 would need a low byte of 255. */
  lemma {:induction false} NarrowMask(inc: u64)
    requires inc >= 2 && BitLen(inc - 1) > 8 && BitLen(inc - 1) % 8 != 0
    ensures inc > 256 && Mask(inc) < 128
  {
    var k := BitLen(inc - 1);
    BitLenBounds(inc - 1);
    PowMonotone(2, 8, k - 1);
    PowMonotone(2, k % 8, 7);
    assert Pow(2, 8) == 256 && Pow(2, 7) == 128;
    hide Pow, BitLen;
  }

  ghost predicate IsCandidate(inc: nat, c: nat)
    requires inc >= 2
  {
    exists bytes: seq<u8> :: MaskedBuffer(inc, bytes) && Candidate(Mask(inc), bytes) == c
  }

  /** In that case the masked buffers are exactly the numbers below 2^bitLen. */
  lemma {:induction false} Contiguous(inc: u64, c: nat)
    requires inc >= 2 && (BitLen(inc - 1) <= 8 || BitLen(inc - 1) % 8 == 0)
    ensures IsCandidate(inc, c) <==> c < Pow(2, BitLen(inc - 1))
    ensures inc <= Pow(2, BitLen(inc - 1)) <= 2 * (inc - 1)
  {
    var k := BitLen(inc - 1);
    BitLenBounds(inc - 1);
    ByteLenRange(inc);
    BytesAreEightBits(ByteLen(inc));
    CandidatesAreBounded(inc);
    if c < Pow(2, k) {
      var bytes := ToLE(c, ByteLen(inc));
      PowMonotone(2, k, 8 * ByteLen(inc));
      LittleEndianDigits(c, ByteLen(inc));
      MaskCovers(inc, c);
      assert MaskedBuffer(inc, bytes);
      CandidateOfMasked(inc, bytes);
      assert IsCandidate(inc, c);
    }
  }

  lemma {:induction false} MaskValue(inc: u64)
    requires inc >= 2
    ensures var k := BitLen(inc - 1);
            && (k <= 8 ==> 1 <= Pow(2, k) - 1 == Mask(inc) < 256 && ByteLen(inc) == 1)
            && (k % 8 == 0 ==> Mask(inc) == 255)
  {
    var k := BitLen(inc - 1);
    BitLenBounds(inc - 1);
    assert Pow(2, 8) == 256;
    hide BitLen;
    if k <= 8 {
      PowMonotone(2, 1, k);
      hide Pow;
      assert MsbitLenOf(k) == k;
    }
  }

  lemma {:induction false} MaskCovers(inc: u64, c: nat)
    requires inc >= 2 && (BitLen(inc - 1) <= 8 || BitLen(inc - 1) % 8 == 0) && c < Pow(2, BitLen(inc - 1))
    ensures c % 256 <= Mask(inc)
  {
    MaskValue(inc);
    hide Mask, Pow;
  }

  lemma {:induction false} CandidatesAreBounded(inc: u64)
    requires inc >= 2 && (BitLen(inc - 1) <= 8 || BitLen(inc - 1) % 8 == 0)
    ensures forall c: nat :: IsCandidate(inc, c) ==> c < Pow(2, BitLen(inc - 1))
  {
    forall c: nat | IsCandidate(inc, c) ensures c < Pow(2, BitLen(inc - 1)) {
      var bytes: seq<u8> :| MaskedBuffer(inc, bytes) && Candidate(Mask(inc), bytes) == c;
      BufferBound(inc, bytes);
    }
  }

  lemma {:induction false} BufferBound(inc: u64, bytes: seq<u8>)
    requires inc >= 2 && MaskedBuffer(inc, bytes)
    requires BitLen(inc - 1) <= 8 || BitLen(inc - 1) % 8 == 0
    ensures Candidate(Mask(inc), bytes) < Pow(2, BitLen(inc - 1))
  {
    ByteLenRange(inc);
    MaskValue(inc);
    CandidateOfMasked(inc, bytes);
    hide Mask, Candidate, Pow, BitLen, NumLE;
    if BitLen(inc - 1) % 8 == 0 {
      assert 8 * ByteLen(inc) == BitLen(inc - 1);
      LittleEndianBound(bytes);
      BytesAreEightBits(ByteLen(inc));
    } else {
      OneByte(bytes);
    }
  }

  // ---------- How many buffers are accepted ----------

  /** The numbers below `n` whose low byte is at most `mask`. */
  ghost function Passing(mask: nat, n: nat): set<nat> {
    set c: nat | c < n && c % 256 <= mask
  }

  /** How many numbers below `inc` have a low byte below `m`: whole rows of 256, and the part of a last one. */
  function Rows(inc: nat, m: nat): nat {
    inc / 256 * m + if inc % 256 < m then inc % 256 else m
  }

  lemma {:induction false} PassingCount(mask: nat, n: nat)
    requires mask < 256
    ensures |Passing(mask, n)| == Rows(n, mask + 1)
  {
    if n == 0 {
      assert Passing(mask, 0) == {};
    } else {
      hide Rows;
      PassingCount(mask, n - 1);
      RowsGrow(n - 1, mask + 1);
      PassingGrows(mask, n - 1);
      hide Passing;
    }
  }

  lemma {:induction false} PassingGrows(mask: nat, n: nat)
    ensures |Passing(mask, n + 1)| == |Passing(mask, n)| + if n % 256 <= mask then 1 else 0
  {
    if n % 256 <= mask {
      assert Passing(mask, n + 1) == Passing(mask, n) + {n};
    } else {
      assert Passing(mask, n + 1) == Passing(mask, n);
    }
  }

  lemma {:induction false} RowsGrow(n: nat, m: nat)
    requires m <= 256
    ensures Rows(n + 1, m) == Rows(n, m) + if n % 256 < m then 1 else 0
  {
    OneMoreNumber(n);
    NextRow((n + 1) / 256, n / 256, m);
  }

  lemma {:induction false} OneMoreNumber(n: nat)
    ensures if n % 256 == 255 then (n + 1) % 256 == 0 && (n + 1) / 256 == n / 256 + 1
            else (n + 1) % 256 == n % 256 + 1 && (n + 1) / 256 == n / 256
  {
  }

  lemma {:induction false} NextRow(a: nat, b: nat, m: nat)
    ensures a == b + 1 ==> a * m == b * m + m
  {
  }

  /** The little-endian buffers of `n` bytes that hold some numbers. */
  ghost function Buffers(numbers: set<nat>, n: nat): set<seq<u8>> {
    set c | c in numbers :: ToLE(c, n)
  }

  /** All masked buffers. */
  ghost function MaskedBuffers(inc: u64): set<seq<u8>>
    requires inc >= 2
  {
    Buffers(Passing(Mask(inc), Pow(256, ByteLen(inc))), ByteLen(inc))
  }

  ghost function AcceptedBuffers(inc: u64): set<seq<u8>>
    requires inc >= 2
  {
    set b | b in MaskedBuffers(inc) && |b| > 0 && !Rejected(inc, b)
  }

  lemma {:induction false} OneMoreBuffer(numbers: set<nat>, c: nat, n: nat)
    requires c !in numbers && c < Pow(256, n) && forall d :: d in numbers ==> d < Pow(256, n)
    ensures Buffers(numbers + {c}, n) == Buffers(numbers, n) + {ToLE(c, n)} && ToLE(c, n) !in Buffers(numbers, n)
  {
    hide ToLE, Pow;
    LittleEndianDigits(c, n);
    forall d | d in numbers ensures ToLE(d, n) != ToLE(c, n) {
      LittleEndianDigits(d, n);
    }
  }

  lemma {:induction false} BufferCount(numbers: set<nat>, n: nat)
    requires forall c :: c in numbers ==> c < Pow(256, n)
    ensures |Buffers(numbers, n)| == |numbers|
    decreases |numbers|
  {
    if numbers != {} {
      var c :| c in numbers;
      var fewer := numbers - {c};
      BufferCount(fewer, n);
      OneMoreBuffer(fewer, c, n);
      hide Buffers;
      assert fewer + {c} == numbers;
    }
  }

  lemma {:induction false} MaskedBytes(inc: u64, bytes: seq<u8>)
    requires inc >= 2
    ensures bytes in MaskedBuffers(inc) <==> MaskedBuffer(inc, bytes)
  {
    ByteLenRange(inc);
    var n := ByteLen(inc);
    hide Mask, ByteLen, Pow, ToLE, Candidate;
    if bytes in MaskedBuffers(inc) {
      var c :| c in Passing(Mask(inc), Pow(256, n)) && bytes == ToLE(c, n);
      LowByte(c, n);
    }
    if MaskedBuffer(inc, bytes) {
      var c := NumLE(bytes, 256);
      CandidateOfMasked(inc, bytes);
      LittleEndianBound(bytes);
      LittleEndianDigits(c, n);
      LittleEndianInjective(bytes, ToLE(c, n));
      assert c in Passing(Mask(inc), Pow(256, n));
    }
  }

  lemma {:induction false} LowByte(c: nat, n: nat)
    requires n > 0
    ensures ToLE(c, n)[0] == c % 256
  {
  }

  lemma {:induction false} AcceptedNumber(inc: u64, c: nat)
    requires inc >= 2 && c < Pow(256, ByteLen(inc)) && c % 256 <= Mask(inc)
    ensures ByteLen(inc) > 0 && (Rejected(inc, ToLE(c, ByteLen(inc))) <==> c == 0 || c >= inc)
  {
    ByteLenRange(inc);
    var bytes := ToLE(c, ByteLen(inc));
    LowByte(c, ByteLen(inc));
    LittleEndianDigits(c, ByteLen(inc));
    hide Mask, ByteLen, Pow, ToLE, Candidate;
    CandidateOfMasked(inc, bytes);
  }

  lemma {:induction false} AcceptedAreNumbers(inc: u64)
    requires inc >= 2
    ensures AcceptedBuffers(inc) == Buffers(Passing(Mask(inc), inc) - {0}, ByteLen(inc))
    ensures inc <= Pow(256, ByteLen(inc))
  {
    BoundFits(inc);
    ByteLenRange(inc);
    var n := ByteLen(inc);
    hide Mask, ByteLen, Pow, ToLE, Rejected;
    forall c: nat | c < Pow(256, n) && c % 256 <= Mask(inc)
      ensures Rejected(inc, ToLE(c, n)) <==> c == 0 || c >= inc
    {
      AcceptedNumber(inc, c);
    }
    SameBuffers(inc, n);
  }

  lemma {:induction false} SameBuffers(inc: u64, n: nat)
    requires inc >= 2 && n == ByteLen(inc) > 0 && inc <= Pow(256, n)
    requires forall c: nat :: c < Pow(256, n) && c % 256 <= Mask(inc) ==>
               (Rejected(inc, ToLE(c, n)) <==> c == 0 || c >= inc)
    ensures AcceptedBuffers(inc) == Buffers(Passing(Mask(inc), inc) - {0}, n)
  {
    hide Mask, ByteLen, Pow, ToLE, Rejected;
    forall b | b in AcceptedBuffers(inc) ensures b in Buffers(Passing(Mask(inc), inc) - {0}, n) {
      var c :| c in Passing(Mask(inc), Pow(256, n)) && b == ToLE(c, n);
    }
    forall b | b in Buffers(Passing(Mask(inc), inc) - {0}, n) ensures b in AcceptedBuffers(inc) {
      var c :| c in Passing(Mask(inc), inc) - {0} && b == ToLE(c, n);
      assert c in Passing(Mask(inc), Pow(256, n));
    }
  }

  /**
   * How many of the masked buffers the loop accepts, for every 64-bit bound from 2 on: of 2^bitLen buffers,
   * one for each number from 1 to inc - 1 whose low byte passes the mask.
   */
  lemma {:induction false} AcceptanceCount(inc: u64)
    requires inc >= 2
    ensures forall bytes :: bytes in MaskedBuffers(inc) <==> MaskedBuffer(inc, bytes)
    ensures forall bytes :: bytes in AcceptedBuffers(inc) <==> MaskedBuffer(inc, bytes) && !Rejected(inc, bytes)
    ensures |MaskedBuffers(inc)| == Pow(2, BitLen(inc - 1))
    ensures |AcceptedBuffers(inc)| == Rows(inc, Mask(inc) + 1) - 1
  {
    forall bytes ensures bytes in MaskedBuffers(inc) <==> MaskedBuffer(inc, bytes) {
      MaskedBytes(inc, bytes);
    }
    MaskedCount(inc);
    AcceptedCount(inc);
  }

  lemma {:induction false} AcceptedCount(inc: u64)
    requires inc >= 2
    ensures |AcceptedBuffers(inc)| == Rows(inc, Mask(inc) + 1) - 1
  {
    hide ToLE, Pow, Mask, ByteLen, BitLen, MaskedBuffers, AcceptedBuffers, Rejected, Buffers, Rows;
    AcceptedAreNumbers(inc);
    PassingCount(Mask(inc), inc);
    var numbers := Passing(Mask(inc), inc);
    assert 0 in numbers && |numbers - {0}| == |numbers| - 1;
    BufferCount(numbers - {0}, ByteLen(inc));
  }

  lemma {:induction false} MaskedCount(inc: u64)
    requires inc >= 2
    ensures |MaskedBuffers(inc)| == Pow(2, BitLen(inc - 1))
  {
    ByteLenRange(inc);
    var n := ByteLen(inc);
    WholeRows(inc);
    hide ToLE, Pow, Mask, ByteLen, BitLen, Buffers;
    PassingCount(Mask(inc), Pow(256, n));
    BufferCount(Passing(Mask(inc), Pow(256, n)), n);
  }

  lemma {:induction false} WholeRows(inc: u64)
    requires inc >= 2
    ensures var n := Pow(256, ByteLen(inc));
            n % 256 == 0 && n / 256 * (Mask(inc) + 1) == Pow(2, BitLen(inc - 1))
  {
    ByteLenRange(inc);
    var k := BitLen(inc - 1);
    var n := ByteLen(inc);
    BitLenBounds(inc - 1);
    BytesAreEightBits(n - 1);
    PowAdd(2, 8 * (n - 1), MsbitLenOf(k));
    assert 8 * (n - 1) + MsbitLenOf(k) == k;
    DivModUnique(Pow(256, n), 256, Pow(256, n - 1), 0);
  }

  /** `q * m + min(r, m)` against `inc == 256 * q + r`, scaled by 256. */
  lemma {:induction false} RowsAgainstBound(inc: nat, m: nat, t: nat)
    requires 1 <= m <= 256 && inc <= t && t % 256 == 0
    ensures m * inc <= 256 * Rows(inc, m) <= m * t
  {
    DivModRange(inc, 256);
    DivModRange(t, 256);
    SplitRows(inc / 256, inc % 256, m, t / 256);
  }

  lemma {:induction false} SplitRows(q: nat, r: nat, m: nat, h: nat)
    requires 1 <= m <= 256 && r < 256 && q * 256 + r <= h * 256
    ensures m * (q * 256 + r) <= 256 * (q * m + if r < m then r else m) <= m * (h * 256)
  {
    ShortRow(m, r);
    RowsBelow(q, r, m, h);
    Distribute(q * 256, r, m);
    MulAssociative(256, q, m);
    MulAssociative(256, h, m);
  }

  lemma {:induction false} ShortRow(m: nat, r: nat)
    requires m <= 256 && r < 256
    ensures r * m <= 256 * if r < m then r else m
  {
    if r < m {
      MulMonotone(m, 256, r);
    } else {
      MulMonotone(r, 256, m);
    }
  }

  lemma {:induction false} RowsBelow(q: nat, r: nat, m: nat, h: nat)
    requires q * 256 + r <= h * 256
    ensures q * m + (if r < m then r else m) <= h * m
  {
    if r == 0 {
      MulMonotone(q, h, m);
    } else {
      MulMonotone(q + 1, h, m);
      Distribute(q, 1, m);
    }
  }

  lemma {:induction false} RowsOfShortBound(inc: nat, m: nat)
    requires m == 256 || inc <= m < 256
    ensures Rows(inc, m) == inc
  {
    if m < 256 {
      ModSmall(inc, 256);
    } else {
      DivModRange(inc, 256);
    }
  }

  lemma {:induction false} AcceptanceOfShortBounds(inc: u64)
    requires inc >= 2 && (BitLen(inc - 1) <= 8 || BitLen(inc - 1) % 8 == 0)
    ensures |AcceptedBuffers(inc)| == inc - 1
  {
    hide AcceptedBuffers, MaskedBuffers, Mask, BitLen, Pow, Rejected, Rows;
    AcceptanceCount(inc);
    MaskValue(inc);
    BitLenBounds(inc - 1);
    RowsOfShortBound(inc, Mask(inc) + 1);
  }

  lemma {:induction false} HalfOfScaled(inc: nat, m: nat, t: nat, a: nat)
    requires m >= 1 && t < 2 * inc && m * inc <= a
    ensures m * t < 2 * a
  {
    MulMonotone(t + 1, 2 * inc, m);
    Distribute(t, 1, m);
    Distribute(inc, inc, m);
  }

  lemma {:induction false} BoundsByBitLength(inc: u64)
    requires inc >= 2 && BitLen(inc - 1) > 8
    ensures var t := Pow(2, BitLen(inc - 1)); t % 256 == 0 && inc <= t < 2 * inc
  {
    var k := BitLen(inc - 1);
    BitLenBounds(inc - 1);
    PowAdd(2, k - 8, 8);
    assert Pow(2, 8) == 256 && Pow(2, k) == 2 * Pow(2, k - 1);
    hide BitLen, Pow;
    DivModUnique(Pow(2, k), 256, Pow(2, k - 8), 0);
  }

  /**
   * Beyond eight bits the share of accepted buffers follows the mask alone: between m/512 and m/256 of them,
   * up to one buffer, where m is the number of low bytes that pass.
   */
  lemma {:induction false} AcceptanceBounds(inc: u64)
    requires inc >= 2 && BitLen(inc - 1) > 8
    ensures var m, a, t := Mask(inc) + 1, |AcceptedBuffers(inc)|, |MaskedBuffers(inc)|;
            m * t < 512 * (a + 1) && 256 * (a + 1) <= m * t
  {
    var m, a, t := Mask(inc) + 1, |AcceptedBuffers(inc)|, |MaskedBuffers(inc)|;
    AcceptanceCount(inc);
    BoundsByBitLength(inc);
    hide AcceptedBuffers, MaskedBuffers, Mask, BitLen, Pow, Rejected;
    hide Rows;
    RowsAgainstBound(inc, m, t);
    HalfOfScaled(inc, m, t, 256 * Rows(inc, m));
  }

  /** At least half of the masked buffers are accepted exactly when the mask is where it belongs. */
  lemma {:induction false} HalfAccepted(inc: u64)
    requires inc >= 2
    ensures 2 * |AcceptedBuffers(inc)| >= |MaskedBuffers(inc)|
            <==> BitLen(inc - 1) <= 8 || BitLen(inc - 1) % 8 == 0
  {
    var k := BitLen(inc - 1);
    AcceptanceCount(inc);
    BitLenBounds(inc - 1);
    assert k > 0 ==> Pow(2, k) == 2 * Pow(2, k - 1);
    hide AcceptedBuffers, MaskedBuffers, Mask, BitLen, Pow, Rejected;
    if k <= 8 || k % 8 == 0 {
      AcceptanceOfShortBounds(inc);
    } else {
      NarrowMask(inc);
      AcceptanceBounds(inc);
      MulMonotone(Mask(inc) + 1, 128, |MaskedBuffers(inc)|);
    }
  }

  /** The smallest bound with the mask in the wrong place. */
  lemma {:induction false} TwoOf512()
    ensures |AcceptedBuffers(257)| == 2 && |MaskedBuffers(257)| == 512
    ensures forall v :: CanReturn(257, v) <==> v == 2 || v == 257
  {
    hide AcceptedBuffers, MaskedBuffers, Mask, BitLen, Pow, CanReturn;
    MaskOf257();
    AcceptanceCount(257);
    forall v ensures CanReturn(257, v) <==> v == 2 || v == 257 {
      ReturnedFor257(v);
    }
  }

  lemma {:induction false} MaskOf257()
    ensures Mask(257) == 1 && BitLen(256) == 9 && Pow(2, 9) == 512
  {
    assert Pow(2, 8) == 256 && Pow(2, 1) == 2;
    assert Pow(2, 9) == 2 * Pow(2, 8);
    BitLenIs(256, 9);
    hide BitLen, Pow;
  }

  lemma {:induction false} ReturnedFor257(v: nat)
    ensures CanReturn(257, v) <==> v == 2 || v == 257
  {
    hide Mask, BitLen, Pow, CanReturn;
    MaskOf257();
    OutcomeSet(257, v);
  }

  lemma {:induction false} OneByte(bytes: seq<u8>)
    requires |bytes| == 1
    ensures NumLE(bytes, 256) == bytes[0]
  {
  }
}
