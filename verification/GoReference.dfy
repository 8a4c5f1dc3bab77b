/** The frozen Go implementation of the monotonic reader, over a buffered byte tape and without the Int63n path. */
module GoReference {
  import opened Bits
  import opened Errors
  import opened PlaceValue
  import opened Monotonic

  /** The error `io.ReadFull` reports when nothing at all could be read. */
  const EOF := OtherKind(0)

  function ShortReadKind(available: nat): ErrorKind {
    if available == 0 then EOF else UnexpectedEof
  }

  /** A short `io.ReadFull` leaves what it got at the front of the buffer. */
  function PartialFill(buffer: seq<u8>, got: seq<u8>): (r: seq<u8>)
    requires |got| <= |buffer|
    ensures |r| == |buffer|
  {
    got + buffer[|got|..]
  }

  /** The byte length and mask come from the bit length of the bound itself. */
  function GoByteLen(inc: nat): nat {
    ByteLenOf(BitLen(inc))
  }

  function GoMask(inc: nat): (m: nat)
    ensures m < 256
  {
    PowMonotone(2, MsbitLenOf(BitLen(inc)), 8);
    assert Pow(2, 8) == 256;
    Pow(2, MsbitLenOf(BitLen(inc))) - 1
  }

  lemma {:induction false} GoByteLenRange(inc: u64)
    requires inc >= 2
    ensures 1 <= GoByteLen(inc) <= 8
  {
    WordPowers();
    BitLenAtMost(inc, 64);
    BitLenBounds(inc);
  }

  /** Candidate from the scratch buffer: a whole word of it, beyond the bytes just read. */
  function GoCandidate(rand: seq<u8>, n: nat): nat
    requires |rand| == 8 && 1 <= n <= 8
  {
    NumLE(rand[..WordLen(n)], 256)
  }

  /** The scratch buffer after a full read of `n` bytes and the masking of its first byte. */
  function Refill(rand: seq<u8>, bytes: seq<u8>, mask: nat): (r: seq<u8>)
    requires |rand| == 8 && 1 <= |bytes| <= 8
    ensures |r| == 8
  {
    [And(bytes[0], mask)] + bytes[1..] + rand[|bytes|..]
  }

  datatype GoPick =
    | GoPicked(rest: seq<u8>, rand: seq<u8>, inc: nat)
    | GoStarved(rest: seq<u8>, rand: seq<u8>, kind: ErrorKind)

  /** The loop of `random`; every round consumes bytes of the tape. */
  function GoDraws(rest: seq<u8>, rand: seq<u8>, inc: u64): (p: GoPick)
    requires inc >= 2 && |rand| == 8
    ensures |p.rand| == 8
    decreases |rest|
  {
    GoByteLenRange(inc);
    var n := GoByteLen(inc);
    if |rest| < n then GoStarved([], PartialFill(rand, rest), ShortReadKind(|rest|))
    else
      var rand' := Refill(rand, rest[..n], GoMask(inc));
      var c := GoCandidate(rand', n);
      if c == 0 || c >= inc then GoDraws(rest[n..], rand', inc) else GoPicked(rest[n..], rand', 1 + c)
  }

  function GoIncrement(rest: seq<u8>, rand: seq<u8>, inc: u64): (p: GoPick)
    requires |rand| == 8
    ensures |p.rand| == 8
  {
    if inc <= 1 then GoPicked(rest, rand, 1) else GoDraws(rest, rand, inc)
  }

  datatype GoState = GoState(rest: seq<u8>, ms: u64, ent: nat, inc: u64, rand: seq<u8>)

  /** Buffers that do not make Go panic: ten bytes or more, or a fresh read that the tape cannot supply. */
  predicate Served(st: GoState, ms: u64, len: nat) {
    len >= 10 || ((st.ent == 0 || st.ms != ms) && |st.rest| < len)
  }

  /** `MonotonicRead` into a buffer of `len` bytes, all of which a fresh read fills: the new state, the error or the entropy. */
  function GoStep(st: GoState, ms: u64, len: nat): (r: (GoState, Result<nat>))
    requires |st.rand| == 8 && Served(st, ms, len)
    ensures |r.0.rand| == 8
  {
    if st.ent != 0 && st.ms == ms then
      match GoIncrement(st.rest, st.rand, st.inc)
      case GoStarved(rest, rand, kind) => (st.(rest := rest, rand := rand), Err(Read(kind)))
      case GoPicked(rest, rand, inc) =>
        var sum := st.ent + inc;
        (st.(rest := rest, rand := rand, ent := sum % TWO_80), if sum >= TWO_80 then Err(MonotonicOverflow) else Ok(sum))
    else if |st.rest| < len then (st.(rest := []), Err(Read(ShortReadKind(|st.rest|))))
    else
      var ent := Num(st.rest[..10], 256);
      (GoState(st.rest[len..], ms, ent, st.inc, st.rand), Ok(ent))
  }

  /** What the caller's buffer holds after a call: an increment always writes the accumulator, even on failure. */
  function GoBuffer(st: GoState, ms: u64, buffer: seq<u8>): seq<u8>
    requires |st.rand| == 8 && Served(st, ms, |buffer|)
  {
    if st.ent != 0 && st.ms == ms then Splice(buffer, 0, ToBE(GoStep(st, ms, |buffer|).0.ent, 10))
    else if |st.rest| < |buffer| then PartialFill(buffer, st.rest)
    else st.rest[..|buffer|]
  }

  class GoMonotonicEntropy {
    var rest: seq<u8>
    var ms: u64
    var inc: u64
    const entropy: Uint80
    const rand: array<u8>

    ghost predicate Valid()
      reads this
    {
      rand.Length == 8
    }

    ghost function Now(): (st: GoState)
      requires Valid()
      reads this, entropy, rand
      ensures |st.rand| == 8
    {
      GoState(rest, ms, entropy.Value(), inc, rand[..])
    }

    constructor (tape: seq<u8>, inc: u64)
      ensures Valid() && fresh(entropy) && fresh(rand)
      ensures Now() == GoState(tape, 0, 0, if inc == 0 then 0xFFFF_FFFF else inc, seq(8, _ => 0))
    {
      rest := tape;
      ms := 0;
      this.inc := if inc == 0 then 0xFFFF_FFFF else inc;
      entropy := new Uint80();
      rand := new u8[8](_ => 0);
    }

    /** `io.ReadFull(m.Reader, buf[:n])`. */
    method ReadFull(buf: array<u8>, n: nat) returns (r: Result<()>)
      requires n <= buf.Length
      modifies this`rest, buf
      ensures |old(rest)| >= n ==>
                r == Ok(()) && rest == old(rest)[n..] && buf[..] == old(rest)[..n] + old(buf[..])[n..]
      ensures |old(rest)| < n ==>
                r == Err(Read(ShortReadKind(|old(rest)|))) && rest == [] && buf[..] == PartialFill(old(buf[..]), old(rest))
      ensures |old(rest)| < n ==>
                && r == Err(Read(if old(rest) == [] then EOF else UnexpectedEof))
                && buf[..|old(rest)|] == old(rest) && buf[|old(rest)|..] == old(buf[..])[|old(rest)|..]
    {
      var k := if |rest| < n then |rest| else n;
      forall i | 0 <= i < k {
        buf[i] := rest[i];
      }
      var got := rest;
      rest := rest[k..];
      if k < n {
        return Err(Read(ShortReadKind(k)));
      }
      r := Ok(());
    }

    /** One round of the loop: fill the front of the scratch buffer, mask its first byte, read a whole word of it. */
    method DrawCandidate(byteLen: nat, mask: u8) returns (r: Result<u64>)
      requires Valid() && 1 <= byteLen <= 8
      modifies this`rest, rand
      ensures |old(rest)| < byteLen ==>
                r == Err(Read(ShortReadKind(|old(rest)|))) && rest == [] && rand[..] == PartialFill(old(rand[..]), old(rest))
      ensures |old(rest)| >= byteLen ==>
                && rest == old(rest)[byteLen..] && rand[..] == Refill(old(rand[..]), old(rest)[..byteLen], mask)
                && r == Ok(GoCandidate(rand[..], byteLen))
    {
      hide And, NumLE, PartialFill;
      ghost var scratch, tape := rand[..], rest;
      var full := ReadFull(rand, byteLen);
      if full.Err? {
        return Err(full.error);
      }
      rand[0] := And(rand[0], mask);
      assert rand[..] == Refill(scratch, tape[..byteLen], mask);
      LittleEndianBound(rand[..WordLen(byteLen)]);
      r := Ok(NumLE(rand[..WordLen(byteLen)], 256));
    }

    method Random() returns (r: Result<u64>)
      requires Valid()
      modifies this`rest, rand
      ensures var p := GoIncrement(old(rest), old(rand[..]), inc);
              && rest == p.rest && rand[..] == p.rand
              && (p.GoPicked? ==> r == Ok(p.inc)) && (p.GoStarved? ==> r == Err(Read(p.kind)))
    {
      if inc <= 1 {
        return Ok(1);
      }
      GoByteLenRange(inc);
      var byteLen := GoByteLen(inc);
      var mask: u8 := GoMask(inc);
      hide GoByteLen, GoMask, Refill, GoCandidate, PartialFill;
      var c: u64 := 0;
      while c == 0 || c >= inc
        invariant inc == old(inc) && byteLen == GoByteLen(inc)
        invariant GoDraws(old(rest), old(rand[..]), inc) ==
                  if c == 0 || c >= inc then GoDraws(rest, rand[..], inc) else GoPicked(rest, rand[..], 1 + c)
        decreases |rest|, c == 0 || c >= inc
      {
        var candidate := DrawCandidate(byteLen, mask);
        if candidate.Err? {
          return candidate;
        }
        c := candidate.value;
      }
      r := Ok(1 + c);
    }

    method Increment() returns (r: Result<()>)
      requires Valid()
      modifies this`rest, rand, entropy
      ensures var p := GoIncrement(old(rest), old(rand[..]), inc);
              && rest == p.rest && rand[..] == p.rand
              && (p.GoStarved? ==> r == Err(Read(p.kind)) && entropy.Value() == old(entropy.Value()))
              && (p.GoPicked? ==>
                    && entropy.Value() == (old(entropy.Value()) + p.inc) % TWO_80
                    && r == if old(entropy.Value()) + p.inc >= TWO_80 then Err(MonotonicOverflow) else Ok(()))
    {
      hide GoDraws;
      var pick := Random();
      if pick.Err? {
        return Err(pick.error);
      }
      var overflow := entropy.Add(pick.value);
      if overflow {
        return Err(MonotonicOverflow);
      }
      r := Ok(());
    }

    method MonotonicRead(ms: u64, buffer: array<u8>) returns (r: Result<()>)
      requires Valid() && Served(Now(), ms, buffer.Length) && buffer != rand
      modifies this`rest, this`ms, rand, entropy, buffer
      ensures var (st, out) := GoStep(old(Now()), ms, buffer.Length);
              Now() == st && (out.Ok? ==> r == Ok(())) && (out.Err? ==> r == Err(out.error))
      ensures buffer[..] == GoBuffer(old(Now()), ms, old(buffer[..]))
    {
      hide GoIncrement, ToDigits, Num;
      if !entropy.IsZero() && this.ms == ms {
        r := Increment();
        entropy.AppendTo(buffer, 0);
      } else {
        ghost var tape := rest;
        r := ReadFull(buffer, buffer.Length);
        if r.Ok? {
          this.ms := ms;
          assert buffer[..] == tape[..buffer.Length] && buffer[..][..10] == tape[..10];
          entropy.SetBytes(buffer[..]);
        }
      }
    }
  }
}
