/** Entropy sources: the `Entropy` contract as a function value, and the readers over a slice and over zeros. */
module Entropy {
  import opened Bits
  import opened Errors
  import opened PlaceValue

  /** What one request for bytes yields; a failed one may have written some places of the buffer. */
  datatype Draw = Filled(bytes: seq<u8>) | Failed(error: Error, left: map<nat, u8>)

  /** A source with state `S`: asked for `n` bytes, it moves to a new state and answers. */
  type Reader<!S> = (S, nat) -> (S, Draw)

  /**
   * The trait's contract: the whole buffer is filled, or the read is an error and wrote within the buffer.
   * The overflow report is the generator's own.
   */
  ghost predicate Fills<S(!new)>(read: Reader<S>) {
    forall s, n ::
      match read(s, n).1
      case Filled(bytes) => |bytes| == n
      case Failed(error, left) => error != MonotonicOverflow && forall k :: k in left ==> k < n
  }

  /** The buffer after a failed read into it from `at` on. */
  function Scatter(buffer: seq<u8>, at: nat, left: map<nat, u8>): (r: seq<u8>)
    ensures |r| == |buffer|
  {
    seq(|buffer|, i requires 0 <= i < |buffer| => if i >= at && i - at in left then left[i - at] else buffer[i])
  }

  /** `SliceReader`, its state being the bytes not yet read: a short read consumes nothing. */
  function SliceRead(rest: seq<u8>, n: nat): (seq<u8>, Draw) {
    if |rest| < n then (rest, Failed(Read(UnexpectedEof), map[])) else (rest[n..], Filled(rest[..n]))
  }

  /** `ZeroReader`. */
  function ZeroRead(s: (), n: nat): ((), Draw) {
    (s, Filled(seq(n, _ => 0)))
  }

  class SliceReader {
    const buf: seq<u8>
    var pos: nat

    ghost predicate Valid()
      reads this
    {
      pos <= |buf|
    }

    function Rest(): seq<u8>
      requires Valid()
      reads this
    {
      buf[pos..]
    }

    constructor (buf: seq<u8>)
      ensures Valid() && Rest() == buf
    {
      this.buf := buf;
      pos := 0;
    }

    /** Fill `dst[at..at + n]`, or report the end of the slice and change nothing. */
    method Read(dst: array<u8>, at: nat, n: nat) returns (r: Result<()>)
      requires Valid() && at + n <= dst.Length
      modifies this`pos, dst
      ensures Valid() && Rest() == SliceRead(old(Rest()), n).0
      ensures var d := SliceRead(old(Rest()), n).1;
              && (d.Filled? ==> r == Ok(()) && dst[..] == Splice(old(dst[..]), at, d.bytes))
              && (d.Failed? ==> r == Err(d.error) && dst[..] == old(dst[..]))
      ensures |old(Rest())| < n ==> r == Err(Error.Read(UnexpectedEof)) && Rest() == old(Rest()) && dst[..] == old(dst[..])
      ensures |old(Rest())| >= n ==>
                r == Ok(()) && old(Rest()) == dst[at..at + n] + Rest() && dst[..at] == old(dst[..at]) && dst[at + n..] == old(dst[at + n..])
    {
      var remaining := |buf| - pos;
      if remaining < n {
        return Err(Error.Read(UnexpectedEof));
      }
      forall i | 0 <= i < n {
        dst[at + i] := buf[pos + i];
      }
      pos := pos + n;
      r := Ok(());
    }
  }
}
