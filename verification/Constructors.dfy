/** `new_monotonic`: a time field and ten bytes of monotonic entropy make an identifier. */
module Constructors {
  import opened Bits
  import opened Errors
  import opened PlaceValue
  import opened Packing
  import opened Ulids
  import opened Monotonic
  import opened Runs

  /** With no source the entropy stays zero; with one, the call is exactly one step of the machine. */
  method NewMonotonic<S(!new)>(ms: u64, source: MonotonicEntropy?<S>, ghost fuel: nat) returns (r: Result<Ulid>)
    requires source != null ==> source.Valid() && !NewStep(source.read, source.Now(), ms, fuel).1.Pending?
    modifies if source == null then {} else {source, source.entropy, source.randBuf}
    ensures r.Ok? ==> r.value.Valid() && fresh(r.value) && fresh(r.value.raw)
    ensures ms > MAX_TIME ==> r == Err(BigTime) && (source != null ==> source.Now() == old(source.Now()))
    ensures source != null && r.Ok? ==>
              r.value.raw[..] == ToBE(ms, 6) + ToBE(source.entropy.Value(), 10) && source.ms == ms <= MAX_TIME
    ensures source == null ==>
              if ms > MAX_TIME then r == Err(BigTime)
              else r.Ok? && r.value.raw[..] == ToBE(ms, 6) + seq(10, _ => 0)
    ensures source != null ==>
              var (st, out) := NewStep(source.read, old(source.Now()), ms, fuel);
              && source.Now() == st
              && (out.result.Err? ==> r == Err(out.result.error))
              && (out.result.Ok? ==> r.Ok? && r.value.raw[..] == out.result.value)
  {
    if source != null {
      StepFacts(source.read, source.Now(), ms, fuel);
    }
    hide ToBE, ReadStep;
    var id := new Ulid.Zero();
    var timed := id.SetTime(ms);
    if timed.Err? {
      return Err(timed.error);
    }
    if source != null {
      assert id.raw != source.randBuf;
      var filled := source.MonotonicRead(ms, id.raw, 6, RAW_SIZE - 6, fuel);
      if filled.Err? {
        return Err(filled.error);
      }
    }
    r := Ok(id);
  }
}
