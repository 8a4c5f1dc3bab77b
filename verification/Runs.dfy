/** Order over whole runs of `new_monotonic`. */
module Runs {
  import opened Bits
  import opened Errors
  import opened PlaceValue
  import opened Packing
  import opened Marshal
  import opened Ulids
  import opened Entropy
  import opened Monotonic
  import opened MathRngs

  /** What else a caller may do to the generator: read plain bytes through it, or assign its public bound. */
  datatype Aside = PlainRead(n: nat) | SetBound(inc: u64)

  /** One call: the millisecond asked for, how many draws its rejection loop is followed, and what is done after it. */
  datatype Request = Request(ms: u64, fuel: nat, asides: seq<Aside>)

  function Interleaved<S(!new)>(read: Reader<S>, st: State<S>, asides: seq<Aside>): State<S>
    decreases |asides|
  {
    if |asides| == 0 then st
    else
      var st' := Interleaved(read, st, asides[..|asides| - 1]);
      match asides[|asides| - 1]
      case PlainRead(n) => st'.(src := read(st'.src, n).0)
      case SetBound(inc) => st'.(inc := inc)
  }

  /** The generator before call `n` of a sequence of calls. */
  function StateAt<S(!new)>(read: Reader<S>, st: State<S>, reqs: seq<Request>, n: nat): State<S>
    requires Fills(read) && n <= |reqs|
    decreases n
  {
    if n == 0 then st
    else
      var r := reqs[n - 1];
      Interleaved(read, NewStep(read, StateAt(read, st, reqs, n - 1), r.ms, r.fuel).0, r.asides)
  }

  /** The outcome of call `n`. */
  function Output<S(!new)>(read: Reader<S>, st: State<S>, reqs: seq<Request>, n: nat): Outcome<seq<u8>>
    requires Fills(read) && n < |reqs|
  {
    NewStep(read, StateAt(read, st, reqs, n), reqs[n].ms, reqs[n].fuel).1
  }

  predicate Success<T>(out: Outcome<T>) {
    out.Done? && out.result.Ok?
  }

  predicate Overflowed<T>(out: Outcome<T>) {
    out.Done? && out.result == Err(MonotonicOverflow)
  }

  /** The milliseconds of calls `i` to `j` do not go back. */
  ghost predicate NonDecreasing(reqs: seq<Request>, i: nat, j: nat)
    requires i <= j < |reqs|
  {
    forall a, b :: i <= a < b <= j ==> reqs[a].ms <= reqs[b].ms
  }

  /** Between calls `i` and `n` nothing succeeds for another millisecond than `ms`, and `ms` does not overflow. */
  ghost predicate Undisturbed<S(!new)>(read: Reader<S>, st: State<S>, reqs: seq<Request>, ms: u64, i: nat, n: nat)
    requires Fills(read) && n <= |reqs|
  {
    && (forall k :: i < k < n && Success(Output(read, st, reqs, k)) ==> reqs[k].ms == ms)
    && (forall k :: i < k < n && reqs[k].ms == ms ==> !Overflowed(Output(read, st, reqs, k)))
  }

  /** An increment lies between 1 and the bound, and is at least 2 as soon as it is drawn. */
  lemma {:induction false} IncrementRange<S(!new)>(read: Reader<S>, src: S, inc: u64, fuel: nat)
    requires Fills(read)
    ensures var p := Increment(read, src, inc, fuel);
            && (p.Picked? ==> (if inc <= 1 then p.inc == 1 else 2 <= p.inc <= inc))
            && (p.Starved? ==> p.error != MonotonicOverflow)
  {
    if inc > 1 {
      ByteLenRange(inc);
      DrawRange(read, src, inc, fuel);
    }
  }

  lemma {:induction false} DrawRange<S(!new)>(read: Reader<S>, src: S, inc: nat, fuel: nat)
    requires Fills(read) && inc >= 2 && ByteLen(inc) > 0
    ensures var p := Draws(read, src, inc, fuel);
            (p.Picked? ==> 2 <= p.inc <= inc) && (p.Starved? ==> p.error != MonotonicOverflow)
    decreases fuel
  {
    if fuel > 0 {
      DrawRange(read, read(src, ByteLen(inc)).0, inc, fuel - 1);
    }
  }

  lemma {:induction false} EntropyBound(bytes: seq<u8>)
    requires |bytes| == 10
    ensures Num(bytes, 256) < TWO_80
  {
    NumBound(bytes, 256);
    WordPowers();
  }

  /** What one step does to the accumulator. */
  lemma {:induction false} StepFacts<S(!new)>(read: Reader<S>, st: State<S>, ms: u64, fuel: nat)
    requires Fills(read) && st.ent < TWO_80
    ensures var (st', out) := ReadStep(read, st, ms, fuel);
            && st'.ent < TWO_80 && st'.inc == st.inc
            && (Success(out) ==> st'.ms == ms && out.result.value == st'.ent)
            && (Success(out) && st.ms == ms && st.ent != 0 ==> st'.ent > st.ent)
            && (!Success(out) && !Overflowed(out) ==> st'.ms == st.ms && st'.ent == st.ent)
            && (Overflowed(out) ==> st'.ms == st.ms == ms && st.ent != 0)
  {
    hide Increment, Num;
    IncrementRange(read, st.src, st.inc, fuel);
    var d := read(st.src, 10).1;
    if d.Filled? {
      EntropyBound(d.bytes);
    }
  }

  lemma {:induction false} CallFacts<S(!new)>(read: Reader<S>, st: State<S>, ms: u64, fuel: nat)
    requires Fills(read) && st.ent < TWO_80
    ensures var (st', out) := NewStep(read, st, ms, fuel);
            && st'.ent < TWO_80 && st'.inc == st.inc
            && (Success(out) ==> ms <= MAX_TIME && st'.ms == ms && out.result.value == ToBE(ms, 6) + ToBE(st'.ent, 10))
            && (Success(out) && st.ms == ms && st.ent != 0 ==> st'.ent > st.ent)
            && (!Success(out) && !Overflowed(out) ==> st'.ms == st.ms && st'.ent == st.ent)
            && (Overflowed(out) ==> st'.ms == st.ms == ms && st.ent != 0)
  {
    StepFacts(read, st, ms, fuel);
    hide ReadStep, ToBE;
  }

  /** Plain reads and a new bound leave millisecond and accumulator alone. */
  lemma {:induction false} AsidesKeep<S(!new)>(read: Reader<S>, st: State<S>, asides: seq<Aside>)
    ensures var st' := Interleaved(read, st, asides);
            && st'.ms == st.ms && st'.ent == st.ent
            && ((forall a :: a in asides ==> a.PlainRead?) ==> st'.inc == st.inc)
    decreases |asides|
  {
    if |asides| > 0 {
      AsidesKeep(read, st, asides[..|asides| - 1]);
    }
  }

  /** `CallFacts` for call `n` of a run, up to the state before the next call. */
  lemma {:induction false} RunFacts<S(!new)>(read: Reader<S>, st: State<S>, reqs: seq<Request>, n: nat)
    requires Fills(read) && n < |reqs| && StateAt(read, st, reqs, n).ent < TWO_80
    ensures var s, s', ms, out := StateAt(read, st, reqs, n), StateAt(read, st, reqs, n + 1), reqs[n].ms, Output(read, st, reqs, n);
            && s'.ent < TWO_80
            && (Success(out) ==> ms <= MAX_TIME && s'.ms == ms && out.result.value == ToBE(ms, 6) + ToBE(s'.ent, 10))
            && (Success(out) && s.ms == ms && s.ent != 0 ==> s'.ent > s.ent)
            && (!Success(out) && !Overflowed(out) ==> s'.ms == s.ms && s'.ent == s.ent)
            && (Overflowed(out) ==> s'.ms == s.ms == ms && s.ent != 0)
  {
    var s, r := StateAt(read, st, reqs, n), reqs[n];
    CallFacts(read, s, r.ms, r.fuel);
    AsidesKeep(read, NewStep(read, s, r.ms, r.fuel).0, r.asides);
    hide NewStep, ToBE, Interleaved;
  }

  /** Two identifiers compare by time, then by entropy. */
  lemma {:induction false} OrderOfFields(ms: nat, ent: nat, ms': nat, ent': nat)
    requires ms <= MAX_TIME && ms' <= MAX_TIME && ent < TWO_80 && ent' < TWO_80
    ensures var a, b := ToBE(ms, 6) + ToBE(ent, 10), ToBE(ms', 6) + ToBE(ent', 10);
            && (Compare(a, b) == Less <==> ms < ms' || (ms == ms' && ent < ent'))
            && (a == b <==> ms == ms' && ent == ent')
  {
    WordPowers();
    assert Pow(256, 6) == 0x1_0000_0000_0000;
    hide ToDigits, Pow;
    LexFields(ToBE(ms, 6), ToBE(ent, 10), ToBE(ms', 6), ToBE(ent', 10));
    DigitsOrder(ms, ms', 256, 6);
    DigitsOrder(ent, ent', 256, 10);
    var a, b := ToBE(ms, 6) + ToBE(ent, 10), ToBE(ms', 6) + ToBE(ent', 10);
    if a == b {
      assert a[..6] == ToBE(ms, 6) && b[..6] == ToBE(ms', 6) && a[6..] == ToBE(ent, 10) && b[6..] == ToBE(ent', 10);
    }
  }

  lemma {:induction false} EntropyFits<S(!new)>(read: Reader<S>, st: State<S>, reqs: seq<Request>, n: nat)
    requires Fills(read) && st.ent < TWO_80 && n <= |reqs|
    ensures StateAt(read, st, reqs, n).ent < TWO_80
    decreases n
  {
    if n > 0 {
      EntropyFits(read, st, reqs, n - 1);
      RunFacts(read, st, reqs, n - 1);
    }
  }

  /** From a success at call `i` on, while its millisecond is undisturbed, the accumulator has not gone back. */
  lemma {:induction false} SinceSuccess<S(!new)>(read: Reader<S>, st: State<S>, reqs: seq<Request>, i: nat, n: nat)
    requires Fills(read) && st.ent < TWO_80 && i < n <= |reqs|
    requires Success(Output(read, st, reqs, i)) && Undisturbed(read, st, reqs, reqs[i].ms, i, n)
    ensures var s, t := StateAt(read, st, reqs, i + 1), StateAt(read, st, reqs, n);
            s.ms == t.ms == reqs[i].ms && (s.ent == 0 || t.ent >= s.ent)
    decreases n
  {
    hide Output, StateAt, ToBE;
    EntropyFits(read, st, reqs, n - 1);
    RunFacts(read, st, reqs, n - 1);
    if i + 1 < n {
      SinceSuccess(read, st, reqs, i, n - 1);
    }
  }

  /** The fields of a success are its millisecond and the accumulator it leaves. */
  lemma {:induction false} SuccessFields<S(!new)>(read: Reader<S>, st: State<S>, reqs: seq<Request>, i: nat) returns (ent: nat)
    requires Fills(read) && st.ent < TWO_80 && i < |reqs| && Success(Output(read, st, reqs, i))
    ensures ent == StateAt(read, st, reqs, i + 1).ent < TWO_80 && reqs[i].ms <= MAX_TIME
    ensures Output(read, st, reqs, i).result.value == ToBE(reqs[i].ms, 6) + ToBE(ent, 10)
    ensures Num(EntropyBytes(Output(read, st, reqs, i).result.value), 256) == ent
  {
    hide Output, StateAt, ToBE, EntropyBytes;
    EntropyFits(read, st, reqs, i);
    RunFacts(read, st, reqs, i);
    ent := StateAt(read, st, reqs, i + 1).ent;
    EntropyOfBytes(reqs[i].ms, ent);
  }

  /** In any run, whatever happens between them: successes for different milliseconds sort as the milliseconds do. */
  lemma {:induction false} TimesDecide<S(!new)>(read: Reader<S>, st: State<S>, reqs: seq<Request>, i: nat, j: nat)
    requires Fills(read) && st.ent < TWO_80 && i < |reqs| && j < |reqs| && reqs[i].ms < reqs[j].ms
    requires Success(Output(read, st, reqs, i)) && Success(Output(read, st, reqs, j))
    ensures Compare(Output(read, st, reqs, i).result.value, Output(read, st, reqs, j).result.value) == Less
  {
    hide Output, ToBE, Compare, EntropyBytes, StateAt;
    var e := SuccessFields(read, st, reqs, i);
    var e' := SuccessFields(read, st, reqs, j);
    OrderOfFields(reqs[i].ms, e, reqs[j].ms, e');
  }

  /** Successes for one undisturbed millisecond: the later is greater unless its entropy is zero; then they are equal. */
  lemma {:induction false} EntropyDecides<S(!new)>(read: Reader<S>, st: State<S>, reqs: seq<Request>, i: nat, j: nat)
    requires Fills(read) && st.ent < TWO_80 && i < j < |reqs| && reqs[i].ms == reqs[j].ms
    requires Success(Output(read, st, reqs, i)) && Success(Output(read, st, reqs, j))
    requires Undisturbed(read, st, reqs, reqs[i].ms, i, j)
    ensures var a, b := Output(read, st, reqs, i).result.value, Output(read, st, reqs, j).result.value;
            && |a| == |b| == RAW_SIZE
            && (Compare(a, b) == Less <==> Num(EntropyBytes(b), 256) != 0)
            && (Compare(a, b) != Less ==> a == b)
  {
    hide Output, StateAt, ToBE, Compare, EntropyBytes;
    SinceSuccess(read, st, reqs, i, j);
    EntropyFits(read, st, reqs, j);
    RunFacts(read, st, reqs, j);
    var e := SuccessFields(read, st, reqs, i);
    var e' := SuccessFields(read, st, reqs, j);
    OrderOfFields(reqs[i].ms, e, reqs[j].ms, e');
  }

  lemma {:induction false} ForwardIsUndisturbed<S(!new)>(read: Reader<S>, st: State<S>, reqs: seq<Request>, i: nat, j: nat)
    requires Fills(read) && i < j < |reqs| && reqs[i].ms == reqs[j].ms && NonDecreasing(reqs, i, j)
    requires forall k :: i < k < j && reqs[k].ms == reqs[i].ms ==> !Overflowed(Output(read, st, reqs, k))
    ensures Undisturbed(read, st, reqs, reqs[i].ms, i, j)
  {
    hide Output;
    forall k | i < k < j ensures reqs[k].ms == reqs[i].ms {
      assert reqs[i].ms <= reqs[k].ms <= reqs[j].ms;
    }
  }

  /**
   * The order law. In any run, over any source and any bound, from any state, across failed reads, refused
   * times, plain reads and changes of the bound: of two successes between which the milliseconds do not go back, and whose common millisecond, if
   * they have one, does not overflow in between, the later is strictly greater, unless it is for the same
   * millisecond with entropy zero, and then the two are equal.
   */
  lemma {:induction false} RunIncreases<S(!new)>(read: Reader<S>, st: State<S>, reqs: seq<Request>, i: nat, j: nat)
    requires Fills(read) && st.ent < TWO_80 && i < j < |reqs| && NonDecreasing(reqs, i, j)
    requires Success(Output(read, st, reqs, i)) && Success(Output(read, st, reqs, j))
    requires forall k :: i < k < j && reqs[k].ms == reqs[i].ms == reqs[j].ms ==> !Overflowed(Output(read, st, reqs, k))
    ensures var a, b := Output(read, st, reqs, i).result.value, Output(read, st, reqs, j).result.value;
            && |a| == |b| == RAW_SIZE
            && (Compare(a, b) == Less <==> Compare(Text(a), Text(b)) == Less)
            && (Compare(a, b) == Less <==> !(reqs[i].ms == reqs[j].ms && Num(EntropyBytes(b), 256) == 0))
            && (Compare(a, b) != Less ==> a == b)
  {
    hide Output, StateAt, ToBE, Text, Compare, EntropyBytes;
    var e := SuccessFields(read, st, reqs, i);
    var e' := SuccessFields(read, st, reqs, j);
    CompareIsNumeric(ToBE(reqs[i].ms, 6) + ToBE(e, 10), ToBE(reqs[j].ms, 6) + ToBE(e', 10));
    if reqs[i].ms < reqs[j].ms {
      TimesDecide(read, st, reqs, i, j);
    } else {
      assert reqs[i].ms <= reqs[j].ms;
      ForwardIsUndisturbed(read, st, reqs, i, j);
      EntropyDecides(read, st, reqs, i, j);
    }
  }

  lemma {:induction false} EntropyOfBytes(ms: nat, ent: nat)
    requires ent < TWO_80
    ensures Num(EntropyBytes(ToBE(ms, 6) + ToBE(ent, 10)), 256) == ent
  {
    WordPowers();
    DigitsNum(ent, 256, 10);
    assert (ToBE(ms, 6) + ToBE(ent, 10))[6..] == ToBE(ent, 10);
  }

  // ---------- Overflow ----------

  /** An overflow is reported exactly when the true sum leaves 80 bits; the accumulator has wrapped by then. */
  lemma {:induction false} OverflowIsExact<S(!new)>(read: Reader<S>, st: State<S>, ms: u64, fuel: nat)
    requires Fills(read) && st.ent < TWO_80
    ensures var p, out := Increment(read, st.src, st.inc, fuel), ReadStep(read, st, ms, fuel);
            && (Overflowed(out.1) <==> st.ent != 0 && st.ms == ms && p.Picked? && st.ent + p.inc >= TWO_80)
            && (Overflowed(out.1) ==> out.0 == State(p.src, st.ms, st.ent + p.inc - TWO_80, st.inc))
  {
    IncrementRange(read, st.src, st.inc, fuel);
    hide Increment;
  }

  /**
   * Why the order law stops at an overflow: the next answer for that millisecond sorts below the last one given
   * out exactly when the accumulator did not wrap to zero, or the fresh draw made after a zero is smaller.
   */
  lemma {:induction false} OverflowBreaksOrder<S(!new)>(read: Reader<S>, st: State<S>, ms: u64, fuel: nat, fuel': nat)
    requires Fills(read) && st.ent < TWO_80
    requires Overflowed(NewStep(read, st, ms, fuel).1)
    requires Success(NewStep(read, NewStep(read, st, ms, fuel).0, ms, fuel').1)
    ensures var st' := NewStep(read, st, ms, fuel).0;
            var b := NewStep(read, st', ms, fuel').1.result.value;
            && (st'.ent == 0 ==> read(st'.src, 10).1.Filled?)
            && (Compare(b, ToBE(ms, 6) + ToBE(st.ent, 10)) == Less
                <==> st'.ent != 0 || Num(read(st'.src, 10).1.bytes, 256) < st.ent)
  {
    var st' := NewStep(read, st, ms, fuel).0;
    var st'' := NewStep(read, st', ms, fuel').0;
    WrapOfOverflow(read, st, ms, fuel);
    CallFacts(read, st', ms, fuel');
    if st'.ent != 0 {
      IncrementRange(read, st'.src, st'.inc, fuel');
      IncrementAdds(read, st', ms, fuel');
    } else {
      FreshEntropy(read, st', ms, fuel');
    }
    hide ReadStep, NewStep, Increment, ToBE, Compare;
    OrderOfFields(ms, st''.ent, ms, st.ent);
  }

  /** An overflow leaves the true sum less 2^80, which together with another increment stays below the old value. */
  lemma {:induction false} WrapOfOverflow<S(!new)>(read: Reader<S>, st: State<S>, ms: u64, fuel: nat)
    requires Fills(read) && st.ent < TWO_80 && Overflowed(NewStep(read, st, ms, fuel).1)
    ensures ms <= MAX_TIME
    ensures var st', p := NewStep(read, st, ms, fuel).0, Increment(read, st.src, st.inc, fuel);
            && p.Picked? && st' == State(p.src, ms, st.ent + p.inc - TWO_80, st.inc)
            && st'.ent + GreatestIncrement(st.inc) < st.ent
  {
    hide Increment;
    assert Overflowed(ReadStep(read, st, ms, fuel).1) && ReadStep(read, st, ms, fuel).0 == NewStep(read, st, ms, fuel).0;
    OverflowIsExact(read, st, ms, fuel);
    IncrementRange(read, st.src, st.inc, fuel);
  }

  lemma {:induction false} FreshEntropy<S(!new)>(read: Reader<S>, st: State<S>, ms: u64, fuel: nat)
    requires Fills(read) && st.ent == 0 && Success(NewStep(read, st, ms, fuel).1)
    ensures read(st.src, 10).1.Filled? && NewStep(read, st, ms, fuel).0.ent == Num(read(st.src, 10).1.bytes, 256)
  {
    hide Num, ToBE;
  }

  /** With a bound of at most 1 an overflow wraps to zero exactly, so the next call is a fresh draw. */
  lemma {:induction false} UnitOverflowIsFresh<S(!new)>(read: Reader<S>, st: State<S>, ms: u64, fuel: nat)
    requires Fills(read) && st.ent < TWO_80 && st.inc <= 1 && Overflowed(NewStep(read, st, ms, fuel).1)
    ensures st.ent == TWO_80 - 1 && NewStep(read, st, ms, fuel).0 == st.(ent := 0)
  {
    WrapOfOverflow(read, st, ms, fuel);
    hide NewStep;
  }

  /**
   * The same over a run: a success, an overflow and another success of one millisecond, with nothing but failures
   * between them. The second success is smaller exactly when the accumulator did not wrap to zero, or it did and
   * the entropy that was then drawn is smaller.
   */
  lemma {:induction false} OverflowBetween<S(!new)>(read: Reader<S>, st: State<S>, reqs: seq<Request>, i: nat, o: nat, j: nat)
    requires Fills(read) && st.ent < TWO_80 && i < o < j < |reqs| && reqs[i].ms == reqs[o].ms == reqs[j].ms
    requires Success(Output(read, st, reqs, i)) && Overflowed(Output(read, st, reqs, o)) && Success(Output(read, st, reqs, j))
    requires forall k :: i < k < j && k != o ==> !Success(Output(read, st, reqs, k)) && !Overflowed(Output(read, st, reqs, k))
    ensures var a, b := Output(read, st, reqs, i).result.value, Output(read, st, reqs, j).result.value;
            && |a| == |b| == RAW_SIZE
            && (Compare(b, a) == Less <==>
                StateAt(read, st, reqs, o + 1).ent != 0 || Num(EntropyBytes(b), 256) < Num(EntropyBytes(a), 256))
  {
    hide Output, StateAt, ToBE, Compare, EntropyBytes;
    var e := SuccessFields(read, st, reqs, i);
    var e' := SuccessFields(read, st, reqs, j);
    FailuresKeep(read, st, reqs, i + 1, o);
    FailuresKeep(read, st, reqs, o + 1, j);
    EntropyFits(read, st, reqs, i);
    RunFacts(read, st, reqs, i);
    EntropyFits(read, st, reqs, o);
    RunFacts(read, st, reqs, o);
    OverflowDrops(read, st, reqs, o);
    if StateAt(read, st, reqs, j).ent != 0 {
      IncrementIsSmall(read, st, reqs, j);
    }
    OrderOfFields(reqs[j].ms, e', reqs[i].ms, e);
  }

  /** An increment is below 2^64, so an overflow drops the accumulator further than another increment can lift it. */
  lemma {:induction false} OverflowDrops<S(!new)>(read: Reader<S>, st: State<S>, reqs: seq<Request>, o: nat)
    requires Fills(read) && st.ent < TWO_80 && o < |reqs| && Overflowed(Output(read, st, reqs, o))
    ensures StateAt(read, st, reqs, o + 1).ent + TWO_64 < StateAt(read, st, reqs, o).ent
  {
    var s, r := StateAt(read, st, reqs, o), reqs[o];
    EntropyFits(read, st, reqs, o);
    WrapOfOverflow(read, s, r.ms, r.fuel);
    IncrementRange(read, s.src, s.inc, r.fuel);
    AsidesKeep(read, NewStep(read, s, r.ms, r.fuel).0, r.asides);
    hide NewStep, Increment, Interleaved;
  }

  lemma {:induction false} IncrementIsSmall<S(!new)>(read: Reader<S>, st: State<S>, reqs: seq<Request>, j: nat)
    requires Fills(read) && j < |reqs| && Success(Output(read, st, reqs, j))
    requires StateAt(read, st, reqs, j).ent != 0 && StateAt(read, st, reqs, j).ms == reqs[j].ms
    ensures StateAt(read, st, reqs, j + 1).ent < StateAt(read, st, reqs, j).ent + TWO_64
  {
    var s, r := StateAt(read, st, reqs, j), reqs[j];
    IncrementAdds(read, s, r.ms, r.fuel);
    IncrementRange(read, s.src, s.inc, r.fuel);
    AsidesKeep(read, NewStep(read, s, r.ms, r.fuel).0, r.asides);
    hide NewStep, Increment, Interleaved;
  }

  /** Calls that neither succeed nor overflow leave millisecond and accumulator alone. */
  lemma {:induction false} FailuresKeep<S(!new)>(read: Reader<S>, st: State<S>, reqs: seq<Request>, i: nat, n: nat)
    requires Fills(read) && st.ent < TWO_80 && i <= n <= |reqs|
    requires forall k :: i <= k < n ==> !Success(Output(read, st, reqs, k)) && !Overflowed(Output(read, st, reqs, k))
    ensures var s, t := StateAt(read, st, reqs, i), StateAt(read, st, reqs, n); t.ms == s.ms && t.ent == s.ent
    decreases n
  {
    hide Output, StateAt, ToBE;
    if i < n {
      FailuresKeep(read, st, reqs, i, n - 1);
      EntropyFits(read, st, reqs, n - 1);
      RunFacts(read, st, reqs, n - 1);
    }
  }

  /** A run that does break the order: two bytes of tape, the largest entropy, a bound of two. */
  lemma {:induction false} OrderIsBroken()
    requires Fills(SliceRead)
    ensures var st := State([1, 1], 5, TWO_80 - 1, 2);
            var (st', first) := NewStep(SliceRead, st, 5, 1);
            var (st'', second) := NewStep(SliceRead, st', 5, 1);
            && first == Done(Err(MonotonicOverflow)) && st'.ent == 1
            && second == Done(Ok(ToBE(5, 6) + ToBE(3, 10)))
            && Compare(second.result.value, ToBE(5, 6) + ToBE(TWO_80 - 1, 10)) == Less
  {
    hide Increment, NewStep, Compare, ToBE;
    OneByteDraw([1]);
    OneByteDraw([]);
    assert [1] + [1] == [1, 1] && [1] + [] == [1];
    IncrementedCall(SliceRead, State([1, 1], 5, TWO_80 - 1, 2), 5, 1, [1], 2);
    IncrementedCall(SliceRead, State([1], 5, 1, 2), 5, 1, [], 2);
    OrderOfFields(5, 3, 5, TWO_80 - 1);
  }

  /** The state of that run is reached from a fresh generator by its first call. */
  lemma {:induction false} BrokenOrderIsReached()
    requires Fills(SliceRead)
    ensures var tape := seq(10, _ => 255) + [1, 1];
            NewStep(SliceRead, State(tape, 0, 0, 2), 5, 0) ==
            (State([1, 1], 5, TWO_80 - 1, 2), Done(Ok(ToBE(5, 6) + ToBE(TWO_80 - 1, 10))))
  {
    var ones: seq<u8> := seq(10, _ => 255);
    LargestEntropy();
    hide Num, ToBE;
    assert (ones + [1, 1])[..10] == ones && (ones + [1, 1])[10..] == [1, 1];
  }

  lemma {:induction false} LargestEntropy()
    ensures Num(seq(10, _ => 255), 256) == TWO_80 - 1
  {
    AllOnes(10);
    WordPowers();
  }

  lemma {:induction false} AllOnes(n: nat)
    ensures Num(seq(n, _ => 255), 256) == Pow(256, n) - 1
  {
    if n > 0 {
      AllOnes(n - 1);
      var ds: seq<nat> := seq(n, _ => 255);
      assert ds[..n - 1] == seq(n - 1, _ => 255);
    }
  }

  lemma {:induction false} IncrementedCall<S(!new)>(read: Reader<S>, st: State<S>, ms: u64, fuel: nat, src: S, inc: nat)
    requires Fills(read) && ms == st.ms <= MAX_TIME && st.ent != 0 && Increment(read, st.src, st.inc, fuel) == Picked(src, inc)
    ensures var sum := st.ent + inc;
            NewStep(read, st, ms, fuel) ==
            (State(src, ms, sum % TWO_80, st.inc),
             Done(if sum >= TWO_80 then Err(MonotonicOverflow) else Ok(ToBE(ms, 6) + ToBE(sum, 10))))
  {
    hide Increment, ToBE;
  }

  /** With a bound of two, a byte of one is accepted and gives the increment two. */
  lemma {:induction false} OneByteDraw(rest: seq<u8>)
    requires Fills(SliceRead)
    ensures Increment(SliceRead, [1] + rest, 2, 1) == Picked(rest, 2)
  {
    assert ByteLen(2) == 1 && Mask(2) == 1 by { assert BitLen(1) == 1 && Pow(2, 1) == 2; }
    assert Candidate(1, [1]) == 1 by {
      assert And(1, 1) == 1 && [1][1..] == [] && NumLE([], 256) == 0;
      assert NumLE([1], 256) == 1 && [And(1, 1)] + [1][1..] == [1];
    }
    assert ([1] + rest)[..1] == [1] && ([1] + rest)[1..] == rest;
    hide Candidate, Mask, ByteLen;
  }

  lemma {:induction false} StepAdds<S(!new)>(read: Reader<S>, st: State<S>, ms: u64, fuel: nat)
    requires Fills(read) && st.ent != 0 && st.ms == ms && Success(ReadStep(read, st, ms, fuel).1)
    ensures Increment(read, st.src, st.inc, fuel).Picked?
    ensures ReadStep(read, st, ms, fuel).0.ent == st.ent + Increment(read, st.src, st.inc, fuel).inc
  {
  }

  lemma {:induction false} IncrementAdds<S(!new)>(read: Reader<S>, st: State<S>, ms: u64, fuel: nat)
    requires Fills(read) && st.ent != 0 && st.ms == ms && Success(NewStep(read, st, ms, fuel).1)
    ensures Increment(read, st.src, st.inc, fuel).Picked?
    ensures NewStep(read, st, ms, fuel).0.ent == st.ent + Increment(read, st.src, st.inc, fuel).inc
  {
    hide ReadStep, Increment, ToBE;
    assert Success(ReadStep(read, st, ms, fuel).1);
    StepAdds(read, st, ms, fuel);
  }

  // ---------- Capacity of one millisecond ----------

  function LeastIncrement(inc: u64): nat { if inc <= 1 then 1 else 2 }

  function GreatestIncrement(inc: u64): nat { if inc <= 1 then 1 else inc }

  /** Successes among the first `n` calls. */
  function Successes<S(!new)>(read: Reader<S>, st: State<S>, reqs: seq<Request>, n: nat): (k: nat)
    requires Fills(read) && n <= |reqs|
    ensures k <= n
    decreases n
  {
    if n == 0 then 0
    else Successes(read, st, reqs, n - 1) + if Success(Output(read, st, reqs, n - 1)) then 1 else 0
  }

  /** All calls are for the millisecond of the state, and nobody changes the bound. */
  ghost predicate SameMillisecond<S>(st: State<S>, reqs: seq<Request>) {
    forall i :: 0 <= i < |reqs| ==> reqs[i].ms == st.ms && forall a :: a in reqs[i].asides ==> a.PlainRead?
  }

  lemma {:induction false} CallMoves<S(!new)>(read: Reader<S>, st: State<S>, ms: u64, fuel: nat)
    requires Fills(read) && 0 < st.ent < TWO_80 && st.ms == ms
    requires !Overflowed(NewStep(read, st, ms, fuel).1)
    ensures var (st', out) := NewStep(read, st, ms, fuel);
            && st'.ms == ms && st'.inc == st.inc && st'.ent < TWO_80
            && if Success(out) then LeastIncrement(st.inc) <= st'.ent - st.ent <= GreatestIncrement(st.inc)
               else st'.ent == st.ent
  {
    CallFacts(read, st, ms, fuel);
    IncrementRange(read, st.src, st.inc, fuel);
    hide NewStep, Increment, ToBE;
    if Success(NewStep(read, st, ms, fuel).1) {
      IncrementAdds(read, st, ms, fuel);
    }
  }

  /** `x` is `e` plus `k` increments within the bounds for `inc`. */
  ghost predicate Moved(e: nat, k: nat, inc: u64, x: nat) {
    e + k * LeastIncrement(inc) <= x <= e + k * GreatestIncrement(inc)
  }

  lemma {:induction false} OneMoreIncrement(e: nat, k: nat, inc: u64, x: nat, y: nat)
    requires Moved(e, k, inc, x) && LeastIncrement(inc) <= y - x <= GreatestIncrement(inc)
    ensures Moved(e, k + 1, inc, y)
  {
  }

  lemma {:induction false} MovedIsNotLess(e: nat, k: nat, inc: u64, x: nat)
    requires Moved(e, k, inc, x)
    ensures e <= x
  {
  }

  /** Before the first overflow, `k` successes have moved the accumulator by between `k * lo` and `k * hi`. */
  lemma {:induction false} Capacity<S(!new)>(read: Reader<S>, st: State<S>, reqs: seq<Request>, n: nat)
    requires Fills(read) && 0 < st.ent < TWO_80 && SameMillisecond(st, reqs) && n <= |reqs|
    requires forall i :: 0 <= i < n ==> !Overflowed(Output(read, st, reqs, i))
    ensures var t, k := StateAt(read, st, reqs, n), Successes(read, st, reqs, n);
            && t.ms == st.ms && t.inc == st.inc && t.ent < TWO_80
            && Moved(st.ent, k, st.inc, t.ent)
    decreases n
  {
    if n == 0 {
      hide Output, NewStep;
      assert StateAt(read, st, reqs, 0) == st && Successes(read, st, reqs, 0) == 0;
    } else {
      hide *;
      var i := n - 1;
      CapacityStep(read, st, reqs, i) by { Capacity(read, st, reqs, i); }
    }
  }

  lemma {:induction false} CapacityStep<S(!new)>(read: Reader<S>, st: State<S>, reqs: seq<Request>, i: nat)
    requires Fills(read) && 0 < st.ent && SameMillisecond(st, reqs) && i < |reqs|
    requires !Overflowed(Output(read, st, reqs, i))
    requires var t, k := StateAt(read, st, reqs, i), Successes(read, st, reqs, i);
             t.ms == st.ms && t.inc == st.inc && t.ent < TWO_80 && Moved(st.ent, k, st.inc, t.ent)
    ensures var t, k := StateAt(read, st, reqs, i + 1), Successes(read, st, reqs, i + 1);
            t.ms == st.ms && t.inc == st.inc && t.ent < TWO_80 && Moved(st.ent, k, st.inc, t.ent)
  {
    hide Output, StateAt, Moved, LeastIncrement, GreatestIncrement;
    var k, x := Successes(read, st, reqs, i), StateAt(read, st, reqs, i).ent;
    MovedIsNotLess(st.ent, k, st.inc, x);
    RunMoves(read, st, reqs, i);
    if Success(Output(read, st, reqs, i)) {
      OneMoreIncrement(st.ent, k, st.inc, x, StateAt(read, st, reqs, i + 1).ent);
    }
  }

  /** `CallMoves` for call `n` of a run. */
  lemma {:induction false} RunMoves<S(!new)>(read: Reader<S>, st: State<S>, reqs: seq<Request>, n: nat)
    requires Fills(read) && n < |reqs| && !Overflowed(Output(read, st, reqs, n))
    requires var s := StateAt(read, st, reqs, n); 0 < s.ent < TWO_80 && s.ms == reqs[n].ms
    requires forall a :: a in reqs[n].asides ==> a.PlainRead?
    ensures var s, s' := StateAt(read, st, reqs, n), StateAt(read, st, reqs, n + 1);
            && s'.ms == s.ms && s'.inc == s.inc && s'.ent < TWO_80
            && if Success(Output(read, st, reqs, n)) then LeastIncrement(s.inc) <= s'.ent - s.ent <= GreatestIncrement(s.inc)
               else s'.ent == s.ent
  {
    var s, r := StateAt(read, st, reqs, n), reqs[n];
    CallMoves(read, s, r.ms, r.fuel);
    AsidesKeep(read, NewStep(read, s, r.ms, r.fuel).0, r.asides);
    hide NewStep, Interleaved, LeastIncrement, GreatestIncrement;
  }

  /** At the first overflow the successes so far, and one more, are enough to fill 80 bits, and without it they are not. */
  lemma {:induction false} FirstOverflow<S(!new)>(read: Reader<S>, st: State<S>, reqs: seq<Request>, n: nat)
    requires Fills(read) && 0 < st.ent < TWO_80 && SameMillisecond(st, reqs) && n < |reqs|
    requires forall i :: 0 <= i < n ==> !Overflowed(Output(read, st, reqs, i))
    requires Overflowed(Output(read, st, reqs, n))
    ensures var k := Successes(read, st, reqs, n);
            st.ent + k * LeastIncrement(st.inc) < TWO_80 <= st.ent + (k + 1) * GreatestIncrement(st.inc)
  {
    Capacity(read, st, reqs, n);
    var t, k := StateAt(read, st, reqs, n), Successes(read, st, reqs, n);
    IncrementRange(read, t.src, t.inc, reqs[n].fuel);
    WrapOfOverflow(read, t, st.ms, reqs[n].fuel);
    hide NewStep, Increment, StateAt, Successes;
    Distribute(k, 1, GreatestIncrement(st.inc));
  }

  /**
   * At least floor((2^80 - 1 - e) / hi) calls succeed before any overflow, however many fail: while fewer than
   * that have succeeded, a call that returns either succeeds or passes on the error of its source.
   */
  lemma {:induction false} NoEarlyOverflow<S(!new)>(read: Reader<S>, st: State<S>, reqs: seq<Request>, n: nat)
    requires Fills(read) && 0 < st.ent < TWO_80 && st.ms <= MAX_TIME && SameMillisecond(st, reqs) && n < |reqs|
    requires st.ent + (Successes(read, st, reqs, n) + 1) * GreatestIncrement(st.inc) < TWO_80
    ensures !Overflowed(Output(read, st, reqs, n))
    ensures var t, out := StateAt(read, st, reqs, n), Output(read, st, reqs, n);
            out.Done? && out.result.Err? ==>
              var p := Increment(read, t.src, t.inc, reqs[n].fuel); p.Starved? && out.result.error == p.error
    decreases n
  {
    hide NewStep, Increment, StateAt, Moved, GreatestIncrement;
    forall i | 0 <= i < n ensures !Overflowed(Output(read, st, reqs, i)) {
      hide *;
      SuccessesGrow(read, st, reqs, i, n);
      MulMonotone(Successes(read, st, reqs, i) + 1, Successes(read, st, reqs, n) + 1, GreatestIncrement(st.inc));
      NoEarlyOverflow(read, st, reqs, i);
    }
    if Overflowed(Output(read, st, reqs, n)) {
      FirstOverflow(read, st, reqs, n);
    }
    Capacity(read, st, reqs, n);
    var t, k := StateAt(read, st, reqs, n), Successes(read, st, reqs, n);
    MovedIsNotLess(st.ent, k, st.inc, t.ent);
    FailureIsTheSource(read, t, st.ms, reqs[n].fuel);
  }

  lemma {:induction false} FailureIsTheSource<S(!new)>(read: Reader<S>, st: State<S>, ms: u64, fuel: nat)
    requires Fills(read) && 0 < st.ent && st.ms == ms <= MAX_TIME
    ensures var out, p := NewStep(read, st, ms, fuel).1, Increment(read, st.src, st.inc, fuel);
            out.Done? && out.result.Err? && !Overflowed(out) ==> p.Starved? && out.result.error == p.error
  {
    hide Increment, ToBE;
  }

  lemma {:induction false} SuccessesGrow<S(!new)>(read: Reader<S>, st: State<S>, reqs: seq<Request>, i: nat, n: nat)
    requires Fills(read) && i <= n <= |reqs|
    ensures Successes(read, st, reqs, i) <= Successes(read, st, reqs, n)
    decreases n
  {
    hide Output;
    if i < n {
      SuccessesGrow(read, st, reqs, i, n - 1);
    }
  }

  // ---------- The process-wide source ----------

  /** The xorshift source meets the contract of a source, which the lemmas below take as a hypothesis. */
  lemma {:induction false} RngFills()
    ensures Fills(RngRead)
  {
  }

  lemma {:induction false} RngDrawsNonZero(x: bv64, inc: nat, fuel: nat)
    requires x != 0 && inc >= 2 && ByteLen(inc) > 0 && Fills(RngRead)
    ensures var p := Draws(RngRead, x, inc, fuel); !p.Undecided? ==> p.src != 0
    decreases fuel
  {
    hide RngRead, Candidate, ByteLen;
    if fuel > 0 {
      DrawsAreNonZero(x, ByteLen(inc));
      RngDrawsNonZero(RngRead(x, ByteLen(inc)).0, inc, fuel - 1);
    }
  }

  lemma {:induction false} RngIncrementNonZero(x: bv64, inc: u64, fuel: nat)
    requires Fills(RngRead) && x != 0
    ensures var p := Increment(RngRead, x, inc, fuel); !p.Undecided? ==> p.src != 0
  {
    hide RngRead, Draws;
    if inc >= 2 {
      ByteLenRange(inc);
      RngDrawsNonZero(x, inc, fuel);
    }
  }

  /** Over the xorshift source the state stays non-zero and every entropy given out is non-zero. */
  lemma {:induction false} RngStepFacts(st: State<bv64>, ms: u64, fuel: nat)
    requires Fills(RngRead) && st.src != 0 && st.ent < TWO_80
    ensures var (st', out) := ReadStep(RngRead, st, ms, fuel);
            st'.src != 0 && (Success(out) ==> st'.ent != 0)
  {
    StepFacts(RngRead, st, ms, fuel);
    DrawsAreNonZero(st.src, 10);
    RngIncrementNonZero(st.src, st.inc, fuel);
    hide RngRead, Increment, Num;
    assert RngRead(st.src, 10).1.Filled?;
  }

  lemma {:induction false} RngCallFacts(st: State<bv64>, ms: u64, fuel: nat)
    requires Fills(RngRead) && st.src != 0 && st.ent < TWO_80
    ensures var (st', out) := NewStep(RngRead, st, ms, fuel);
            st'.src != 0 && (Success(out) ==> st'.ent != 0)
  {
    RngStepFacts(st, ms, fuel);
    hide ReadStep, ToBE;
  }

  lemma {:induction false} RngAsides(st: State<bv64>, asides: seq<Aside>)
    requires st.src != 0
    ensures Interleaved(RngRead, st, asides).src != 0
    decreases |asides|
  {
    hide RngRead;
    if |asides| > 0 {
      var n := |asides| - 1;
      RngAsides(st, asides[..n]);
      if asides[n].PlainRead? {
        DrawsAreNonZero(Interleaved(RngRead, st, asides[..n]).src, asides[n].n);
      }
    }
  }

  lemma {:induction false} RngStateNonZero(st: State<bv64>, reqs: seq<Request>, n: nat)
    requires Fills(RngRead) && st.src != 0 && st.ent < TWO_80 && n <= |reqs|
    ensures StateAt(RngRead, st, reqs, n).src != 0
    decreases n
  {
    hide NewStep, RngRead, Interleaved;
    if n > 0 {
      var s, r := StateAt(RngRead, st, reqs, n - 1), reqs[n - 1];
      RngStateNonZero(st, reqs, n - 1);
      EntropyFits(RngRead, st, reqs, n - 1);
      RngCallFacts(s, r.ms, r.fuel);
      RngAsides(NewStep(RngRead, s, r.ms, r.fuel).0, r.asides);
    }
  }

  lemma {:induction false} RngEntropyNonZero(st: State<bv64>, reqs: seq<Request>, j: nat)
    requires Fills(RngRead) && st.src != 0 && st.ent < TWO_80 && j < |reqs| && Success(Output(RngRead, st, reqs, j))
    ensures |Output(RngRead, st, reqs, j).result.value| == RAW_SIZE
    ensures Num(EntropyBytes(Output(RngRead, st, reqs, j).result.value), 256) != 0
  {
    hide NewStep, RngRead, ToBE, EntropyBytes, Interleaved;
    var s, r := StateAt(RngRead, st, reqs, j), reqs[j];
    RngStateNonZero(st, reqs, j);
    EntropyFits(RngRead, st, reqs, j);
    RngCallFacts(s, r.ms, r.fuel);
    AsidesKeep(RngRead, NewStep(RngRead, s, r.ms, r.fuel).0, r.asides);
    var e := SuccessFields(RngRead, st, reqs, j);
  }

  /** Over the xorshift source the order law has no exception for zero: successes strictly increase. */
  lemma {:induction false} RngRunIncreases(st: State<bv64>, reqs: seq<Request>, i: nat, j: nat)
    requires Fills(RngRead) && st.src != 0 && st.ent < TWO_80 && i < j < |reqs| && NonDecreasing(reqs, i, j)
    requires Success(Output(RngRead, st, reqs, i)) && Success(Output(RngRead, st, reqs, j))
    requires forall k :: i < k < j && reqs[k].ms == reqs[i].ms == reqs[j].ms ==> !Overflowed(Output(RngRead, st, reqs, k))
    ensures Compare(Output(RngRead, st, reqs, i).result.value, Output(RngRead, st, reqs, j).result.value) == Less
  {
    hide Output, RngRead, Compare, EntropyBytes;
    RunIncreases(RngRead, st, reqs, i, j);
    RngEntropyNonZero(st, reqs, j);
  }
}
