/** Which call each logged result answers: the threads and clock readings of the schedule against those of the log. */
module LockCalls {
  import opened Bits
  import opened PlaceValue
  import opened Packing
  import opened Ulids
  import opened Entropy
  import opened Errors
  import opened Monotonic
  import opened Runs
  import opened LockedGenerator

  /** The clock readings with which thread `t` begins its calls: a thread begins one when it has none under way. */
  function Readings<S(!new)>(read: Reader<S>, w: World<S>, schedule: seq<Action>, t: nat): seq<u64>
    requires Fills(read)
    decreases |schedule|
  {
    if |schedule| == 0 then []
    else
      var n := |schedule| - 1;
      var before := Execute(read, w, schedule[..n]);
      Readings(read, w, schedule[..n], t)
      + match schedule[n]
        case Clock(u, ms) => if u == t && t < |before.phases| && before.phases[t].Idle? then [ms] else []
        case _ => []
  }

  /** The milliseconds of the results logged for thread `t`. */
  function Answered(log: seq<Entry>, t: nat): seq<u64>
    decreases |log|
  {
    if |log| == 0 then []
    else
      var n := |log| - 1;
      Answered(log[..n], t) + if log[n].thread == t then [log[n].ms] else []
  }

  /** The call a thread has under way and has no result for. */
  function Unanswered<S>(p: Phase<S>): seq<u64> {
    if p.Idle? || p.Leaving? then [] else [p.ms]
  }

  lemma {:induction false} AnsweredOneMore(log: seq<Entry>, e: Entry, t: nat)
    ensures Answered(log + [e], t) == Answered(log, t) + if e.thread == t then [e.ms] else []
  {
    assert (log + [e])[..|log|] == log;
  }

  /** Completing a call answers it, and answers no other thread. */
  lemma {:induction false} CompleteAnswers<S>(w: World<S>, u: nat, st: State<S>, ms: u64, draws: nat, out: Result<nat>, t: nat)
    requires u < |w.phases| && t < |w.phases| && Unanswered(w.phases[u]) == [ms]
    ensures var w' := Complete(w, u, st, ms, draws, out);
            |w'.phases| == |w.phases|
            && Answered(w'.log, t) + Unanswered(w'.phases[t]) == Answered(w.log, t) + Unanswered(w.phases[t])
  {
    AnsweredOneMore(w.log, Entry(u, ms, draws, out), t);
  }

  /** One step either begins a call of `t`, or leaves what is answered and what is to be answered together unchanged. */
  lemma {:induction false} ApplyAnswers<S(!new)>(read: Reader<S>, w: World<S>, a: Action, t: nat)
    requires Fills(read) && t < |w.phases|
    ensures var w' := Apply(read, w, a);
            |w'.phases| == |w.phases|
            && Answered(w'.log, t) + Unanswered(w'.phases[t]) ==
               Answered(w.log, t) + Unanswered(w.phases[t])
               + if a.Clock? && a.thread == t && w.phases[t].Idle? then [a.ms] else []
  {
    hide Answered;
    if a.Work? && a.thread < |w.phases| {
      WorkAnswers(read, w, a.thread, t);
      hide WorkStep;
    }
  }

  lemma {:induction false} WorkAnswers<S(!new)>(read: Reader<S>, w: World<S>, u: nat, t: nat)
    requires Fills(read) && u < |w.phases| && t < |w.phases|
    ensures var w' := WorkStep(read, w, u);
            |w'.phases| == |w.phases|
            && Answered(w'.log, t) + Unanswered(w'.phases[t]) == Answered(w.log, t) + Unanswered(w.phases[t])
  {
    hide Answered, Complete, Num, Candidate, Mask, ByteLen, Added, AddedResult;
    forall st: State<S>, ms: u64, draws: nat, out: Result<nat> | Unanswered(w.phases[u]) == [ms]
      ensures var w' := Complete(w, u, st, ms, draws, out);
              |w'.phases| == |w.phases|
              && Answered(w'.log, t) + Unanswered(w'.phases[t]) == Answered(w.log, t) + Unanswered(w.phases[t])
    {
      CompleteAnswers(w, u, st, ms, draws, out, t);
    }
  }

  /**
   * Under every schedule the results logged for a thread answer its calls, in the order in which it began them and
   * each for the millisecond it read before the lock; at most its latest call has no result yet.
   */
  lemma {:induction false} CallsAnswered<S(!new)>(read: Reader<S>, init: State<S>, threads: nat, schedule: seq<Action>, t: nat)
    requires Fills(read) && t < threads
    ensures var w := Execute(read, Initial(init, threads), schedule);
            && |w.phases| == threads
            && Readings(read, Initial(init, threads), schedule, t) == Answered(w.log, t) + Unanswered(w.phases[t])
    decreases |schedule|
  {
    if |schedule| > 0 {
      var n := |schedule| - 1;
      CallsAnswered(read, init, threads, schedule[..n], t);
      hide Apply, Answered, Unanswered;
      ApplyAnswers(read, Execute(read, Initial(init, threads), schedule[..n]), schedule[n], t);
    }
  }

  /** Every result is logged for one of the threads. */
  lemma {:induction false} AnswersAreOfThreads<S(!new)>(read: Reader<S>, init: State<S>, threads: nat, schedule: seq<Action>)
    requires Fills(read)
    ensures var w := Execute(read, Initial(init, threads), schedule);
            |w.phases| == threads && forall i :: 0 <= i < |w.log| ==> w.log[i].thread < threads
    decreases |schedule|
  {
    if |schedule| > 0 {
      var n := |schedule| - 1;
      AnswersAreOfThreads(read, init, threads, schedule[..n]);
      hide Num, Candidate, Mask, ByteLen, Added, AddedResult;
    }
  }

  /** The identifier made of an entry carries its millisecond as time and its result as entropy. */
  lemma {:induction false} MadeCarriesReading(e: Entry)
    requires e.ms <= MAX_TIME && e.out.Ok? && e.out.value < TWO_80
    ensures Made(e).Ok? && |Made(e).value| == RAW_SIZE
    ensures TimeOf(Made(e).value) == e.ms && Num(EntropyBytes(Made(e).value), 256) == e.out.value
  {
    var zeros: seq<u8> := seq(16, _ => 0);
    var ten := ToBE(e.out.value, 10);
    FieldsAreIndependent(zeros, e.ms, ten);
    assert WithEntropy(WithTime(zeros, e.ms), ten) == Made(e).value;
    FieldsAreIndependent(WithTime(zeros, e.ms), e.ms, ten);
    EntropyOfBytes(e.ms, e.out.value);
    hide TimeOf;
  }
}
