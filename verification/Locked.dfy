/**
 * Threads sharing one generator behind a mutex, for any milliseconds, and `make()` on top of it. The clock is
 * read before the lock is taken; under the lock every read of the source, the addition and the release are
 * separate steps, so any other thread may run between them.
 */
module LockedGenerator {
  import opened Bits
  import opened Errors
  import opened PlaceValue
  import opened Packing
  import opened Marshal
  import opened Ulids
  import opened Entropy
  import opened Monotonic
  import opened MathRngs
  import opened Runs

  datatype Option<T> = None | Some(value: T)

  /** Where a thread is in its call. `before` is the generator as it was when the lock was taken. */
  datatype Phase<S> =
    | Idle
    | Timed(ms: u64)
    | Entered(ms: u64)
    | Drawing(ms: u64, before: State<S>, draws: nat)
    | Adding(ms: u64, before: State<S>, draws: nat, inc: nat)
    | Leaving

  /** A completed call, in the order of completion; a success gives ten bytes, here as a number. */
  datatype Entry = Entry(thread: nat, ms: u64, draws: nat, out: Result<nat>)

  datatype World<S> = World(st: State<S>, owner: Option<nat>, phases: seq<Phase<S>>, log: seq<Entry>)

  datatype Action = Clock(thread: nat, ms: u64) | Lock(thread: nat) | Work(thread: nat) | Unlock(thread: nat)

  function Initial<S>(st: State<S>, threads: nat): World<S> {
    World(st, None, seq(threads, _ => Idle), [])
  }

  function Identifier(ms: u64, ent: nat): seq<u8> {
    ToBE(ms, 6) + ToBE(ent, 10)
  }

  /** Thread `t` moves on to `phase`, leaving the generator in `st`. */
  function Goto<S>(w: World<S>, t: nat, st: State<S>, phase: Phase<S>): World<S>
    requires t < |w.phases|
  {
    w.(st := st, phases := w.phases[t := phase])
  }

  /** Thread `t` has its result. */
  function Complete<S>(w: World<S>, t: nat, st: State<S>, ms: u64, draws: nat, out: Result<nat>): World<S>
    requires t < |w.phases|
  {
    Goto(w, t, st, Leaving).(log := w.log + [Entry(t, ms, draws, out)])
  }

  /** The branch taken on entry: start an increment, or read ten fresh bytes. */
  function EnterStep<S(!new)>(read: Reader<S>, w: World<S>, t: nat, ms: u64): World<S>
    requires Fills(read) && t < |w.phases|
  {
    if w.st.ent != 0 && w.st.ms == ms then
      Goto(w, t, w.st, if w.st.inc <= 1 then Adding(ms, w.st, 0, 1) else Drawing(ms, w.st, 0))
    else
      match read(w.st.src, 10)
      case (src, Failed(error, _)) => Complete(w, t, w.st.(src := src), ms, 0, Err(error))
      case (src, Filled(bytes)) =>
        var ent := Num(bytes, 256);
        Complete(w, t, State(src, ms, ent, w.st.inc), ms, 0, Ok(ent))
  }

  /** One draw of the rejection loop. */
  function DrawStep<S(!new)>(read: Reader<S>, w: World<S>, t: nat, ms: u64, before: State<S>, draws: nat): World<S>
    requires Fills(read) && t < |w.phases| && w.st.inc >= 2
  {
    ByteLenRange(w.st.inc);
    match read(w.st.src, ByteLen(w.st.inc))
    case (src, Failed(error, _)) => Complete(w, t, w.st.(src := src), ms, draws + 1, Err(error))
    case (src, Filled(bytes)) =>
      var c := Candidate(Mask(w.st.inc), bytes);
      Goto(w, t, w.st.(src := src),
           if c == 0 || c >= w.st.inc then Drawing(ms, before, draws + 1) else Adding(ms, before, draws + 1, 1 + c))
  }

  /** The addition, with its overflow report. */
  function AddStep<S>(w: World<S>, t: nat, ms: u64, draws: nat, inc: nat): World<S>
    requires t < |w.phases|
  {
    Complete(w, t, Added(w.st, inc), ms, draws, AddedResult(w.st, inc))
  }

  function Added<S>(st: State<S>, inc: nat): State<S> {
    st.(ent := (st.ent + inc) % TWO_80)
  }

  function AddedResult<S>(st: State<S>, inc: nat): Result<nat> {
    if st.ent + inc >= TWO_80 then Err(MonotonicOverflow) else Ok(st.ent + inc)
  }

  /** One step of the thread inside the lock. */
  function WorkStep<S(!new)>(read: Reader<S>, w: World<S>, t: nat): World<S>
    requires Fills(read) && t < |w.phases|
  {
    match w.phases[t]
    case Entered(ms) => EnterStep(read, w, t, ms)
    case Drawing(ms, before, draws) => if w.st.inc <= 1 then w else DrawStep(read, w, t, ms, before, draws)
    case Adding(ms, _, draws, inc) => AddStep(w, t, ms, draws, inc)
    case _ => w
  }

  /** One scheduler choice; a thread that cannot take the step stays where it is. */
  function Apply<S(!new)>(read: Reader<S>, w: World<S>, a: Action): World<S>
    requires Fills(read)
  {
    if a.thread >= |w.phases| then w
    else
      match a
      case Clock(t, ms) => if w.phases[t].Idle? then Goto(w, t, w.st, Timed(ms)) else w
      case Lock(t) =>
        if w.phases[t].Timed? && w.owner.None? then Goto(w, t, w.st, Entered(w.phases[t].ms)).(owner := Some(t)) else w
      case Work(t) => WorkStep(read, w, t)
      case Unlock(t) => if w.phases[t].Leaving? then Goto(w, t, w.st, Idle).(owner := None) else w
  }

  function Execute<S(!new)>(read: Reader<S>, w: World<S>, schedule: seq<Action>): World<S>
    requires Fills(read)
    decreases |schedule|
  {
    if |schedule| == 0 then w
    else Apply(read, Execute(read, w, schedule[..|schedule| - 1]), schedule[|schedule| - 1])
  }

  // ---------- Linearizability ----------

  /** One generator called sequentially with the logged calls, before call `n`. */
  function Sequential<S(!new)>(read: Reader<S>, init: State<S>, log: seq<Entry>, n: nat): State<S>
    requires Fills(read) && n <= |log|
    decreases n
  {
    if n == 0 then init else ReadStep(read, Sequential(read, init, log, n - 1), log[n - 1].ms, log[n - 1].draws).0
  }

  /** Each logged result is what a sequential run of the logged calls gives. */
  ghost predicate Explained<S(!new)>(read: Reader<S>, init: State<S>, log: seq<Entry>)
    requires Fills(read)
  {
    forall n :: 0 <= n < |log| ==>
      ReadStep(read, Sequential(read, init, log, n), log[n].ms, log[n].draws).1 == Done(log[n].out)
  }

  predicate Inside<S>(p: Phase<S>) {
    p.Entered? || p.Drawing? || p.Adding? || p.Leaving?
  }

  ghost predicate Exclusive<S>(w: World<S>) {
    && (forall t :: 0 <= t < |w.phases| ==> (Inside(w.phases[t]) <==> w.owner == Some(t)))
    && (w.owner.Some? ==> w.owner.value < |w.phases|)
  }

  /** How far the thread inside the lock has taken the generator from where it found it. */
  ghost predicate Midway<S(!new)>(read: Reader<S>, base: State<S>, st: State<S>, p: Phase<S>)
    requires Fills(read)
  {
    match p
    case Drawing(ms, before, draws) =>
      && before == base && base.ent != 0 && base.ms == ms && base.inc >= 2 && ByteLen(base.inc) > 0
      && st == base.(src := st.src)
      && forall more: nat :: Draws(read, base.src, base.inc, draws + more) == Draws(read, st.src, base.inc, more)
    case Adding(ms, before, draws, inc) =>
      && before == base && base.ent != 0 && base.ms == ms && st == base.(src := st.src)
      && Increment(read, base.src, base.inc, draws) == Picked(st.src, inc)
    case _ => st == base
  }

  ghost predicate Inv<S(!new)>(read: Reader<S>, init: State<S>, w: World<S>)
    requires Fills(read)
  {
    && Exclusive(w) && Explained(read, init, w.log)
    && Midway(read, Sequential(read, init, w.log, |w.log|), w.st, if w.owner.Some? then w.phases[w.owner.value] else Idle)
  }

  lemma {:induction false} SequentialPrefix<S(!new)>(read: Reader<S>, init: State<S>, log: seq<Entry>, e: Entry, n: nat)
    requires Fills(read) && n <= |log|
    ensures Sequential(read, init, log + [e], n) == Sequential(read, init, log, n)
    decreases n
  {
    hide ReadStep;
    if n > 0 {
      SequentialPrefix(read, init, log, e, n - 1);
    }
  }

  /** Logging one more call that the sequential generator explains. */
  lemma {:induction false} LogOne<S(!new)>(read: Reader<S>, init: State<S>, log: seq<Entry>, e: Entry, st: State<S>)
    requires Fills(read) && Explained(read, init, log)
    requires ReadStep(read, Sequential(read, init, log, |log|), e.ms, e.draws) == (st, Done(e.out))
    ensures Explained(read, init, log + [e]) && Sequential(read, init, log + [e], |log| + 1) == st
  {
    hide ReadStep;
    forall n | 0 <= n <= |log| ensures Sequential(read, init, log + [e], n) == Sequential(read, init, log, n) {
      SequentialPrefix(read, init, log, e, n);
    }
  }

  lemma {:induction false} StillExclusive<S>(w: World<S>, t: nat, st: State<S>, p: Phase<S>)
    requires Exclusive(w) && w.owner == Some(t) && t < |w.phases| && Inside(p) && !p.Entered?
    ensures Exclusive(Goto(w, t, st, p))
  {
  }

  /** A completed call: thread `t` leaves with the result the sequential generator gives. */
  lemma {:induction false} CompleteKeeps<S(!new)>(read: Reader<S>, init: State<S>, w: World<S>, t: nat, st: State<S>,
                                                  ms: u64, draws: nat, out: Result<nat>)
    requires Fills(read) && Inv(read, init, w) && w.owner == Some(t) && t < |w.phases|
    requires ReadStep(read, Sequential(read, init, w.log, |w.log|), ms, draws) == (st, Done(out))
    ensures Inv(read, init, Complete(w, t, st, ms, draws, out))
  {
    hide ReadStep, Sequential, Explained, Exclusive;
    StillExclusive(w, t, st, Leaving);
    LogOne(read, init, w.log, Entry(t, ms, draws, out), st);
    LogIsPrivate(Goto(w, t, st, Leaving), w.log + [Entry(t, ms, draws, out)]);
    OwnerLeaves(read, w, t, st);
  }

  /** A thread that leaves has nothing under way. */
  lemma {:induction false} OwnerLeaves<S(!new)>(read: Reader<S>, w: World<S>, t: nat, st: State<S>)
    requires Fills(read) && t < |w.phases| && w.owner == Some(t)
    ensures Goto(w, t, st, Leaving).phases[w.owner.value] == Leaving && Midway(read, st, st, Leaving)
  {
  }

  lemma {:induction false} LogIsPrivate<S>(w: World<S>, log: seq<Entry>)
    requires Exclusive(w)
    ensures Exclusive(w.(log := log))
  {
  }

  /** A call still under way. */
  lemma {:induction false} GotoKeeps<S(!new)>(read: Reader<S>, init: State<S>, w: World<S>, t: nat, st: State<S>, p: Phase<S>)
    requires Fills(read) && Inv(read, init, w) && w.owner == Some(t) && t < |w.phases|
    requires p.Drawing? || p.Adding?
    requires Midway(read, Sequential(read, init, w.log, |w.log|), st, p)
    ensures Inv(read, init, Goto(w, t, st, p))
  {
  }

  lemma {:induction false} FreshCall<S(!new)>(read: Reader<S>, base: State<S>, ms: u64)
    requires Fills(read) && (base.ent == 0 || base.ms != ms)
    ensures match read(base.src, 10)
            case (src, Failed(error, _)) => ReadStep(read, base, ms, 0) == (base.(src := src), Done(Err(error)))
            case (src, Filled(bytes)) =>
              var ent := Num(bytes, 256);
              ReadStep(read, base, ms, 0) == (State(src, ms, ent, base.inc), Done(Ok(ent)))
  {
  }

  lemma {:induction false} AddedCall<S(!new)>(read: Reader<S>, base: State<S>, ms: u64, draws: nat, src: S, inc: nat)
    requires Fills(read) && base.ent != 0 && base.ms == ms
    requires Increment(read, base.src, base.inc, draws) == Picked(src, inc)
    ensures var sum := base.ent + inc;
            ReadStep(read, base, ms, draws) ==
            (base.(src := src, ent := sum % TWO_80),
             Done(if sum >= TWO_80 then Err(MonotonicOverflow) else Ok(sum)))
  {
    hide Increment, ToBE;
  }

  lemma {:induction false} StarvedCall<S(!new)>(read: Reader<S>, base: State<S>, ms: u64, draws: nat, src: S, error: Error)
    requires Fills(read) && base.ent != 0 && base.ms == ms
    requires Increment(read, base.src, base.inc, draws) == Starved(src, error)
    ensures ReadStep(read, base, ms, draws) == (base.(src := src), Done(Err(error)))
  {
  }

  /** The rejection loop after one draw, with `more` draws still to follow. */
  function AfterDraw<S(!new)>(read: Reader<S>, src: S, inc: nat, more: nat): Pick<S>
    requires Fills(read) && inc >= 2 && ByteLen(inc) > 0
  {
    match read(src, ByteLen(inc))
    case (src', Failed(error, _)) => Starved(src', error)
    case (src', Filled(bytes)) =>
      var c := Candidate(Mask(inc), bytes);
      if c == 0 || c >= inc then Draws(read, src', inc, more) else Picked(src', 1 + c)
  }

  lemma {:induction false} OneDraw<S(!new)>(read: Reader<S>, src: S, inc: nat, more: nat)
    requires Fills(read) && inc >= 2 && ByteLen(inc) > 0
    ensures Draws(read, src, inc, 1 + more) == AfterDraw(read, src, inc, more)
  {
  }

  lemma {:induction false} InsideTheLock<S(!new)>(read: Reader<S>, init: State<S>, w: World<S>, t: nat)
    requires Fills(read) && Inv(read, init, w) && t < |w.phases| && Inside(w.phases[t])
    ensures w.owner == Some(t) && Midway(read, Sequential(read, init, w.log, |w.log|), w.st, w.phases[t])
    ensures w.phases[t].Entered? ==> w.st == Sequential(read, init, w.log, |w.log|)
  {
  }

  lemma {:induction false} EnteredKeeps<S(!new)>(read: Reader<S>, init: State<S>, w: World<S>, t: nat, ms: u64)
    requires Fills(read) && Inv(read, init, w) && t < |w.phases| && w.phases[t] == Entered(ms)
    ensures Inv(read, init, EnterStep(read, w, t, ms))
  {
    InsideTheLock(read, init, w, t);
    var base := w.st;
    if base.ent != 0 && base.ms == ms {
      if base.inc >= 2 {
        ByteLenRange(base.inc);
      }
      hide Draws, ByteLen, Inv, Sequential;
      GotoKeeps(read, init, w, t, w.st, if w.st.inc <= 1 then Adding(ms, w.st, 0, 1) else Drawing(ms, w.st, 0));
    } else {
      FreshCall(read, base, ms);
      hide Inv, Sequential, ReadStep, Num;
      match read(base.src, 10) {
        case (src, Failed(error, _)) => CompleteKeeps(read, init, w, t, base.(src := src), ms, 0, Err(error));
        case (src, Filled(bytes)) =>
          var ent := Num(bytes, 256);
          CompleteKeeps(read, init, w, t, State(src, ms, ent, base.inc), ms, 0, Ok(ent));
      }
    }
  }

  /** One draw of a thread inside the lock: the call fails, or is still midway. */
  lemma {:induction false} DrawMidway<S(!new)>(read: Reader<S>, base: State<S>, st: State<S>, ms: u64, draws: nat)
    requires Fills(read) && Midway(read, base, st, Drawing(ms, base, draws))
    ensures base.inc >= 2 && ByteLen(base.inc) > 0 && st.inc == base.inc
    ensures match read(st.src, ByteLen(base.inc))
            case (src, Failed(error, _)) => ReadStep(read, base, ms, draws + 1) == (st.(src := src), Done(Err(error)))
            case (src, Filled(bytes)) =>
              var c := Candidate(Mask(base.inc), bytes);
              Midway(read, base, st.(src := src),
                     if c == 0 || c >= base.inc then Drawing(ms, base, draws + 1) else Adding(ms, base, draws + 1, 1 + c))
  {
    var inc := base.inc;
    forall more: nat ensures Draws(read, base.src, inc, draws + 1 + more) == AfterDraw(read, st.src, inc, more) {
      var m: nat := 1 + more;
      assert Draws(read, base.src, inc, draws + m) == Draws(read, st.src, inc, m);
      OneDraw(read, st.src, inc, more);
    }
    hide ReadStep, Draws, Candidate, Mask, ByteLen;
    assert Draws(read, base.src, inc, draws + 1 + 0) == AfterDraw(read, st.src, inc, 0);
    match read(st.src, ByteLen(inc)) {
      case (src, Failed(error, _)) => StarvedCall(read, base, ms, draws + 1, src, error);
      case (src, Filled(bytes)) =>
        var c := Candidate(Mask(inc), bytes);
        if c == 0 || c >= inc {
          forall more: nat ensures Draws(read, base.src, inc, (draws + 1) + more) == Draws(read, src, inc, more) {
            assert Draws(read, base.src, inc, draws + 1 + more) == AfterDraw(read, st.src, inc, more);
          }
        }
    }
  }

  lemma {:induction false} DrawingKeeps<S(!new)>(read: Reader<S>, init: State<S>, w: World<S>, t: nat,
                                                 ms: u64, before: State<S>, draws: nat)
    requires Fills(read) && Inv(read, init, w) && t < |w.phases| && w.phases[t] == Drawing(ms, before, draws)
    ensures w.st.inc >= 2 && Inv(read, init, DrawStep(read, w, t, ms, before, draws))
  {
    var base := Sequential(read, init, w.log, |w.log|);
    InsideTheLock(read, init, w, t);
    assert before == base;
    DrawMidway(read, base, w.st, ms, draws);
    hide Inv, Sequential, ReadStep, Midway, Candidate, Mask, ByteLen;
    match read(w.st.src, ByteLen(base.inc)) {
      case (src, Failed(error, _)) =>
        CompleteKeeps(read, init, w, t, w.st.(src := src), ms, draws + 1, Err(error));
      case (src, Filled(bytes)) =>
        var c := Candidate(Mask(base.inc), bytes);
        GotoKeeps(read, init, w, t, w.st.(src := src),
                  if c == 0 || c >= base.inc then Drawing(ms, base, draws + 1) else Adding(ms, base, draws + 1, 1 + c));
    }
  }

  lemma {:induction false} AddedFrom<S(!new)>(read: Reader<S>, base: State<S>, st: State<S>,
                                              ms: u64, before: State<S>, draws: nat, inc: nat)
    requires Fills(read) && Midway(read, base, st, Adding(ms, before, draws, inc))
    ensures ReadStep(read, base, ms, draws) == (Added(st, inc), Done(AddedResult(st, inc)))
  {
    hide ReadStep, Increment;
    assert st.ent == base.ent;
    AddedCall(read, base, ms, draws, st.src, inc);
    assert forall e: nat :: base.(src := st.src, ent := e) == st.(ent := e);
  }

  lemma {:induction false} AddingKeeps<S(!new)>(read: Reader<S>, init: State<S>, w: World<S>, t: nat,
                                                ms: u64, before: State<S>, draws: nat, inc: nat)
    requires Fills(read) && Inv(read, init, w) && t < |w.phases| && w.phases[t] == Adding(ms, before, draws, inc)
    ensures Inv(read, init, AddStep(w, t, ms, draws, inc))
  {
    var base := Sequential(read, init, w.log, |w.log|);
    InsideTheLock(read, init, w, t);
    AddedFrom(read, base, w.st, ms, before, draws, inc);
    hide Inv, Sequential, ReadStep, Midway, Complete, Added, AddedResult;
    CompleteKeeps(read, init, w, t, Added(w.st, inc), ms, draws, AddedResult(w.st, inc));
  }

  /** Every scheduler choice keeps the invariant, whatever the other threads are doing. */
  lemma {:induction false} ApplyKeeps<S(!new)>(read: Reader<S>, init: State<S>, w: World<S>, a: Action)
    requires Fills(read) && Inv(read, init, w)
    ensures Inv(read, init, Apply(read, w, a))
  {
    if a.thread < |w.phases| {
      var t := a.thread;
      if a.Work? {
        hide Inv, EnterStep, DrawStep, AddStep;
        match w.phases[t] {
          case Entered(ms) => EnteredKeeps(read, init, w, t, ms);
          case Drawing(ms, before, draws) => DrawingKeeps(read, init, w, t, ms, before, draws);
          case Adding(ms, before, draws, inc) => AddingKeeps(read, init, w, t, ms, before, draws, inc);
          case _ =>
        }
      } else {
        hide Sequential, Explained, WorkStep;
        assert Inside(w.phases[t]) <==> w.owner == Some(t);
      }
    }
  }

  lemma {:induction false} ExecuteKeeps<S(!new)>(read: Reader<S>, init: State<S>, threads: nat, schedule: seq<Action>)
    requires Fills(read)
    ensures Inv(read, init, Execute(read, Initial(init, threads), schedule))
    decreases |schedule|
  {
    if |schedule| > 0 {
      var n := |schedule| - 1;
      ExecuteKeeps(read, init, threads, schedule[..n]);
      hide Inv, Apply;
      ApplyKeeps(read, init, Execute(read, Initial(init, threads), schedule[..n]), schedule[n]);
    }
  }

  /**
   * Any number of threads, any milliseconds, any interleaving: at most one thread is between lock and unlock,
   * and the results are, in order of completion, those of one generator called sequentially.
   */
  lemma {:induction false} Linearizable<S(!new)>(read: Reader<S>, init: State<S>, threads: nat, schedule: seq<Action>)
    requires Fills(read)
    ensures var w := Execute(read, Initial(init, threads), schedule);
            && (forall t, u :: 0 <= t < |w.phases| && 0 <= u < |w.phases| && Inside(w.phases[t]) && Inside(w.phases[u]) ==> t == u)
            && Explained(read, init, w.log)
  {
    ExecuteKeeps(read, init, threads, schedule);
    hide Execute, Explained, Midway;
  }

  /** No deadlock: while anyone is in the middle of a call, some step other than a new call changes the world. */
  lemma {:induction false} NeverStuck<S(!new)>(read: Reader<S>, init: State<S>, w: World<S>, t: nat) returns (a: Action)
    requires Fills(read) && Inv(read, init, w) && t < |w.phases| && !w.phases[t].Idle?
    ensures !a.Clock? && Apply(read, w, a) != w
  {
    if w.owner.None? {
      assert !Inside(w.phases[t]);
      return Lock(t);
    }
    var u := w.owner.value;
    assert Inside(w.phases[u]);
    InsideTheLock(read, init, w, u);
    a := if w.phases[u].Leaving? then Unlock(u) else Work(u);
    hide Sequential, Inv, Draws, Increment, Candidate, Num, ByteLen;
    assert Apply(read, w, a).phases[u] != w.phases[u];
  }

  // ---------- make() ----------

  /** What `make` makes of a logged call: the time field and the entropy. */
  function Made(e: Entry): Result<seq<u8>> {
    match e.out
    case Ok(ent) => Ok(Identifier(e.ms, ent))
    case Err(error) => Err(error)
  }

  /** `make` gives up before the lock on a time that does not fit: every clock reading used is at most 48 bits. */
  ghost predicate ClockChecked(schedule: seq<Action>) {
    forall k :: 0 <= k < |schedule| && schedule[k].Clock? ==> schedule[k].ms <= MAX_TIME
  }

  ghost predicate InRange<S>(w: World<S>) {
    && (forall t :: 0 <= t < |w.phases| && !w.phases[t].Idle? && !w.phases[t].Leaving? ==> w.phases[t].ms <= MAX_TIME)
    && (forall n :: 0 <= n < |w.log| ==> w.log[n].ms <= MAX_TIME)
  }

  lemma {:induction false} ApplyInRange<S(!new)>(read: Reader<S>, w: World<S>, a: Action)
    requires Fills(read) && InRange(w) && (a.Clock? ==> a.ms <= MAX_TIME)
    ensures InRange(Apply(read, w, a))
  {
    hide Added, AddedResult, Num, Candidate, ByteLen, Mask;
  }

  lemma {:induction false} ExecuteInRange<S(!new)>(read: Reader<S>, init: State<S>, threads: nat, schedule: seq<Action>)
    requires Fills(read) && ClockChecked(schedule)
    ensures InRange(Execute(read, Initial(init, threads), schedule))
    decreases |schedule|
  {
    if |schedule| > 0 {
      var n := |schedule| - 1;
      ExecuteInRange(read, init, threads, schedule[..n]);
      hide InRange, Apply;
      ApplyInRange(read, Execute(read, Initial(init, threads), schedule[..n]), schedule[n]);
    }
  }

  /** The log as a run of `new_monotonic` calls. */
  function Requests(log: seq<Entry>): (r: seq<Request>)
    ensures |r| == |log|
  {
    seq(|log|, i requires 0 <= i < |log| => Request(log[i].ms, log[i].draws, []))
  }

  lemma {:induction false} SequentialIsRun<S(!new)>(read: Reader<S>, init: State<S>, log: seq<Entry>, n: nat)
    requires Fills(read) && n <= |log| && Explained(read, init, log)
    requires forall k :: 0 <= k < |log| ==> log[k].ms <= MAX_TIME
    ensures StateAt(read, init, Requests(log), n) == Sequential(read, init, log, n)
    ensures n < |log| ==> Output(read, init, Requests(log), n) == Done(Made(log[n]))
    decreases n
  {
    hide ReadStep, ToBE;
    if n > 0 {
      SequentialIsRun(read, init, log, n - 1);
    }
  }

  /** The identifiers made under any schedule are those of one sequential run of `new_monotonic`. */
  lemma {:induction false} MadeInOneRun<S(!new)>(read: Reader<S>, init: State<S>, threads: nat, schedule: seq<Action>)
    requires Fills(read) && ClockChecked(schedule)
    ensures var log := Execute(read, Initial(init, threads), schedule).log;
            forall n :: 0 <= n < |log| ==> Output(read, init, Requests(log), n) == Done(Made(log[n]))
  {
    Linearizable(read, init, threads, schedule);
    ExecuteInRange(read, init, threads, schedule);
    var log := Execute(read, Initial(init, threads), schedule).log;
    hide Execute, Output, Explained, Made;
    forall n | 0 <= n < |log| ensures Output(read, init, Requests(log), n) == Done(Made(log[n])) {
      SequentialIsRun(read, init, log, n);
    }
  }

  /**
   * Identifiers for different milliseconds sort as the milliseconds do, whichever left the lock first: for every
   * source, any number of threads, any interleaving, and whatever failed or overflowed.
   */
  lemma {:induction false} TimesDecideMade<S(!new)>(read: Reader<S>, init: State<S>, threads: nat, schedule: seq<Action>,
                                                    i: nat, j: nat)
    requires Fills(read) && init.ent < TWO_80 && ClockChecked(schedule)
    requires var log := Execute(read, Initial(init, threads), schedule).log;
             i < |log| && j < |log| && Made(log[i]).Ok? && Made(log[j]).Ok? && log[i].ms < log[j].ms
    ensures var log := Execute(read, Initial(init, threads), schedule).log;
            Compare(Made(log[i]).value, Made(log[j]).value) == Less
  {
    hide Execute, Output, Compare, Made;
    MadeInOneRun(read, init, threads, schedule);
    TimesDecide(read, init, Requests(Execute(read, Initial(init, threads), schedule).log), i, j);
  }

  /** The milliseconds reach the lock in order from entry `i` to entry `j`. */
  ghost predicate ClockForward(log: seq<Entry>, i: nat, j: nat)
    requires i <= j < |log|
  {
    forall a, b :: i <= a < b <= j ==> log[a].ms <= log[b].ms
  }

  /** No overflow between entries `i` and `j` at the millisecond they have in common, if they have one. */
  ghost predicate NoOverflowBetween(log: seq<Entry>, i: nat, j: nat)
    requires i < |log| && j < |log|
  {
    forall k :: i < k < j && log[k].ms == log[i].ms == log[j].ms ==> log[k].out != Err(MonotonicOverflow)
  }

  /**
   * The process-wide source under threads: of two identifiers between which the milliseconds reach the lock in
   * order, with no overflow of their common millisecond in between, the later is strictly greater, whichever
   * threads they went to. For one fixed millisecond, then, they are distinct across threads and increase within each.
   */
  lemma {:induction false} SharedSourceIncreases(init: State<bv64>, threads: nat, schedule: seq<Action>, i: nat, j: nat)
    requires Fills(RngRead) && init.src != 0 && init.ent < TWO_80 && ClockChecked(schedule)
    requires var log := Execute(RngRead, Initial(init, threads), schedule).log;
             && i < j < |log| && Made(log[i]).Ok? && Made(log[j]).Ok?
             && ClockForward(log, i, j) && NoOverflowBetween(log, i, j)
    ensures var log := Execute(RngRead, Initial(init, threads), schedule).log;
            Compare(Made(log[i]).value, Made(log[j]).value) == Less
  {
    hide Execute, Output, Compare, RngRead;
    MadeInOneRun(RngRead, init, threads, schedule);
    var log := Execute(RngRead, Initial(init, threads), schedule).log;
    RngRunIncreases(init, Requests(log), i, j);
  }

  /** Every identifier is strictly above every one that left the lock before it. */
  ghost predicate Ascending(log: seq<Entry>) {
    forall i, j :: 0 <= i < j < |log| && Made(log[i]).Ok? && Made(log[j]).Ok? ==>
      Compare(Made(log[i]).value, Made(log[j]).value) == Less
  }

  /** The milliseconds of the successful calls reach the lock in order. */
  ghost predicate InOrder(log: seq<Entry>) {
    forall i, j :: 0 <= i < j < |log| && Made(log[i]).Ok? && Made(log[j]).Ok? ==> log[i].ms <= log[j].ms
  }

  /**
   * Exactly when `make` hands out identifiers in ascending order: while no millisecond overflows between two
   * of its successes, if and only if the milliseconds of the successful calls reach the lock in order.
   */
  lemma {:induction false} AscendingExactly(init: State<bv64>, threads: nat, schedule: seq<Action>)
    requires Fills(RngRead) && init.src != 0 && init.ent < TWO_80 && ClockChecked(schedule)
    requires var log := Execute(RngRead, Initial(init, threads), schedule).log;
             forall i, j :: 0 <= i < j < |log| && log[i].out.Ok? && log[j].out.Ok? ==> NoOverflowBetween(log, i, j)
    ensures var log := Execute(RngRead, Initial(init, threads), schedule).log;
            Ascending(log) <==> InOrder(log)
  {
    hide Execute, Output, Compare, RngRead, NoOverflowBetween;
    var log := Execute(RngRead, Initial(init, threads), schedule).log;
    MadeInOneRun(RngRead, init, threads, schedule);
    forall i, j | 0 <= i < j < |log| && log[i].out.Ok? && log[j].out.Ok?
      ensures log[i].ms > log[j].ms ==> Compare(Made(log[i]).value, Made(log[j]).value) != Less
      ensures InOrder(log) ==> Compare(Made(log[i]).value, Made(log[j]).value) == Less
    {
      if log[i].ms < log[j].ms {
        TimesDecideMade(RngRead, init, threads, schedule, i, j);
      } else if log[i].ms > log[j].ms {
        TimesDecideMade(RngRead, init, threads, schedule, j, i);
        NotBothLess(Made(log[j]).value, Made(log[i]).value);
      } else if InOrder(log) {
        assert NoOverflowBetween(log, i, j);
        AscendsWithin(init, log, i, j);
      }
    }
  }

  lemma {:induction false} NotBothLess(a: seq<u8>, b: seq<u8>)
    requires |a| == |b| == RAW_SIZE && Compare(a, b) == Less
    ensures Compare(b, a) != Less
  {
    hide Compare, Text, Num;
    CompareIsNumeric(a, b);
    CompareIsNumeric(b, a);
  }

  /** Two successes of one millisecond between which the successes are in order. */
  lemma {:induction false} AscendsWithin(init: State<bv64>, log: seq<Entry>, i: nat, j: nat)
    requires Fills(RngRead) && init.src != 0 && init.ent < TWO_80 && i < j < |log| && log[i].ms == log[j].ms
    requires forall n :: 0 <= n < |log| ==> Output(RngRead, init, Requests(log), n) == Done(Made(log[n]))
    requires log[i].out.Ok? && log[j].out.Ok? && InOrder(log) && NoOverflowBetween(log, i, j)
    ensures Compare(Made(log[i]).value, Made(log[j]).value) == Less
  {
    hide Output, Compare, RngRead, Identifier;
    var reqs := Requests(log);
    assert Undisturbed(RngRead, init, reqs, reqs[i].ms, i, j) by {
      forall k | i < k < j && Success(Output(RngRead, init, reqs, k)) ensures log[k].ms == log[i].ms {
        assert Made(log[k]).Ok? && log[i].ms <= log[k].ms <= log[j].ms;
      }
    }
    EntropyDecides(RngRead, init, reqs, i, j);
    RngEntropyNonZero(init, reqs, j);
  }

  /**
   * The milliseconds do not have to reach the lock in order, because the clock is read first: two threads
   * and two clock readings give, for every source and every fresh generator, two identifiers that go back.
   */
  lemma {:induction false} ClockBeforeLock<S(!new)>(read: Reader<S>, init: State<S>)
    requires Fills(read) && init.ent == 0 && read(init.src, 10).1.Filled?
    requires read(read(init.src, 10).0, 10).1.Filled?
    ensures var schedule := [Clock(0, 1), Clock(1, 2), Lock(1), Work(1), Unlock(1), Lock(0), Work(0), Unlock(0)];
            var log := Execute(read, Initial(init, 2), schedule).log;
            |log| == 2 && Made(log[0]).Ok? && Made(log[1]).Ok? && Compare(Made(log[1]).value, Made(log[0]).value) == Less
  {
    hide Compare, Identifier, Num;
    var (src1, d1) := read(init.src, 10);
    var (src2, d2) := read(src1, 10);
    var e1, e2 := Num(d1.bytes, 256), Num(d2.bytes, 256);
    var w0 := Initial(init, 2);
    var w2 := Apply(read, Apply(read, w0, Clock(0, 1)), Clock(1, 2));
    assert w2 == World(init, None, [Timed(1), Timed(2)], []);
    var w4 := Apply(read, Apply(read, w2, Lock(1)), Work(1));
    assert w4 == World(State(src1, 2, e1, init.inc), Some(1), [Timed(1), Leaving], [Entry(1, 2, 0, Ok(e1))]);
    var w6 := Apply(read, Apply(read, w4, Unlock(1)), Lock(0));
    assert w6 == World(State(src1, 2, e1, init.inc), Some(0), [Entered(1), Idle], w4.log);
    var w8 := Apply(read, Apply(read, w6, Work(0)), Unlock(0));
    assert w8.log == w4.log + [Entry(0, 1, 0, Ok(e2))];
    ExecuteEight(read, w0, Clock(0, 1), Clock(1, 2), Lock(1), Work(1), Unlock(1), Lock(0), Work(0), Unlock(0));
    EntropyBound(d1.bytes);
    EntropyBound(d2.bytes);
    FieldsDecide(1, e2, 2, e1);
  }

  lemma {:induction false} FieldsDecide(ms: u64, e: nat, ms': u64, e': nat)
    requires ms < ms' <= MAX_TIME && e < TWO_80 && e' < TWO_80
    ensures Compare(Identifier(ms, e), Identifier(ms', e')) == Less
  {
    OrderOfFields(ms, e, ms', e');
  }

  lemma {:induction false} ExecuteEight<S(!new)>(read: Reader<S>, w: World<S>, a: Action, b: Action, c: Action, d: Action,
                                                 e: Action, f: Action, g: Action, h: Action)
    requires Fills(read)
    ensures Execute(read, w, [a, b, c, d, e, f, g, h]) ==
            Apply(read, Apply(read, Apply(read, Apply(read, Apply(read, Apply(read, Apply(read, Apply(read, w,
              a), b), c), d), e), f), g), h)
  {
    hide Apply;
    ExecuteLast(read, w, [], a);
    ExecuteLast(read, w, [a], b);
    ExecuteLast(read, w, [a, b], c);
    ExecuteLast(read, w, [a, b, c], d);
    ExecuteLast(read, w, [a, b, c, d], e);
    ExecuteLast(read, w, [a, b, c, d, e], f);
    ExecuteLast(read, w, [a, b, c, d, e, f], g);
    ExecuteLast(read, w, [a, b, c, d, e, f, g], h);
    hide Execute;
    assert [] + [a] == [a] && [a] + [b] == [a, b] && [a, b] + [c] == [a, b, c] && [a, b, c] + [d] == [a, b, c, d];
    assert [a, b, c, d] + [e] == [a, b, c, d, e] && [a, b, c, d, e] + [f] == [a, b, c, d, e, f];
    assert [a, b, c, d, e, f] + [g] == [a, b, c, d, e, f, g] && [a, b, c, d, e, f, g] + [h] == [a, b, c, d, e, f, g, h];
  }

  lemma {:induction false} ExecuteLast<S(!new)>(read: Reader<S>, w: World<S>, schedule: seq<Action>, a: Action)
    requires Fills(read)
    ensures Execute(read, w, schedule + [a]) == Apply(read, Execute(read, w, schedule), a)
    ensures schedule == [] ==> Execute(read, w, schedule) == w
  {
  }
}
