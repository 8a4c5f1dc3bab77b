/** When the lock of the shared generator is freed: exactly when the rejection loop under it is decided. */
module LockLiveness {
  import opened Bits
  import opened PlaceValue
  import opened Entropy
  import opened Monotonic
  import opened MathRngs
  import opened RandomOutcomes
  import opened DefaultGenerator
  import opened LockedGenerator

  /** A thread in phase `p` frees the lock within `k` steps of its own. */
  ghost predicate Owes<S(!new)>(read: Reader<S>, st: State<S>, p: Phase<S>, k: nat)
    requires Fills(read)
  {
    match p
    case Leaving => k >= 1
    case Adding(_, _, _, _) => k >= 2
    case Drawing(_, _, _) => k >= 3 && st.inc >= 2 && !Increment(read, st.src, st.inc, k - 2).Undecided?
    case Entered(ms) =>
      k >= 2 && (st.ent != 0 && st.ms == ms ==> k >= 3 && !Increment(read, st.src, st.inc, k - 3).Undecided?)
    case _ => false
  }

  /** The step by which the thread inside the lock gets on. */
  function OwnStep<S>(p: Phase<S>, t: nat): Action {
    if p.Leaving? then Unlock(t) else Work(t)
  }

  lemma {:induction false} OwnStepPays<S(!new)>(read: Reader<S>, w: World<S>, t: nat, k: nat)
    requires Fills(read) && t < |w.phases| && w.owner == Some(t) && Owes(read, w.st, w.phases[t], k)
    ensures k > 0
    ensures var w' := Apply(read, w, OwnStep(w.phases[t], t));
            if w.phases[t].Leaving? then w'.owner == None
            else w'.owner == Some(t) && |w'.phases| == |w.phases| && Owes(read, w'.st, w'.phases[t], k - 1)
  {
    match w.phases[t] {
      case Drawing(ms, before, draws) =>
        ByteLenRange(w.st.inc);
        OneDraw(read, w.st.src, w.st.inc, k - 3);
        hide Draws, Candidate, Mask, ByteLen;
      case Entered(ms) =>
        hide Draws, Num;
      case _ =>
    }
  }

  /** Any other step leaves the thread inside the lock, and the generator, as they are. */
  lemma {:induction false} OthersWait<S(!new)>(read: Reader<S>, w: World<S>, t: nat, a: Action)
    requires Fills(read) && Exclusive(w) && t < |w.phases| && w.owner == Some(t) && a != OwnStep(w.phases[t], t)
    ensures var w' := Apply(read, w, a);
            w'.owner == Some(t) && |w'.phases| == |w.phases| && w'.phases[t] == w.phases[t] && w'.st == w.st
  {
    hide EnterStep, DrawStep, AddStep;
    assert Inside(w.phases[t]);
    if a.thread < |w.phases| && a.thread != t {
      assert !Inside(w.phases[a.thread]);
    }
  }

  /** How many steps of its own thread `t` takes in a schedule. */
  function OwnSteps<S(!new)>(read: Reader<S>, w: World<S>, schedule: seq<Action>, t: nat): nat
    requires Fills(read)
    decreases |schedule|
  {
    if |schedule| == 0 then 0
    else
      var n := |schedule| - 1;
      var before := Execute(read, w, schedule[..n]);
      OwnSteps(read, w, schedule[..n], t)
      + if t < |before.phases| && schedule[n] == OwnStep(before.phases[t], t) then 1 else 0
  }

  lemma {:induction false} InvAfter<S(!new)>(read: Reader<S>, init: State<S>, w: World<S>, schedule: seq<Action>)
    requires Fills(read) && Inv(read, init, w)
    ensures Inv(read, init, Execute(read, w, schedule))
    decreases |schedule|
  {
    if |schedule| > 0 {
      var n := |schedule| - 1;
      InvAfter(read, init, w, schedule[..n]);
      hide Inv, Apply;
      ApplyKeeps(read, init, Execute(read, w, schedule[..n]), schedule[n]);
    }
  }

  lemma {:induction false} OwnerInside<S(!new)>(read: Reader<S>, init: State<S>, w: World<S>)
    requires Fills(read) && Inv(read, init, w)
    ensures Exclusive(w) && (w.owner.Some? ==> w.owner.value < |w.phases|)
  {
  }

  /** Some part of the schedule takes the lock from `t`. */
  ghost predicate Freed<S(!new)>(read: Reader<S>, w: World<S>, schedule: seq<Action>, t: nat)
    requires Fills(read)
  {
    exists n :: 0 <= n <= |schedule| && Execute(read, w, schedule[..n]).owner != Some(t)
  }

  lemma {:induction false} FreedBefore<S(!new)>(read: Reader<S>, w: World<S>, schedule: seq<Action>, m: nat, t: nat)
    requires Fills(read) && m <= |schedule| && Freed(read, w, schedule[..m], t)
    ensures Freed(read, w, schedule, t)
  {
    hide Execute;
    var n :| 0 <= n <= m && Execute(read, w, schedule[..m][..n]).owner != Some(t);
    assert schedule[..m][..n] == schedule[..n];
  }

  lemma {:induction false} FreedAtEnd<S(!new)>(read: Reader<S>, w: World<S>, schedule: seq<Action>, t: nat)
    requires Fills(read) && Execute(read, w, schedule).owner != Some(t)
    ensures Freed(read, w, schedule, t)
  {
    hide Execute;
    assert schedule[..|schedule|] == schedule;
  }

  /** Every own step is paid off, until the lock is freed. */
  lemma {:induction false} PaysOrFrees<S(!new)>(read: Reader<S>, init: State<S>, w: World<S>, schedule: seq<Action>, t: nat, k: nat)
    requires Fills(read) && Inv(read, init, w) && w.owner == Some(t) && t < |w.phases| && Owes(read, w.st, w.phases[t], k)
    ensures Freed(read, w, schedule, t) ||
            var w', n := Execute(read, w, schedule), OwnSteps(read, w, schedule, t);
            w'.owner == Some(t) && t < |w'.phases| && n < k && Owes(read, w'.st, w'.phases[t], k - n)
    decreases |schedule|
  {
    hide Inv, Owes, Apply, Freed;
    if |schedule| == 0 {
      OwesSomething(read, w.st, w.phases[t], k);
    } else {
      var n := |schedule| - 1;
      PaysOrFrees(read, init, w, schedule[..n], t, k);
      if Freed(read, w, schedule[..n], t) {
        FreedBefore(read, w, schedule, n, t);
      } else {
        InvAfter(read, init, w, schedule[..n]);
        var v, paid := Execute(read, w, schedule[..n]), OwnSteps(read, w, schedule[..n], t);
        OwnerInside(read, init, v);
        if schedule[n] != OwnStep(v.phases[t], t) {
          OthersWait(read, v, t, schedule[n]);
        } else {
          OwnStepPays(read, v, t, k - paid);
          if v.phases[t].Leaving? {
            FreedAtEnd(read, w, schedule, t);
          } else {
            OwesSomething(read, Execute(read, w, schedule).st, Execute(read, w, schedule).phases[t], k - paid - 1);
          }
        }
      }
    }
  }

  lemma {:induction false} OwesSomething<S(!new)>(read: Reader<S>, st: State<S>, p: Phase<S>, k: nat)
    requires Fills(read) && Owes(read, st, p, k)
    ensures k > 0
  {
  }

  /** A thread that owes `k` steps has freed the lock by the time it has taken them, whatever the others do. */
  lemma {:induction false} FreedWithin<S(!new)>(read: Reader<S>, init: State<S>, w: World<S>, schedule: seq<Action>, t: nat, k: nat)
    requires Fills(read) && Inv(read, init, w) && w.owner == Some(t) && t < |w.phases| && Owes(read, w.st, w.phases[t], k)
    requires OwnSteps(read, w, schedule, t) >= k
    ensures Freed(read, w, schedule, t)
  {
    hide *;
    PaysOrFrees(read, init, w, schedule, t, k);
  }

  // ---------- The process-wide generator ----------

  ghost predicate LiveSource(w: World<bv64>) {
    w.st.src != 0 && w.st.inc == DEFAULT_BOUND
  }

  lemma {:induction false} EnterKeepsSource(w: World<bv64>, t: nat, ms: u64)
    requires Fills(RngRead) && LiveSource(w) && t < |w.phases|
    ensures LiveSource(EnterStep(RngRead, w, t, ms))
  {
    DrawsAreNonZero(w.st.src, 10);
    hide RngRead, Num;
  }

  lemma {:induction false} DrawKeepsSource(w: World<bv64>, t: nat, ms: u64, before: State<bv64>, draws: nat)
    requires Fills(RngRead) && LiveSource(w) && t < |w.phases| && w.st.inc >= 2
    ensures LiveSource(DrawStep(RngRead, w, t, ms, before, draws))
  {
    ByteLenRange(w.st.inc);
    DrawsAreNonZero(w.st.src, ByteLen(w.st.inc));
    hide RngRead, Candidate, Mask, ByteLen;
  }

  lemma {:induction false} ApplyKeepsSource(w: World<bv64>, a: Action)
    requires Fills(RngRead) && LiveSource(w)
    ensures LiveSource(Apply(RngRead, w, a))
  {
    hide EnterStep, DrawStep;
    if a.Work? && a.thread < |w.phases| {
      match w.phases[a.thread] {
        case Entered(ms) => EnterKeepsSource(w, a.thread, ms);
        case Drawing(ms, before, draws) => DrawKeepsSource(w, a.thread, ms, before, draws);
        case _ =>
      }
    }
  }

  lemma {:induction false} ExecuteKeepsSource(w: World<bv64>, schedule: seq<Action>)
    requires Fills(RngRead) && LiveSource(w)
    ensures LiveSource(Execute(RngRead, w, schedule))
    decreases |schedule|
  {
    hide LiveSource, Apply;
    if |schedule| > 0 {
      var n := |schedule| - 1;
      ExecuteKeepsSource(w, schedule[..n]);
      ApplyKeepsSource(Execute(RngRead, w, schedule[..n]), schedule[n]);
    }
  }

  lemma {:induction false} NineAreOwed(init: State<bv64>, w: World<bv64>, t: nat)
    requires Fills(RngRead) && LiveSource(w) && Inv(RngRead, init, w) && w.owner == Some(t)
    ensures t < |w.phases| && Owes(RngRead, w.st, w.phases[t], 9)
  {
    hide Midway, Explained, RngRead, Increment, Sequential;
    assert Inside(w.phases[t]);
    DefaultReturns(w.st, 0, 6);
    DefaultReturns(w.st, 0, 7);
  }

  /**
   * `make` never keeps the lock: from every state of the process-wide generator that any threads can reach, the
   * thread inside has freed the lock after nine steps of its own, whatever the others do in between.
   */
  lemma {:induction false} SharedLockIsFreed(init: State<bv64>, threads: nat, before: seq<Action>, schedule: seq<Action>, t: nat)
    requires Fills(RngRead) && init.src != 0 && init.inc == DEFAULT_BOUND
    requires Execute(RngRead, Initial(init, threads), before).owner == Some(t)
    requires OwnSteps(RngRead, Execute(RngRead, Initial(init, threads), before), schedule, t) >= 9
    ensures Freed(RngRead, Execute(RngRead, Initial(init, threads), before), schedule, t)
  {
    assert LiveSource(Initial(init, threads));
    hide *;
    var w := Execute(RngRead, Initial(init, threads), before);
    ExecuteKeeps(RngRead, init, threads, before);
    ExecuteKeepsSource(Initial(init, threads), before);
    NineAreOwed(init, w, t);
    FreedWithin(RngRead, init, w, schedule, t, 9);
  }

  // ---------- Exactly when the lock is freed ----------

  /** The thread inside the lock is in a loop that no number of draws decides. */
  ghost predicate Spinning<S(!new)>(read: Reader<S>, w: World<S>, t: nat)
    requires Fills(read)
  {
    && w.owner == Some(t) && t < |w.phases| && w.phases[t].Drawing? && w.st.inc >= 2
    && forall n: nat :: Increment(read, w.st.src, w.st.inc, n).Undecided?
  }

  lemma {:induction false} SpinsOn<S(!new)>(read: Reader<S>, w: World<S>, t: nat, a: Action)
    requires Fills(read) && Exclusive(w) && Spinning(read, w, t)
    ensures Spinning(read, Apply(read, w, a), t)
  {
    if a != OwnStep(w.phases[t], t) {
      OthersWait(read, w, t, a);
      hide Apply, Increment;
    } else {
      var p := w.phases[t];
      ByteLenRange(w.st.inc);
      forall n: nat ensures AfterDraw(read, w.st.src, w.st.inc, n).Undecided? {
        OneDraw(read, w.st.src, w.st.inc, n);
        assert Increment(read, w.st.src, w.st.inc, 1 + n).Undecided?;
      }
      hide Draws, Candidate, Mask, ByteLen;
      assert AfterDraw(read, w.st.src, w.st.inc, 0).Undecided?;
      var src' := read(w.st.src, ByteLen(w.st.inc)).0;
      forall n: nat ensures Increment(read, src', w.st.inc, n).Undecided? {
        assert AfterDraw(read, w.st.src, w.st.inc, n).Undecided?;
      }
    }
  }

  /** A loop that nothing decides keeps the lock under every schedule. */
  lemma {:induction false} SpinsForEver<S(!new)>(read: Reader<S>, init: State<S>, w: World<S>, schedule: seq<Action>, t: nat)
    requires Fills(read) && Inv(read, init, w) && Spinning(read, w, t)
    ensures Spinning(read, Execute(read, w, schedule), t)
    decreases |schedule|
  {
    hide Inv, Apply, Spinning;
    if |schedule| > 0 {
      var n := |schedule| - 1;
      SpinsForEver(read, init, w, schedule[..n], t);
      InvAfter(read, init, w, schedule[..n]);
      OwnerInside(read, init, Execute(read, w, schedule[..n]));
      SpinsOn(read, Execute(read, w, schedule[..n]), t, schedule[n]);
    }
  }

  lemma {:induction false} ExecuteFirst<S(!new)>(read: Reader<S>, w: World<S>, a: Action, schedule: seq<Action>)
    requires Fills(read)
    ensures Execute(read, w, [a] + schedule) == Execute(read, Apply(read, w, a), schedule)
    decreases |schedule|
  {
    hide Apply;
    var all, n := [a] + schedule, |schedule|;
    if n == 0 {
      assert all[..0] == [] && all[0] == a;
      assert Execute(read, w, all[..0]) == w;
    } else {
      ExecuteFirst(read, w, a, schedule[..n - 1]);
      assert all[..n] == [a] + schedule[..n - 1];
    }
  }

  /** The thread inside the lock, left alone, frees it. */
  lemma {:induction false} FreesAlone<S(!new)>(read: Reader<S>, w: World<S>, t: nat, k: nat) returns (schedule: seq<Action>)
    requires Fills(read) && w.owner == Some(t) && t < |w.phases| && Owes(read, w.st, w.phases[t], k)
    ensures Execute(read, w, schedule).owner == None
    decreases k
  {
    OwnStepPays(read, w, t, k);
    hide Apply, Owes;
    var a := OwnStep(w.phases[t], t);
    var rest: seq<Action> := [];
    if !w.phases[t].Leaving? {
      rest := FreesAlone(read, Apply(read, w, a), t, k - 1);
    }
    schedule := [a] + rest;
    ExecuteFirst(read, w, a, rest);
  }

  /** For every source: a thread in the rejection loop can be brought to free the lock if and only if the loop is decided. */
  lemma {:induction false} FreedExactly<S(!new)>(read: Reader<S>, init: State<S>, w: World<S>, t: nat)
    requires Fills(read) && Inv(read, init, w) && w.owner == Some(t) && t < |w.phases| && w.phases[t].Drawing?
    ensures (exists schedule :: Execute(read, w, schedule).owner != Some(t))
            <==> exists n: nat :: !Increment(read, w.st.src, w.st.inc, n).Undecided?
  {
    InsideTheLock(read, init, w, t) by { assert Inside(w.phases[t]); }
    assert w.st.inc >= 2;
    hide Inv, Apply, Execute, Increment, Midway;
    if n: nat :| !Increment(read, w.st.src, w.st.inc, n).Undecided? {
      DecidedHasDraws(read, w.st.src, w.st.inc, n);
      assert Owes(read, w.st, w.phases[t], n + 2);
      var schedule := FreesAlone(read, w, t, n + 2);
    } else {
      forall schedule ensures Execute(read, w, schedule).owner == Some(t) {
        SpinsForEver(read, init, w, schedule, t);
      }
    }
  }

  lemma {:induction false} DecidedHasDraws<S(!new)>(read: Reader<S>, src: S, inc: u64, n: nat)
    requires Fills(read) && inc >= 2 && !Increment(read, src, inc, n).Undecided?
    ensures n > 0
  {
    ByteLenRange(inc);
  }

  /** Over a source of zeros a generator with a non-zero accumulator and a bound of 2 or more is locked for ever. */
  lemma {:induction false} ZerosKeepTheLock(init: State<()>, threads: nat, schedule: seq<Action>)
    requires Fills(ZeroRead) && init.ent != 0 && init.inc >= 2 && threads > 0
    ensures var w := Execute(ZeroRead, Initial(init, threads), [Clock(0, init.ms), Lock(0), Work(0)]);
            && w.owner == Some(0)
            && Execute(ZeroRead, w, schedule).owner == Some(0) && |Execute(ZeroRead, w, schedule).phases| > 0
            && Execute(ZeroRead, w, schedule).phases[0].Drawing?
  {
    var w := Execute(ZeroRead, Initial(init, threads), [Clock(0, init.ms), Lock(0), Work(0)]);
    hide *;
    ZerosAreSpinning(init, threads);
    ExecuteKeeps(ZeroRead, init, threads, [Clock(0, init.ms), Lock(0), Work(0)]);
    SpinsForEver(ZeroRead, init, w, schedule, 0);
    SpinningHolds(ZeroRead, w, 0);
    SpinningHolds(ZeroRead, Execute(ZeroRead, w, schedule), 0);
  }

  lemma {:induction false} SpinningHolds<S(!new)>(read: Reader<S>, w: World<S>, t: nat)
    requires Fills(read) && Spinning(read, w, t)
    ensures w.owner == Some(t) && t < |w.phases| && w.phases[t].Drawing?
  {
  }

  lemma {:induction false} ZerosAreSpinning(init: State<()>, threads: nat)
    requires Fills(ZeroRead) && init.ent != 0 && init.inc >= 2 && threads > 0
    ensures Spinning(ZeroRead, Execute(ZeroRead, Initial(init, threads), [Clock(0, init.ms), Lock(0), Work(0)]), 0)
  {
    ZerosUndecided(init.src, init.inc);
    hide Execute, Increment;
    var w0 := Initial(init, threads);
    ExecuteThree(ZeroRead, w0, Clock(0, init.ms), Lock(0), Work(0));
    var w1 := Apply(ZeroRead, w0, Clock(0, init.ms));
    assert w1 == World(init, None, w0.phases[0 := Timed(init.ms)], []);
    var w2 := Apply(ZeroRead, w1, Lock(0));
    assert w2 == World(init, Some(0), w0.phases[0 := Entered(init.ms)], []);
    assert Apply(ZeroRead, w2, Work(0)) == World(init, Some(0), w0.phases[0 := Drawing(init.ms, init, 0)], []);
  }

  lemma {:induction false} ZerosUndecided(src: (), inc: u64)
    requires Fills(ZeroRead) && inc >= 2
    ensures forall n: nat :: Increment(ZeroRead, src, inc, n).Undecided?
  {
    hide Draws;
    forall n: nat ensures Increment(ZeroRead, src, inc, n).Undecided? {
      assert src == ();
      ZerosNeverSettle(inc, n);
    }
  }

  lemma {:induction false} ExecuteThree<S(!new)>(read: Reader<S>, w: World<S>, a: Action, b: Action, c: Action)
    requires Fills(read)
    ensures Execute(read, w, [a, b, c]) == Apply(read, Apply(read, Apply(read, w, a), b), c)
  {
    hide Apply;
    ExecuteLast(read, w, [], a);
    ExecuteLast(read, w, [a], b);
    ExecuteLast(read, w, [a, b], c);
    hide Execute;
    assert [] + [a] == [a] && [a] + [b] == [a, b] && [a, b] + [c] == [a, b, c];
  }
}
