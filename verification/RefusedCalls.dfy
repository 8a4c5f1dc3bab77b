/** Calls for times that do not fit: as if they had never been made. */
module RefusedCalls {
  import opened Bits
  import opened Errors
  import opened Ulids
  import opened Entropy
  import opened Monotonic
  import opened Runs

  /** What is done to the generator before the first remaining call, and the calls that remain. */
  datatype Remaining = Remaining(lead: seq<Aside>, calls: seq<Request>)

  /** A run without its calls above the largest time; what was done after one of them is done where it stood. */
  function Without(reqs: seq<Request>): Remaining
    decreases |reqs|
  {
    if |reqs| == 0 then Remaining([], [])
    else
      var n := |reqs| - 1;
      var rest, r := Without(reqs[..n]), reqs[n];
      if r.ms <= MAX_TIME then rest.(calls := rest.calls + [r])
      else if rest.calls == [] then rest.(lead := rest.lead + r.asides)
      else
        var last := rest.calls[|rest.calls| - 1];
        rest.(calls := rest.calls[..|rest.calls| - 1] + [last.(asides := last.asides + r.asides)])
  }

  /** The state after a whole run. */
  function Final<S(!new)>(read: Reader<S>, st: State<S>, reqs: seq<Request>): State<S>
    requires Fills(read)
  {
    StateAt(read, st, reqs, |reqs|)
  }

  /** The outcomes of the calls that are not above the largest time, in order. */
  function Outcomes<S(!new)>(read: Reader<S>, st: State<S>, reqs: seq<Request>): seq<Outcome<seq<u8>>>
    requires Fills(read)
    decreases |reqs|
  {
    if |reqs| == 0 then []
    else
      var n := |reqs| - 1;
      Outcomes(read, st, reqs[..n]) + if reqs[n].ms <= MAX_TIME then [Output(read, st, reqs, n)] else []
  }

  lemma {:induction false} PrefixState<S(!new)>(read: Reader<S>, st: State<S>, a: seq<Request>, b: seq<Request>, n: nat)
    requires Fills(read) && n <= |a| && n <= |b| && a[..n] == b[..n]
    ensures StateAt(read, st, a, n) == StateAt(read, st, b, n)
    decreases n
  {
    hide NewStep, Interleaved;
    if n > 0 {
      assert a[..n - 1] == a[..n][..n - 1] && b[..n - 1] == b[..n][..n - 1];
      PrefixState(read, st, a, b, n - 1);
      assert a[n - 1] == a[..n][n - 1] && b[n - 1] == b[..n][n - 1];
    }
  }

  /** A run and one more call. */
  lemma {:induction false} OneMoreCall<S(!new)>(read: Reader<S>, st: State<S>, reqs: seq<Request>, r: Request)
    requires Fills(read)
    ensures var s := Final(read, st, reqs);
            && Final(read, st, reqs + [r]) == Interleaved(read, NewStep(read, s, r.ms, r.fuel).0, r.asides)
            && Output(read, st, reqs + [r], |reqs|) == NewStep(read, s, r.ms, r.fuel).1
            && Outcomes(read, st, reqs + [r]) ==
               Outcomes(read, st, reqs) + if r.ms <= MAX_TIME then [NewStep(read, s, r.ms, r.fuel).1] else []
  {
    hide NewStep, Interleaved;
    PrefixState(read, st, reqs + [r], reqs, |reqs|);
    assert (reqs + [r])[..|reqs|] == reqs;
  }

  lemma {:induction false} InterleavedTwice<S(!new)>(read: Reader<S>, st: State<S>, a: seq<Aside>, b: seq<Aside>)
    ensures Interleaved(read, st, a + b) == Interleaved(read, Interleaved(read, st, a), b)
    decreases |b|
  {
    if |b| == 0 {
      assert a + b == a;
    } else {
      assert (a + b)[..|a + b| - 1] == a + b[..|b| - 1];
      InterleavedTwice(read, st, a, b[..|b| - 1]);
    }
  }

  /** More done after the last call. */
  lemma {:induction false} MoreAsides<S(!new)>(read: Reader<S>, st: State<S>, reqs: seq<Request>, r: Request, more: seq<Aside>)
    requires Fills(read)
    ensures var longer := reqs + [r.(asides := r.asides + more)];
            && Final(read, st, longer) == Interleaved(read, Final(read, st, reqs + [r]), more)
            && Outcomes(read, st, longer) == Outcomes(read, st, reqs + [r])
  {
    hide NewStep, Interleaved, Final, Outcomes;
    OneMoreCall(read, st, reqs, r);
    OneMoreCall(read, st, reqs, r.(asides := r.asides + more));
    InterleavedTwice(read, NewStep(read, Final(read, st, reqs), r.ms, r.fuel).0, r.asides, more);
  }

  /** The two runs agree: same end, same outcomes, and nothing refused is left. */
  ghost predicate Same<S(!new)>(read: Reader<S>, st: State<S>, reqs: seq<Request>, rest: Remaining)
    requires Fills(read)
  {
    var start := Interleaved(read, st, rest.lead);
    && (forall i :: 0 <= i < |rest.calls| ==> rest.calls[i].ms <= MAX_TIME)
    && Final(read, start, rest.calls) == Final(read, st, reqs)
    && Outcomes(read, start, rest.calls) == Outcomes(read, st, reqs)
  }

  lemma {:induction false} KeepCall<S(!new)>(read: Reader<S>, st: State<S>, reqs: seq<Request>, rest: Remaining, r: Request)
    requires Fills(read) && Same(read, st, reqs, rest) && r.ms <= MAX_TIME
    ensures Same(read, st, reqs + [r], rest.(calls := rest.calls + [r]))
  {
    hide NewStep, Interleaved, Final, Outcomes;
    OneMoreCall(read, st, reqs, r);
    OneMoreCall(read, Interleaved(read, st, rest.lead), rest.calls, r);
  }

  /** A refused call adds to a run what is done after it, and nothing else. */
  lemma {:induction false} RefuseCall<S(!new)>(read: Reader<S>, st: State<S>, reqs: seq<Request>, r: Request)
    requires Fills(read) && r.ms > MAX_TIME
    ensures Final(read, st, reqs + [r]) == Interleaved(read, Final(read, st, reqs), r.asides)
    ensures Outcomes(read, st, reqs + [r]) == Outcomes(read, st, reqs)
  {
    hide Interleaved, Final, Outcomes;
    OneMoreCall(read, st, reqs, r);
    RefusedStep(read, Final(read, st, reqs), r);
    hide NewStep;
  }

  lemma {:induction false} DropFirst<S(!new)>(read: Reader<S>, st: State<S>, reqs: seq<Request>, rest: Remaining, r: Request)
    requires Fills(read) && Same(read, st, reqs, rest) && r.ms > MAX_TIME && rest.calls == []
    ensures Same(read, st, reqs + [r], rest.(lead := rest.lead + r.asides))
  {
    hide Interleaved;
    RefuseCall(read, st, reqs, r);
    InterleavedTwice(read, st, rest.lead, r.asides);
  }

  lemma {:induction false} DropLater<S(!new)>(read: Reader<S>, st: State<S>, reqs: seq<Request>, rest: Remaining,
                                              front: seq<Request>, last: Request, r: Request)
    requires Fills(read) && Same(read, st, reqs, rest) && r.ms > MAX_TIME && rest.calls == front + [last]
    ensures Same(read, st, reqs + [r], rest.(calls := front + [last.(asides := last.asides + r.asides)]))
  {
    hide Interleaved, Final, Outcomes;
    RefuseCall(read, st, reqs, r);
    MoreAsides(read, Interleaved(read, st, rest.lead), front, last, r.asides);
    assert rest.calls[|front|].ms <= MAX_TIME;
    assert forall i :: 0 <= i < |front| ==> front[i] == rest.calls[i];
  }

  /** Deleting the refused calls of a run changes neither another outcome nor the state it ends in. */
  lemma {:induction false} RefusedCallsVanish<S(!new)>(read: Reader<S>, st: State<S>, reqs: seq<Request>)
    requires Fills(read)
    ensures Same(read, st, reqs, Without(reqs))
    decreases |reqs|
  {
    if |reqs| > 0 {
      hide Same;
      var n := |reqs| - 1;
      var rest, r := Without(reqs[..n]), reqs[n];
      RefusedCallsVanish(read, st, reqs[..n]);
      assert reqs == reqs[..n] + [r];
      if r.ms <= MAX_TIME {
        KeepCall(read, st, reqs[..n], rest, r);
      } else if rest.calls == [] {
        DropFirst(read, st, reqs[..n], rest, r);
      } else {
        var k := |rest.calls| - 1;
        assert rest.calls == rest.calls[..k] + [rest.calls[k]];
        DropLater(read, st, reqs[..n], rest, rest.calls[..k], rest.calls[k], r);
      }
    } else {
      assert Interleaved(read, st, []) == st;
    }
  }

  /** A refused call reports the time and touches nothing. */
  lemma {:induction false} RefusedStep<S(!new)>(read: Reader<S>, st: State<S>, r: Request)
    requires Fills(read) && r.ms > MAX_TIME
    ensures NewStep(read, st, r.ms, r.fuel) == (st, Done(Err(BigTime)))
  {
  }

  /** Plain reads take bytes off the front of a slice, which later calls then do not see; a new bound is in force. */
  lemma {:induction false} AsidesAct(st: State<seq<u8>>, n: nat, inc: u64)
    requires Fills(SliceRead)
    ensures Interleaved(SliceRead, st, [PlainRead(n)]) == st.(src := if n <= |st.src| then st.src[n..] else st.src)
    ensures Interleaved(SliceRead, st, [SetBound(inc)]) == st.(inc := inc)
  {
    assert [PlainRead(n)][..0] == [] && [SetBound(inc)][..0] == [];
    assert Interleaved(SliceRead, st, [PlainRead(n)][..0]) == st && Interleaved(SliceRead, st, [SetBound(inc)][..0]) == st;
  }
}
