/**
 The trailing-edge debounce wrapped around the slider handler, on an
 abstract integer clock. The timer holds at most one pending deadline: each
 call cancels it and schedules a new one `Wait` time units later, and the
 wrapped function runs once when the clock reaches the deadline with no
 further call in between.
 */
module Debounce {
  import opened Seqs

  /** The debounce window used for the slider. */
  const Wait: int := 300

  /** The single pending callback, if any, by its deadline. */
  datatype Timer = Idle | Pending(deadline: int)

  /** A call at time `now`: the previous deadline is dropped and a new one set. */
  function Call(t: Timer, now: int): (t': Timer)
    ensures t'.Pending? && t'.deadline - now == Wait
  {
    Pending(now + Wait)
  }

  /** The pending callback is due once the clock has reached its deadline. */
  predicate Due(t: Timer, now: int) {
    t.Pending? && t.deadline <= now
  }

  /**
   The clock reaches `now`: a due callback runs, once, and the timer becomes
   idle; otherwise nothing happens. The second component says whether the
   callback ran.
   */
  function Advance(t: Timer, now: int): (r: (Timer, bool))
    ensures r.1 <==> Due(t, now)
    ensures r.1 ==> r.0 == Idle
    ensures !r.1 ==> r.0 == t
  {
    if Due(t, now) then (Idle, true) else (t, false)
  }

  /**
   Calls at the given times. Before each call the clock is advanced to the
   call's time, so a deadline equal to that time runs first. Returns the
   final timer and the deadlines at which the callback ran. Each call
   replaces the deadline, so after a non-empty run the only one pending is
   the last call's plus `Wait`, and every call runs the callback at most
   once, the first one not at all from an idle timer. The times are meant
   to be in clock order; nothing here depends on it.
   */
  function Run(t: Timer, calls: seq<int>): (r: (Timer, seq<int>))
    ensures |calls| == 0 ==> r == (t, [])
    ensures |calls| >= 1 ==> r.0 == Pending(calls[|calls| - 1] + Wait)
    ensures |r.1| <= |calls|
    ensures t.Idle? && |calls| >= 1 ==> |r.1| < |calls|
    decreases |calls|
  {
    if |calls| == 0 then (t, [])
    else
      var a := Advance(t, calls[0]);
      var rest := Run(Call(a.0, calls[0]), calls[1..]);
      (rest.0, (if a.1 then [t.deadline] else []) + rest.1)
  }

  /** The callback still pending once no call follows. */
  function Settle(t: Timer): seq<int> {
    if t.Pending? then [t.deadline] else []
  }

  /** The times at which the callback runs for calls at the given times, starting idle. */
  function Firings(calls: seq<int>): (r: seq<int>)
    ensures |calls| == 0 <==> |r| == 0
    ensures |r| <= |calls|
    ensures |calls| >= 1 ==> r[|r| - 1] == calls[|calls| - 1] + Wait
  {
    var r := Run(Idle, calls);
    r.1 + Settle(r.0)
  }

  /**
   Reference definition: the callback scheduled by call `k` runs, at
   `calls[k] + Wait`, exactly when the call is the last one or the next call
   comes no earlier than that.
   */
  function Survivors(calls: seq<int>): (r: seq<int>)
    ensures |calls| == 0 <==> |r| == 0
    ensures |r| <= |calls|
    ensures |calls| >= 1 ==> r[|r| - 1] == calls[|calls| - 1] + Wait
    decreases |calls|
  {
    if |calls| == 0 then []
    else if |calls| == 1 then [calls[0] + Wait]
    else Verdict(calls[0], calls[1]) + Survivors(calls[1..])
  }

  /** The first of two calls is dropped when the second comes before its deadline. */
  function Verdict(first: int, second: int): (r: seq<int>)
    ensures |r| <= 1
    ensures r == [] <==> second < first + Wait
  {
    if second < first + Wait then [] else [first + Wait]
  }

  /** One step of a run from a timer just set by the first call. */
  lemma RunFromPending(calls: seq<int>)
    requires |calls| >= 2
    ensures var r := Run(Pending(calls[0] + Wait), calls[1..]);
            var next := Run(Pending(calls[1] + Wait), calls[2..]);
            r.0 == next.0 && r.1 == Verdict(calls[0], calls[1]) + next.1
  {
    var rest := calls[1..];
    assert rest[0] == calls[1];
    assert rest[1..] == calls[2..];
  }

  /** One step of the reference definition. */
  lemma SurvivorsStep(calls: seq<int>)
    requires |calls| >= 2
    ensures Survivors(calls) == Verdict(calls[0], calls[1]) + Survivors(calls[1..])
  {
  }

  /** The bookkeeping of the inductive step, stated on opaque values. */
  lemma StepAlgebra(r: (Timer, seq<int>), next: (Timer, seq<int>), head: seq<int>, all: seq<int>, later: seq<int>)
    requires r.0 == next.0 && r.1 == head + next.1
    requires all == head + later && next.1 + Settle(next.0) == later
    ensures r.1 + Settle(r.0) == all
  {
    ConcatAssoc(head, next.1, Settle(next.0));
  }

  /** The inductive step: the first call's verdict followed by the verdicts for the rest. */
  lemma RunMatchesStep(calls: seq<int>)
    requires |calls| >= 2
    requires var next := Run(Pending(calls[1] + Wait), calls[2..]);
             next.1 + Settle(next.0) == Survivors(calls[1..])
    ensures var r := Run(Pending(calls[0] + Wait), calls[1..]);
            r.1 + Settle(r.0) == Survivors(calls)
  {
    RunFromPending(calls);
    SurvivorsStep(calls);
    StepAlgebra(Run(Pending(calls[0] + Wait), calls[1..]), Run(Pending(calls[1] + Wait), calls[2..]),
                Verdict(calls[0], calls[1]), Survivors(calls), Survivors(calls[1..]));
  }

  /** A single call runs the callback once, `Wait` after it. */
  lemma RunMatchesLast(calls: seq<int>)
    requires |calls| == 1
    ensures var r := Run(Pending(calls[0] + Wait), calls[1..]);
            r.1 + Settle(r.0) == Survivors(calls)
  {
    assert Run(Pending(calls[0] + Wait), calls[1..]) == (Pending(calls[0] + Wait), []);
  }

  /** A timer just set by the first call behaves as the reference prescribes for all the calls. */
  lemma {:induction false} RunMatchesSurvivors(calls: seq<int>)
    requires |calls| >= 1
    ensures var r := Run(Pending(calls[0] + Wait), calls[1..]);
            r.1 + Settle(r.0) == Survivors(calls)
    decreases |calls|
  {
    if |calls| == 1 {
      RunMatchesLast(calls);
    } else {
      RunMatchesSurvivors(calls[1..]);
      assert calls[1..][0] == calls[1] && calls[1..][1..] == calls[2..];
      RunMatchesStep(calls);
    }
  }

  /** The operational timer and the reference definition agree on every sequence of call times. */
  lemma FiringsMatchSurvivors(calls: seq<int>)
    ensures Firings(calls) == Survivors(calls)
  {
    if |calls| > 0 {
      var r := Run(Idle, calls);
      var next := Run(Pending(calls[0] + Wait), calls[1..]);
      assert Advance(Idle, calls[0]) == (Idle, false);
      assert r.1 == [] + next.1 == next.1;
      RunMatchesSurvivors(calls);
    }
  }

  /**
   A burst of calls whose gaps are all shorter than `Wait` runs the
   callback exactly once, `Wait` after the last call.
   */
  lemma {:induction false} BurstSurvivors(calls: seq<int>)
    requires |calls| >= 1
    requires forall k :: 0 <= k < |calls| - 1 ==> calls[k + 1] < calls[k] + Wait
    ensures Survivors(calls) == [calls[|calls| - 1] + Wait]
    decreases |calls|
  {
    if |calls| > 1 {
      BurstSurvivors(calls[1..]);
    }
  }

  /** The debounced callback of a burst runs once, at the last call plus `Wait`. */
  lemma BurstFiresOnce(calls: seq<int>)
    requires |calls| >= 1
    requires forall k :: 0 <= k < |calls| - 1 ==> calls[k + 1] < calls[k] + Wait
    ensures Firings(calls) == [calls[|calls| - 1] + Wait]
  {
    FiringsMatchSurvivors(calls);
    BurstSurvivors(calls);
  }

  /** Calls spaced at least `Wait` apart each run the callback once, `Wait` after the call. */
  lemma {:induction false} SpacedSurvivors(calls: seq<int>)
    requires forall k :: 0 <= k < |calls| - 1 ==> calls[k + 1] >= calls[k] + Wait
    ensures |Survivors(calls)| == |calls|
    ensures forall k :: 0 <= k < |calls| ==> Survivors(calls)[k] == calls[k] + Wait
    decreases |calls|
  {
    if |calls| > 1 {
      SpacedSurvivors(calls[1..]);
    }
  }

  /** Spaced calls are never coalesced. */
  lemma SpacedFiresEach(calls: seq<int>)
    requires forall k :: 0 <= k < |calls| - 1 ==> calls[k + 1] >= calls[k] + Wait
    ensures |Firings(calls)| == |calls|
    ensures forall k :: 0 <= k < |calls| ==> Firings(calls)[k] == calls[k] + Wait
  {
    FiringsMatchSurvivors(calls);
    SpacedSurvivors(calls);
  }
}
