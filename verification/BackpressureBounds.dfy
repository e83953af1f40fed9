/** How full the gate of services/queue/src/main/scala/Backpressure.scala gets: exactly what one
    thread at a time sees, and a bound for threads that interleave. */
module BackpressureBounds {
  import opened Backpressure
  import opened MapSum

  // ---- One call after the other ----

  datatype Call = Enter | Leave

  /** The steps of a whole call of thread 0. */
  function StepsOf(call: Call): seq<Action> {
    match call
    case Enter => [TryAcquire(0), Continue(0), Continue(0), Continue(0)]
    case Leave => [Release(0), Continue(0), Continue(0)]
  }

  /** The world after whole calls, none of which overlaps another. */
  function AfterCalls(c: Config, calls: seq<Call>): World {
    if calls == [] then Initial({0})
    else Run(c, AfterCalls(c, calls[..|calls| - 1]), StepsOf(calls[|calls| - 1]))
  }

  function Depth(c: Config, calls: seq<Call>): int {
    AfterCalls(c, calls).gate.depth
  }

  predicate Open(c: Config, calls: seq<Call>) {
    AfterCalls(c, calls).gate.accepting
  }

  predicate AtRest(w: World) {
    w.threads == map[0 := Idle] && w.gate.depth == w.outstanding
  }

  /** What one more call does to a gate at rest. */
  lemma OneCall(c: Config, w: World, call: Call)
    requires AtRest(w)
    ensures var n := Run(c, w, StepsOf(call));
            AtRest(n) &&
            match call
            case Enter =>
              if w.gate.accepting then
                n.gate == Gate(w.gate.depth + 1, w.gate.depth + 1 < c.high, w.gate.accepted + 1, w.gate.rejected)
              else
                n.gate == w.gate.(rejected := w.gate.rejected + 1)
            case Leave =>
              if w.gate.depth > 0 then
                n.gate == w.gate.(depth := w.gate.depth - 1, accepting := w.gate.accepting || w.gate.depth - 1 <= c.low)
              else
                n == w
  {
    hide Step, Run;
    match call {
      case Enter => AcquireCall(c, w.gate);
      case Leave =>
        assert RELEASE + [Continue(0)] == StepsOf(Leave);
        if w.outstanding > 0 {
          ReleaseCall(c, w.gate);
        } else {
          RunThree(c, w, Release(0), Continue(0), Continue(0));
          NothingHappens(c, w);
        }
    }
  }

  lemma NothingHappens(c: Config, w: World)
    requires AtRest(w) && w.outstanding == 0
    ensures Step(c, w, Release(0)) == w && Step(c, w, Continue(0)) == w
  {
  }

  lemma {:induction false} CallsRest(c: Config, calls: seq<Call>)
    ensures AtRest(AfterCalls(c, calls))
  {
    if calls != [] {
      CallsRest(c, calls[..|calls| - 1]);
      OneCall(c, AfterCalls(c, calls[..|calls| - 1]), calls[|calls| - 1]);
    }
  }

  /** The i-th call was an acquire that found or left the gate at the high mark or above, and since
      then the depth has stayed above the low mark. */
  predicate FullSince(c: Config, calls: seq<Call>, i: int) {
    0 < i <= |calls| && calls[i - 1].Enter? && Depth(c, calls[..i]) >= c.high &&
    forall j | i <= j <= |calls| :: Depth(c, calls[..j]) > c.low
  }

  /** The gate is shut exactly if it was full once and has not been down to the low mark since. */
  lemma {:induction false} ShutExactlyWhen(c: Config, calls: seq<Call>)
    requires c.low < c.high
    ensures !Open(c, calls) <==> exists i :: FullSince(c, calls, i)
    decreases |calls|
  {
    hide FullSince, AfterCalls;
    if calls == [] {
      FirstOpen(c);
    } else {
      var init, call := calls[..|calls| - 1], calls[|calls| - 1];
      CallsRest(c, init);
      OneMoreCall(c, calls);
      OneCall(c, AfterCalls(c, init), call);
      ShutExactlyWhen(c, init);
      FullSinceSnoc(c, calls);
      if i :| FullSince(c, init, i) {
        StillAbove(c, init, i);
      }
    }
  }

  lemma StillAbove(c: Config, calls: seq<Call>, i: int)
    requires FullSince(c, calls, i)
    ensures Depth(c, calls) > c.low
  {
    assert calls[..|calls|] == calls;
  }

  lemma FirstOpen(c: Config)
    ensures Open(c, []) && forall i :: !FullSince(c, [], i)
  {
  }

  lemma OneMoreCall(c: Config, calls: seq<Call>)
    requires calls != []
    ensures AfterCalls(c, calls) == Run(c, AfterCalls(c, calls[..|calls| - 1]), StepsOf(calls[|calls| - 1]))
  {
  }

  lemma FullSinceSnoc(c: Config, calls: seq<Call>)
    requires calls != []
    ensures var init := calls[..|calls| - 1];
            (exists i :: FullSince(c, calls, i)) <==>
            Depth(c, calls) > c.low &&
            ((exists i :: FullSince(c, init, i)) || (calls[|calls| - 1].Enter? && Depth(c, calls) >= c.high))
  {
    hide AfterCalls;
    var init, n := calls[..|calls| - 1], |calls|;
    assert calls[..n] == calls;
    assert forall j | 0 <= j < n :: init[..j] == calls[..j];
    if i :| FullSince(c, calls, i) {
      assert Depth(c, calls[..n]) > c.low;
      if i < n {
        assert FullSince(c, init, i);
      }
    }
    if Depth(c, calls) > c.low {
      if i :| FullSince(c, init, i) {
        assert FullSince(c, calls, i);
      }
      if calls[n - 1].Enter? && Depth(c, calls) >= c.high {
        assert FullSince(c, calls, n);
      }
    }
  }

  /** A call is let in exactly if the gate is open, and then the depth grows by one; so calls that do
      not overlap never bring the depth above the high mark. */
  lemma {:induction false} NeverOverfull(c: Config, calls: seq<Call>)
    requires 0 < c.high && c.low < c.high
    ensures 0 <= Depth(c, calls) <= c.high && (Open(c, calls) ==> Depth(c, calls) < c.high)
    ensures Depth(c, calls + [Enter]) == Depth(c, calls) + if Open(c, calls) then 1 else 0
    ensures Depth(c, calls + [Leave]) == if Depth(c, calls) > 0 then Depth(c, calls) - 1 else 0
    decreases |calls|
  {
    hide Run;
    CallsRest(c, calls);
    assert (calls + [Enter])[..|calls|] == calls && (calls + [Leave])[..|calls|] == calls;
    OneCall(c, AfterCalls(c, calls), Enter);
    OneCall(c, AfterCalls(c, calls), Leave);
    if calls != [] {
      var init := calls[..|calls| - 1];
      NeverOverfull(c, init);
      CallsRest(c, init);
      OneCall(c, AfterCalls(c, init), calls[|calls| - 1]);
    }
  }
}
