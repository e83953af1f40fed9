/** services/queue/src/main/scala/Backpressure.scala: the hysteresis gate as the
    sequence of atomic operations each thread performs, in any interleaving. */
module Backpressure {

  /** Where a thread is.  Each step below is one operation on one atomic field. */
  datatype Pc =
    | Idle                        // not in a call
    | AcquireInc                  // read accepting as true, about to increment depth
    | AcquireTest(newDepth: int)  // incremented, about to compare with the high mark
    | AcquireCount                // about to increment totalAccepted and return true
    | RejectCount                 // read accepting as false, about to count the rejection
    | ReleaseTest(newDepth: int)  // decremented, about to compare and read accepting
    | ReleaseOpen                 // saw a low depth and a shut gate, about to open it

  datatype Gate = Gate(depth: int, accepting: bool, accepted: nat, rejected: nat)

  datatype Config = Config(high: int, low: int)

  /** The gate, the slots acquired and not yet released, and the threads. */
  datatype World = World(gate: Gate, outstanding: nat, threads: map<nat, Pc>)

  /** What the scheduler does next: lets a thread begin a call or continue one. */
  datatype Action = TryAcquire(t: nat) | Release(t: nat) | Continue(t: nat)

  function Initial(threads: set<nat>): World {
    World(Gate(0, true, 0, 0), 0, map t | t in threads :: Idle)
  }

  /** One atomic step; an action that is not enabled changes nothing.  A release
      may begin only against a completed acquire, by whichever thread made it. */
  function Step(c: Config, w: World, a: Action): World {
    var g, t := w.gate, a.t;
    if t !in w.threads then w
    else
      match (a, w.threads[t])
      case (TryAcquire(_), Idle) =>
        w.(threads := w.threads[t := if g.accepting then AcquireInc else RejectCount])
      case (Release(_), Idle) =>
        if w.outstanding == 0 then w
        else w.(gate := g.(depth := g.depth - 1), outstanding := w.outstanding - 1,
                threads := w.threads[t := ReleaseTest(g.depth - 1)])
      case (Continue(_), AcquireInc) =>
        w.(gate := g.(depth := g.depth + 1), threads := w.threads[t := AcquireTest(g.depth + 1)])
      case (Continue(_), AcquireTest(d)) =>
        w.(gate := if d >= c.high then g.(accepting := false) else g, threads := w.threads[t := AcquireCount])
      case (Continue(_), AcquireCount) =>
        w.(gate := g.(accepted := g.accepted + 1), outstanding := w.outstanding + 1,
           threads := w.threads[t := Idle])
      case (Continue(_), RejectCount) =>
        w.(gate := g.(rejected := g.rejected + 1), threads := w.threads[t := Idle])
      case (Continue(_), ReleaseTest(d)) =>
        w.(threads := w.threads[t := if d <= c.low && !g.accepting then ReleaseOpen else Idle])
      case (Continue(_), ReleaseOpen) =>
        w.(gate := g.(accepting := true), threads := w.threads[t := Idle])
      case _ => w
  }

  function Run(c: Config, w: World, actions: seq<Action>): World
    decreases |actions|
  {
    if actions == [] then w else Run(c, Step(c, w, actions[0]), actions[1..])
  }

  // ---- Slots taken by acquires still under way ----

  function Slots(pc: Pc): nat {
    if pc.AcquireTest? || pc.AcquireCount? then 1 else 0
  }

  ghost function InFlight(m: map<nat, Pc>): (n: nat)
    decreases |m|
  {
    if m == map[] then 0
    else
      var t :| t in m;
      Slots(m[t]) + InFlight(m - {t})
  }

  lemma {:induction false} InFlightRemove(m: map<nat, Pc>, t: nat)
    requires t in m
    ensures InFlight(m) == Slots(m[t]) + InFlight(m - {t})
    decreases |m|
  {
    var u :| u in m && InFlight(m) == Slots(m[u]) + InFlight(m - {u});
    if u != t {
      InFlightRemove(m - {u}, t);
      InFlightRemove(m - {t}, u);
      assert m - {u} - {t} == m - {t} - {u};
    }
  }

  lemma InFlightUpdate(m: map<nat, Pc>, t: nat, pc: Pc)
    requires t in m
    ensures InFlight(m[t := pc]) == InFlight(m) - Slots(m[t]) + Slots(pc)
  {
    InFlightRemove(m, t);
    InFlightRemove(m[t := pc], t);
    assert m[t := pc] - {t} == m - {t};
  }

  lemma {:induction false} NoneInFlight(m: map<nat, Pc>)
    requires forall t | t in m :: Slots(m[t]) == 0
    ensures InFlight(m) == 0
    decreases |m|
  {
    if m != map[] {
      var t :| t in m && InFlight(m) == Slots(m[t]) + InFlight(m - {t});
      NoneInFlight(m - {t});
    }
  }

  // ---- The invariant ----

  /** A release that has seen, or is about to see, a low depth while the gate is shut. */
  predicate WillReopen(c: Config, pc: Pc) {
    (pc.ReleaseTest? && pc.newDepth <= c.low) || pc.ReleaseOpen?
  }

  ghost predicate DepthCounts(w: World) {
    w.gate.depth == w.outstanding + InFlight(w.threads)
  }

  /** Depth counts the slots held and being taken, and a shut gate always has
      either a slot outstanding or a release on its way to open it. */
  ghost predicate Inv(c: Config, w: World) {
    DepthCounts(w) &&
    (w.gate.accepting || w.gate.depth > 0 || exists t :: t in w.threads && WillReopen(c, w.threads[t]))
  }

  lemma InitialInv(c: Config, threads: set<nat>)
    ensures Inv(c, Initial(threads))
  {
    NoneInFlight(Initial(threads).threads);
  }

  lemma StepDepth(c: Config, w: World, a: Action)
    requires DepthCounts(w)
    ensures DepthCounts(Step(c, w, a))
  {
    var w', t := Step(c, w, a), a.t;
    if w' != w {
      InFlightUpdate(w.threads, t, w'.threads[t]);
      InFlightRemove(w'.threads, t);
    }
  }

  lemma {:induction false} RunDepth(c: Config, w: World, actions: seq<Action>)
    requires DepthCounts(w)
    ensures DepthCounts(Run(c, w, actions))
    decreases |actions|
  {
    hide DepthCounts, Step;
    if actions != [] {
      StepDepth(c, w, actions[0]);
      RunDepth(c, Step(c, w, actions[0]), actions[1..]);
    }
  }

  lemma StepInv(c: Config, w: World, a: Action)
    requires c.low >= 0 && Inv(c, w)
    ensures Inv(c, Step(c, w, a))
  {
    var w', t := Step(c, w, a), a.t;
    if w' != w {
      StepDepth(c, w, a);
      InFlightUpdate(w.threads, t, w'.threads[t]);
      InFlightRemove(w'.threads, t);
      if !w'.gate.accepting && w'.gate.depth <= 0 {
        if w.gate.accepting || w.gate.depth > 0 {
          assert WillReopen(c, w'.threads[t]);
        } else {
          var u :| u in w.threads && WillReopen(c, w.threads[u]);
          assert WillReopen(c, w'.threads[u]);
        }
      }
    }
  }

  lemma {:induction false} RunInv(c: Config, w: World, actions: seq<Action>)
    requires c.low >= 0 && Inv(c, w)
    ensures Inv(c, Run(c, w, actions))
    decreases |actions|
  {
    if actions != [] {
      StepInv(c, w, actions[0]);
      RunInv(c, Step(c, w, actions[0]), actions[1..]);
    }
  }

  predicate Quiet(w: World) {
    forall t | t in w.threads :: w.threads[t] == Idle
  }

  /** The gate is stuck: nothing queued, nothing under way, yet shut. */
  predicate Stuck(w: World) {
    w.gate.depth == 0 && Quiet(w) && !w.gate.accepting
  }

  /** With a low mark of at least zero no interleaving of any threads sticks the gate. */
  lemma NeverSticks(c: Config, threads: set<nat>, actions: seq<Action>)
    requires c.low >= 0
    ensures !Stuck(Run(c, Initial(threads), actions))
  {
    InitialInv(c, threads);
    RunInv(c, Initial(threads), actions);
  }

  /** Once nothing is under way the depth is the number of slots still out, whatever the marks. */
  lemma QuietDepth(c: Config, threads: set<nat>, actions: seq<Action>)
    ensures var w := Run(c, Initial(threads), actions); Quiet(w) ==> w.gate.depth == w.outstanding
  {
    InitialInv(c, threads);
    RunDepth(c, Initial(threads), actions);
    var w := Run(c, Initial(threads), actions);
    if Quiet(w) {
      NoneInFlight(w.threads);
    }
  }

  // ---- A negative low mark always lets the gate stick ----

  function Alone(depth: nat, accepting: bool, accepted: nat): World {
    World(Gate(depth, accepting, accepted, 0), depth, map[0 := Idle])
  }

  const ACQUIRE: seq<Action> := [TryAcquire(0), Continue(0), Continue(0), Continue(0)]
  const RELEASE: seq<Action> := [Release(0), Continue(0)]

  lemma {:induction false} RunAppend(c: Config, w: World, s: seq<Action>, t: seq<Action>)
    ensures Run(c, w, s + t) == Run(c, Run(c, w, s), t)
    decreases |s|
  {
    hide Step;
    if s == [] {
      assert s + t == t;
    } else {
      assert (s + t)[1..] == s[1..] + t;
      RunAppend(c, Step(c, w, s[0]), s[1..], t);
    }
  }

  lemma RunTwo(c: Config, w: World, a: Action, b: Action)
    ensures Run(c, w, [a, b]) == Step(c, Step(c, w, a), b)
  {
    hide Step;
    assert [a, b][1..] == [b] && [b][1..] == [];
    assert Run(c, w, [a, b]) == Run(c, Step(c, w, a), [b]);
  }

  lemma AcquireAlone(c: Config, depth: nat, accepted: nat)
    ensures Run(c, Alone(depth, true, accepted), ACQUIRE) ==
            Alone(depth + 1, depth + 1 < c.high, accepted + 1)
  {
    var w := Alone(depth, true, accepted);
    assert ACQUIRE == [TryAcquire(0), Continue(0)] + [Continue(0), Continue(0)];
    RunAppend(c, w, [TryAcquire(0), Continue(0)], [Continue(0), Continue(0)]);
    RunTwo(c, w, TryAcquire(0), Continue(0));
    var v := Step(c, Step(c, w, TryAcquire(0)), Continue(0));
    assert v == World(Gate(depth + 1, true, accepted, 0), depth, map[0 := AcquireTest(depth + 1)]);
    RunTwo(c, v, Continue(0), Continue(0));
    assert map[0 := AcquireTest(depth + 1)][0 := AcquireCount][0 := Idle] == map[0 := Idle];
  }

  lemma ReleaseAlone(c: Config, depth: nat, accepted: nat)
    requires c.low < 0 < depth
    ensures Run(c, Alone(depth, false, accepted), RELEASE) == Alone(depth - 1, false, accepted)
  {
    RunTwo(c, Alone(depth, false, accepted), Release(0), Continue(0));
    assert map[0 := Idle][0 := ReleaseTest(depth - 1)][0 := Idle] == map[0 := Idle];
  }

  lemma {:induction false} FillAlone(c: Config, depth: nat) returns (actions: seq<Action>)
    requires depth == 0 || depth < c.high
    ensures exists d: nat, n: nat :: Run(c, Alone(depth, true, depth), actions) == Alone(d, false, n)
    decreases c.high - depth
  {
    hide Run, Alone;
    AcquireAlone(c, depth, depth);
    if depth + 1 < c.high {
      var rest := FillAlone(c, depth + 1);
      actions := ACQUIRE + rest;
      RunAppend(c, Alone(depth, true, depth), ACQUIRE, rest);
    } else {
      actions := ACQUIRE;
    }
  }

  lemma {:induction false} DrainAlone(c: Config, depth: nat, accepted: nat) returns (actions: seq<Action>)
    requires c.low < 0
    ensures Run(c, Alone(depth, false, accepted), actions) == Alone(0, false, accepted)
    decreases depth
  {
    hide Alone;
    if depth == 0 {
      actions := [];
    } else {
      ReleaseAlone(c, depth, accepted);
      var rest := DrainAlone(c, depth - 1, accepted);
      actions := RELEASE + rest;
      RunAppend(c, Alone(depth, false, accepted), RELEASE, rest);
    }
  }

  /** The gate can never stick exactly when the low mark is at least zero. */
  lemma NeverSticksExactlyWhen(c: Config)
    ensures c.low >= 0 <==>
            forall threads: set<nat>, actions: seq<Action> :: !Stuck(Run(c, Initial(threads), actions))
  {
    hide Run, Stuck;
    if c.low >= 0 {
      forall threads: set<nat>, actions: seq<Action>
        ensures !Stuck(Run(c, Initial(threads), actions))
      {
        NeverSticks(c, threads, actions);
      }
    } else {
      InitialAlone();
      var fill := FillAlone(c, 0);
      var d: nat, n: nat :| Run(c, Alone(0, true, 0), fill) == Alone(d, false, n);
      var drain := DrainAlone(c, d, n);
      RunAppend(c, Alone(0, true, 0), fill, drain);
      AloneIsStuck(n);
      assert Stuck(Run(c, Initial({0}), fill + drain));
    }
  }

  lemma InitialAlone()
    ensures Initial({0}) == Alone(0, true, 0)
  {
  }

  lemma AloneIsStuck(n: nat)
    ensures Stuck(Alone(0, false, n))
  {
  }

  // ---- The object itself, called by one thread at a time ----

  class Backpressure {
    const highWatermark: int
    const lowWatermark: int
    var depth: int
    var accepting: bool
    var totalRejected: nat
    var totalAccepted: nat

    ghost function State(): Gate
      reads this
    {
      Gate(depth, accepting, totalAccepted, totalRejected)
    }

    ghost function Marks(): Config {
      Config(highWatermark, lowWatermark)
    }

    constructor (high: int, low: int)
      requires low < high
      ensures Marks() == Config(high, low) && State() == Initial({}).gate
    {
      highWatermark, lowWatermark := high, low;
      depth, accepting, totalRejected, totalAccepted := 0, true, 0, 0;
    }

    /** Without interference a call performs the steps of one thread in order. */
    method TryAcquire() returns (ok: bool)
      modifies this
      ensures ok == old(accepting)
      ensures forall outstanding: nat ::
                Run(Marks(), World(old(State()), outstanding, map[0 := Idle]), ACQUIRE) ==
                World(State(), if ok then outstanding + 1 else outstanding, map[0 := Idle])
    {
      ghost var before := State();
      if !accepting {
        totalRejected := totalRejected + 1;
        AcquireCall(Marks(), before);
        return false;
      }
      depth := depth + 1;
      if depth >= highWatermark {
        accepting := false;
      }
      totalAccepted := totalAccepted + 1;
      AcquireCall(Marks(), before);
      return true;
    }

    method Release()
      modifies this
      ensures forall outstanding: nat | outstanding > 0 ::
                Run(Marks(), World(old(State()), outstanding, map[0 := Idle]), RELEASE + [Continue(0)]) ==
                World(State(), outstanding - 1, map[0 := Idle])
    {
      ghost var before := State();
      depth := depth - 1;
      if depth <= lowWatermark && !accepting {
        accepting := true;
      }
      ReleaseCall(Marks(), before);
    }
  }

  lemma RunThree(c: Config, w: World, x: Action, y: Action, z: Action)
    ensures Run(c, w, [x, y, z]) == Step(c, Step(c, Step(c, w, x), y), z)
  {
    hide Step;
    assert [x, y, z][1..] == [y, z];
    RunTwo(c, Step(c, w, x), y, z);
  }

  lemma RunAcquire(c: Config, w: World)
    ensures Run(c, w, ACQUIRE) ==
            Step(c, Step(c, Step(c, Step(c, w, TryAcquire(0)), Continue(0)), Continue(0)), Continue(0))
  {
    hide Step;
    assert ACQUIRE == [TryAcquire(0), Continue(0)] + [Continue(0), Continue(0)];
    RunAppend(c, w, [TryAcquire(0), Continue(0)], [Continue(0), Continue(0)]);
    RunTwo(c, w, TryAcquire(0), Continue(0));
    RunTwo(c, Step(c, Step(c, w, TryAcquire(0)), Continue(0)), Continue(0), Continue(0));
  }

  lemma AcquireCall(c: Config, g: Gate)
    ensures forall outstanding: nat ::
              Run(c, World(g, outstanding, map[0 := Idle]), ACQUIRE) ==
              if g.accepting then
                World(Gate(g.depth + 1, g.depth + 1 < c.high, g.accepted + 1, g.rejected),
                      outstanding + 1, map[0 := Idle])
              else
                World(Gate(g.depth, false, g.accepted, g.rejected + 1), outstanding, map[0 := Idle])
  {
    hide Step, Run;
    forall outstanding: nat
      ensures Run(c, World(g, outstanding, map[0 := Idle]), ACQUIRE) ==
              if g.accepting then
                World(Gate(g.depth + 1, g.depth + 1 < c.high, g.accepted + 1, g.rejected),
                      outstanding + 1, map[0 := Idle])
              else
                World(Gate(g.depth, false, g.accepted, g.rejected + 1), outstanding, map[0 := Idle])
    {
      RunAcquire(c, World(g, outstanding, map[0 := Idle]));
      if g.accepting {
        AcquireOpen(c, g, outstanding);
      } else {
        AcquireShut(c, g, outstanding);
      }
    }
  }

  function At(g: Gate, outstanding: nat, pc: Pc): World {
    World(g, outstanding, map[0 := pc])
  }

  lemma Moves(pc: Pc, next: Pc)
    ensures map[0 := pc][0 := next] == map[0 := next]
  {
  }

  lemma AcquireOpen(c: Config, g: Gate, outstanding: nat)
    requires g.accepting
    ensures var w := At(g, outstanding, Idle);
            Step(c, Step(c, Step(c, Step(c, w, TryAcquire(0)), Continue(0)), Continue(0)), Continue(0)) ==
            At(Gate(g.depth + 1, g.depth + 1 < c.high, g.accepted + 1, g.rejected), outstanding + 1, Idle)
  {
    var d := g.depth + 1;
    var g2 := g.(depth := d);
    var g3 := if d >= c.high then g2.(accepting := false) else g2;
    Moves(Idle, AcquireInc);
    assert Step(c, At(g, outstanding, Idle), TryAcquire(0)) == At(g, outstanding, AcquireInc);
    Moves(AcquireInc, AcquireTest(d));
    assert Step(c, At(g, outstanding, AcquireInc), Continue(0)) == At(g2, outstanding, AcquireTest(d));
    Moves(AcquireTest(d), AcquireCount);
    assert Step(c, At(g2, outstanding, AcquireTest(d)), Continue(0)) == At(g3, outstanding, AcquireCount);
    Moves(AcquireCount, Idle);
  }

  lemma AcquireShut(c: Config, g: Gate, outstanding: nat)
    requires !g.accepting
    ensures var w := At(g, outstanding, Idle);
            Step(c, Step(c, Step(c, Step(c, w, TryAcquire(0)), Continue(0)), Continue(0)), Continue(0)) ==
            At(Gate(g.depth, false, g.accepted, g.rejected + 1), outstanding, Idle)
  {
    Moves(Idle, RejectCount);
    assert Step(c, At(g, outstanding, Idle), TryAcquire(0)) == At(g, outstanding, RejectCount);
    Moves(RejectCount, Idle);
  }

  lemma ReleaseCall(c: Config, g: Gate)
    ensures forall outstanding: nat | outstanding > 0 ::
              Run(c, World(g, outstanding, map[0 := Idle]), RELEASE + [Continue(0)]) ==
              World(Gate(g.depth - 1, g.accepting || g.depth - 1 <= c.low, g.accepted, g.rejected),
                    outstanding - 1, map[0 := Idle])
  {
    forall outstanding: nat | outstanding > 0
      ensures Run(c, World(g, outstanding, map[0 := Idle]), RELEASE + [Continue(0)]) ==
              World(Gate(g.depth - 1, g.accepting || g.depth - 1 <= c.low, g.accepted, g.rejected),
                    outstanding - 1, map[0 := Idle])
    {
      assert RELEASE + [Continue(0)] == [Release(0), Continue(0), Continue(0)];
      RunThree(c, World(g, outstanding, map[0 := Idle]), Release(0), Continue(0), Continue(0));
      assert map[0 := Idle][0 := ReleaseTest(g.depth - 1)][0 := Idle] == map[0 := Idle];
      assert map[0 := Idle][0 := ReleaseTest(g.depth - 1)][0 := ReleaseOpen][0 := Idle] == map[0 := Idle];
    }
  }
}
