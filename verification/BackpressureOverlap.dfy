/** How far threads that interleave can carry the gate of
    services/queue/src/main/scala/Backpressure.scala above its high mark. */
module BackpressureOverlap {
  import opened Backpressure
  import opened MapSum

  // ---- Threads that will change the gate ----

  /** About to increment the depth. */
  function WillEnter(pc: Pc): int {
    if pc.AcquireInc? then 1 else 0
  }

  /** About to shut the gate. */
  function WillShut(c: Config, pc: Pc): int {
    if pc.AcquireTest? && pc.newDepth >= c.high then 1 else 0
  }

  /** Having seen a low depth, perhaps about to open the gate. */
  function MayOpen(c: Config, pc: Pc): int {
    if WillReopen(c, pc) then 1 else 0
  }

  function Weights(f: Pc -> int, m: map<nat, Pc>): map<nat, int> {
    map t | t in m :: f(m[t])
  }

  ghost function Total(f: Pc -> int, m: map<nat, Pc>): int {
    Sum(Weights(f, m))
  }

  ghost function Entering(m: map<nat, Pc>): int {
    Total(WillEnter, m)
  }

  ghost function Shutting(c: Config, m: map<nat, Pc>): int {
    Total(pc => WillShut(c, pc), m)
  }

  ghost function Opening(c: Config, m: map<nat, Pc>): int {
    Total(pc => MayOpen(c, pc), m)
  }

  lemma TotalMoves(f: Pc -> int, m: map<nat, Pc>, t: nat, pc: Pc)
    requires t in m
    ensures Total(f, m[t := pc]) == Total(f, m) - f(m[t]) + f(pc)
  {
    hide Sum;
    SumUpdate(Weights(f, m), t, f(pc));
    assert Weights(f, m[t := pc]) == Weights(f, m)[t := f(pc)];
  }

  lemma MovesSums(c: Config, m: map<nat, Pc>, t: nat, pc: Pc)
    requires t in m
    ensures var n := m[t := pc];
            Entering(n) == Entering(m) - WillEnter(m[t]) + WillEnter(pc) &&
            Shutting(c, n) == Shutting(c, m) - WillShut(c, m[t]) + WillShut(c, pc) &&
            Opening(c, n) == Opening(c, m) - MayOpen(c, m[t]) + MayOpen(c, pc)
  {
    hide Total, WillEnter, WillShut, MayOpen;
    TotalMoves(WillEnter, m, t, pc);
    TotalMoves(pc => WillShut(c, pc), m, t, pc);
    TotalMoves(pc => MayOpen(c, pc), m, t, pc);
  }

  lemma TotalSplit(f: Pc -> int, m: map<nat, Pc>, t: nat)
    requires t in m
    ensures Total(f, m) == f(m[t]) + Total(f, m - {t})
  {
    hide Sum;
    SumSplit(Weights(f, m), t);
    assert Weights(f, m - {t}) == Weights(f, m) - {t};
  }

  lemma TotalOfNone(f: Pc -> int)
    ensures Total(f, map[]) == 0
  {
    assert Weights(f, map[]) == map[];
  }

  /** Each thread is in at most one of the three kinds. */
  lemma {:induction false} SumsBounded(c: Config, m: map<nat, Pc>)
    ensures Entering(m) >= 0 && Shutting(c, m) >= 0 && Opening(c, m) >= 0
    ensures Entering(m) + Shutting(c, m) + Opening(c, m) <= |m|
    decreases |m|
  {
    hide Total;
    if m == map[] {
      TotalOfNone(WillEnter);
      TotalOfNone(pc => WillShut(c, pc));
      TotalOfNone(pc => MayOpen(c, pc));
    } else {
      var t :| t in m;
      SumsBounded(c, m - {t});
      TotalSplit(WillEnter, m, t);
      TotalSplit(pc => WillShut(c, pc), m, t);
      TotalSplit(pc => MayOpen(c, pc), m, t);
    }
  }

  // ---- The bound ----

  function Times(n: int, k: int): int {
    n * k
  }

  lemma TimesStep(n: int, k: int)
    ensures Times(n, k - 1) == Times(n, k) - n && Times(n, k + 1) == Times(n, k) + n && Times(n, 0) == 0
  {
  }

  lemma {:induction false} TimesGrows(n: nat, j: nat, k: nat)
    requires j <= k
    ensures Times(n, j) <= Times(n, k)
    decreases k
  {
    if j < k {
      TimesGrows(n, j, k - 1);
      TimesStep(n, k);
    }
  }

  /** The depth the gate can still come to while it stays at the high mark or above: every thread
      about to enter does; while it is open, every thread that is not about to shut it may enter
      once; and every thread that may still open it lets all of them in once more. */
  ghost function Reach(c: Config, w: World): int {
    var m := w.threads;
    w.gate.depth + Entering(m) +
    (if w.gate.accepting then |m| - Entering(m) - Shutting(c, m) else 0) +
    Times(|m|, Opening(c, m))
  }

  function Limit(c: Config, n: nat): int {
    (if c.high > 1 then c.high else 1) + Times(n, n) - 1
  }

  ghost predicate Within(c: Config, w: World) {
    w.gate.depth < c.high || Reach(c, w) <= Limit(c, |w.threads|)
  }

  lemma SameThreads(c: Config, w: World, a: Action)
    ensures Step(c, w, a).threads.Keys == w.threads.Keys && |Step(c, w, a).threads| == |w.threads|
  {
    var n := Step(c, w, a);
    assert n.threads.Keys == w.threads.Keys;
    assert |n.threads| == |n.threads.Keys|;
  }

  /** A step that does not bring the depth from below the high mark up to it cannot reach further. */
  lemma ReachFalls(c: Config, w: World, a: Action)
    requires c.low < c.high && w.gate.depth >= c.high && Step(c, w, a).gate.depth >= c.high
    ensures Reach(c, Step(c, w, a)) <= Reach(c, w)
  {
    hide Times, Entering, Shutting, Opening;
    var n, t := Step(c, w, a), a.t;
    SameThreads(c, w, a);
    if n != w {
      MovesSums(c, w.threads, t, n.threads[t]);
      SumsBounded(c, w.threads);
      SumsBounded(c, n.threads);
      TimesStep(|w.threads|, Opening(c, w.threads));
    }
  }

  /** The step that brings the depth up to the high mark. */
  lemma ReachOnTop(c: Config, w: World, a: Action)
    requires w.gate.depth < c.high <= Step(c, w, a).gate.depth
    ensures Reach(c, Step(c, w, a)) <= Limit(c, |w.threads|)
  {
    hide Times, Entering, Shutting, Opening;
    var n, t := Step(c, w, a), a.t;
    SameThreads(c, w, a);
    var m := n.threads;
    MovesSums(c, w.threads, t, m[t]);
    SumsBounded(c, w.threads);
    SumsBounded(c, m);
    var size := |m|;
    assert Shutting(c, m) >= 1 && n.gate.depth == c.high;
    TimesGrows(size, Opening(c, m), size - 1);
    TimesStep(size, size);
  }

  lemma WithinStep(c: Config, w: World, a: Action)
    requires c.low < c.high && Within(c, w)
    ensures Within(c, Step(c, w, a))
  {
    hide Reach, Step, Limit;
    SameThreads(c, w, a);
    if Step(c, w, a).gate.depth >= c.high {
      if w.gate.depth >= c.high {
        ReachFalls(c, w, a);
      } else {
        ReachOnTop(c, w, a);
      }
    }
  }

  lemma {:induction false} WithinRun(c: Config, w: World, actions: seq<Action>)
    requires c.low < c.high && Within(c, w)
    ensures Within(c, Run(c, w, actions)) && |Run(c, w, actions).threads| == |w.threads|
    decreases |actions|
  {
    hide Within, Step;
    if actions != [] {
      WithinStep(c, w, actions[0]);
      SameThreads(c, w, actions[0]);
      WithinRun(c, Step(c, w, actions[0]), actions[1..]);
    }
  }

  lemma {:induction false} AllIdle(c: Config, m: map<nat, Pc>)
    requires forall t | t in m :: m[t] == Idle
    ensures Entering(m) == 0 && Shutting(c, m) == 0 && Opening(c, m) == 0
  {
    SumOfZeros(Weights(WillEnter, m));
    SumOfZeros(Weights(pc => WillShut(c, pc), m));
    SumOfZeros(Weights(pc => MayOpen(c, pc), m));
  }

  lemma WithinAtFirst(c: Config, threads: set<nat>)
    requires threads != {}
    ensures Within(c, Initial(threads)) && |Initial(threads).threads| == |threads|
  {
    hide Times, Entering, Shutting, Opening;
    var m := Initial(threads).threads;
    assert m.Keys == threads;
    assert |m| == |m.Keys|;
    AllIdle(c, m);
    TimesStep(|m|, 1);
    TimesGrows(|m|, 1, |m|);
  }

  lemma WithinMeans(c: Config, w: World)
    requires Within(c, w)
    ensures w.gate.depth <= Limit(c, |w.threads|) || w.gate.depth < c.high
  {
    hide Times, Entering, Shutting, Opening;
    SumsBounded(c, w.threads);
    TimesStep(|w.threads|, 0);
    TimesGrows(|w.threads|, 0, Opening(c, w.threads));
  }

  /** However n threads interleave, the depth never exceeds the high mark (or 1, if that is more) by
      more than n * n - 1. */
  lemma DepthBound(c: Config, threads: set<nat>, actions: seq<Action>)
    requires c.low < c.high && threads != {}
    ensures Run(c, Initial(threads), actions).gate.depth <=
            (if c.high > 1 then c.high else 1) + |threads| * |threads| - 1
  {
    hide Run, Initial, Within;
    WithinAtFirst(c, threads);
    WithinRun(c, Initial(threads), actions);
    WithinMeans(c, Run(c, Initial(threads), actions));
    TimesGrows(|threads|, 1, |threads|);
    TimesStep(|threads|, 1);
  }

  // ---- The high mark is no bound for two threads ----

  /** Threads 0 and 1. */
  function Two(g: Gate, outstanding: nat, p: Pc, q: Pc): World {
    World(g, outstanding, map[0 := p, 1 := q])
  }

  lemma FirstMoves(p: Pc, q: Pc, r: Pc)
    ensures map[0 := p, 1 := q][0 := r] == map[0 := r, 1 := q]
    ensures map[0 := p, 1 := q][1 := r] == map[0 := p, 1 := r]
  {
  }

  lemma RunFour(c: Config, w: World, a: Action, x: Action, y: Action, z: Action)
    ensures Run(c, w, [a, x, y, z]) == Step(c, Step(c, Step(c, Step(c, w, a), x), y), z)
  {
    hide Step;
    assert [a, x, y, z][1..] == [x, y, z];
    RunThree(c, Step(c, w, a), x, y, z);
  }

  /** A whole acquire of thread 0 while thread 1 stays where it is. */
  lemma FirstAcquires(c: Config, g: Gate, outstanding: nat, q: Pc)
    requires g.accepting
    ensures Run(c, Two(g, outstanding, Idle, q), ACQUIRE) ==
            Two(Gate(g.depth + 1, g.depth + 1 < c.high, g.accepted + 1, g.rejected), outstanding + 1, Idle, q)
  {
    var d := g.depth + 1;
    var g2 := g.(depth := d);
    var g3 := if d >= c.high then g2.(accepting := false) else g2;
    RunFour(c, Two(g, outstanding, Idle, q), TryAcquire(0), Continue(0), Continue(0), Continue(0));
    FirstMoves(Idle, q, AcquireInc);
    assert Step(c, Two(g, outstanding, Idle, q), TryAcquire(0)) == Two(g, outstanding, AcquireInc, q);
    FirstMoves(AcquireInc, q, AcquireTest(d));
    assert Step(c, Two(g, outstanding, AcquireInc, q), Continue(0)) == Two(g2, outstanding, AcquireTest(d), q);
    FirstMoves(AcquireTest(d), q, AcquireCount);
    assert Step(c, Two(g2, outstanding, AcquireTest(d), q), Continue(0)) == Two(g3, outstanding, AcquireCount, q);
    FirstMoves(AcquireCount, q, Idle);
  }

  /** Both threads release and see a low depth while the gate is shut; then the first opens it. */
  lemma BothRelease(c: Config, accepted: nat)
    requires c == Config(2, 1)
    ensures Run(c, Two(Gate(2, false, accepted, 0), 2, Idle, Idle),
                [Release(0), Release(1), Continue(0), Continue(1)] + [Continue(0)]) ==
            Two(Gate(0, true, accepted, 0), 0, Idle, ReleaseOpen)
  {
    var w := Two(Gate(2, false, accepted, 0), 2, Idle, Idle);
    RunAppend(c, w, [Release(0), Release(1), Continue(0), Continue(1)], [Continue(0)]);
    RunFour(c, w, Release(0), Release(1), Continue(0), Continue(1));
    FirstMoves(Idle, Idle, ReleaseTest(1));
    FirstMoves(ReleaseTest(1), Idle, ReleaseTest(0));
    FirstMoves(ReleaseTest(1), ReleaseTest(0), ReleaseOpen);
    FirstMoves(ReleaseOpen, ReleaseTest(0), ReleaseOpen);
    FirstMoves(ReleaseOpen, ReleaseOpen, Idle);
    var g := Gate(0, false, accepted, 0);
    assert Step(c, Two(g, 0, ReleaseTest(1), ReleaseTest(0)), Continue(0)) == Two(g, 0, ReleaseOpen, ReleaseTest(0));
    assert Step(c, Two(g, 0, ReleaseOpen, ReleaseTest(0)), Continue(1)) == Two(g, 0, ReleaseOpen, ReleaseOpen);
    RunOne(c, Two(g, 0, ReleaseOpen, ReleaseOpen), Continue(0));
  }

  lemma RunOne(c: Config, w: World, a: Action)
    ensures Run(c, w, [a]) == Step(c, w, a)
  {
    hide Step;
    assert [a][1..] == [];
  }

  const LATE_OPEN: seq<Action> :=
    ((ACQUIRE + ACQUIRE) + ([Release(0), Release(1), Continue(0), Continue(1)] + [Continue(0)])) +
    ((ACQUIRE + ACQUIRE) + [Continue(1)])

  /** A release that saw a low depth, and opens the gate late, opens it when it is full again; the
      next acquire, with nobody else in one, goes above the high mark. */
  lemma LateOpenOverfills()
    ensures var c := Config(2, 1);
            var w := Run(c, Initial({0, 1}), LATE_OPEN);
            w.gate.depth == c.high && w.gate.accepting && Quiet(w) &&
            Run(c, Initial({0, 1}), LATE_OPEN + ACQUIRE).gate.depth == c.high + 1
  {
    hide Run, Step, Two;
    var c := Config(2, 1);
    var both := [Release(0), Release(1), Continue(0), Continue(1)] + [Continue(0)];
    var start := Initial({0, 1});
    TwoAtFirst();
    FirstAcquires(c, Gate(0, true, 0, 0), 0, Idle);
    FirstAcquires(c, Gate(1, true, 1, 0), 1, Idle);
    RunAppend(c, start, ACQUIRE, ACQUIRE);
    RunAppend(c, start, ACQUIRE + ACQUIRE, both);
    BothRelease(c, 2);
    var low := Two(Gate(0, true, 2, 0), 0, Idle, ReleaseOpen);
    FirstAcquires(c, Gate(0, true, 2, 0), 0, ReleaseOpen);
    FirstAcquires(c, Gate(1, true, 3, 0), 1, ReleaseOpen);
    RunAppend(c, low, ACQUIRE, ACQUIRE);
    RunAppend(c, low, ACQUIRE + ACQUIRE, [Continue(1)]);
    RunAppend(c, start, (ACQUIRE + ACQUIRE) + both, (ACQUIRE + ACQUIRE) + [Continue(1)]);
    RunOne(c, Two(Gate(2, false, 4, 0), 2, Idle, ReleaseOpen), Continue(1));
    OpensLate(c);
    RunAppend(c, start, LATE_OPEN, ACQUIRE);
    FirstAcquires(c, Gate(2, true, 4, 0), 2, Idle);
  }

  lemma TwoAtFirst()
    ensures Initial({0, 1}) == Two(Gate(0, true, 0, 0), 0, Idle, Idle)
  {
  }

  lemma OpensLate(c: Config)
    ensures var w := Two(Gate(2, true, 4, 0), 2, Idle, Idle);
            Step(c, Two(Gate(2, false, 4, 0), 2, Idle, ReleaseOpen), Continue(1)) == w && Quiet(w)
    ensures Two(Gate(2, true, 4, 0), 2, Idle, Idle).gate == Gate(2, true, 4, 0)
    ensures Two(Gate(3, false, 5, 0), 3, Idle, Idle).gate.depth == 3
  {
    FirstMoves(Idle, ReleaseOpen, Idle);
  }
}
