/** The shuffles of services/shuffle/src/Main.hs and Algorithms.hs.  The random
    source is the list of numbers it hands out, one per swap. */
module Shuffle {
  import opened Modular
  import opened Options


  // ---- The pure form (Algorithms.hs) ----

  function SwapAt<T>(i: nat, j: nat, v: seq<T>): (w: seq<T>)
    requires i < |v| && j < |v|
    ensures |w| == |v|
  {
    if i == j then v else v[i := v[j]][j := v[i]]
  }

  /** The draws for positions i, i-1, ..., 1: each is at most its position, or
      strictly below it when strict. */
  predicate DrawsFit(i: int, draws: seq<nat>, strict: bool)
    decreases |draws|
  {
    if i <= 0 then draws == []
    else draws != [] && draws[0] <= (if strict then i - 1 else i) && DrawsFit(i - 1, draws[1..], strict)
  }

  /** Swaps position i with its draw, then i-1 with the next, down to 1. */
  function Go<T>(i: int, v: seq<T>, draws: seq<nat>): (w: seq<T>)
    requires i < |v| && DrawsFit(i, draws, false)
    ensures |w| == |v|
    decreases |draws|
  {
    if i <= 0 then v else Go(i - 1, SwapAt(i, draws[0], v), draws[1..])
  }

  function FisherYates<T>(v: seq<T>, draws: seq<nat>): (w: seq<T>)
    requires DrawsFit(|v| - 1, draws, false)
    ensures |w| == |v|
  {
    if |v| <= 1 then v else Go(|v| - 1, v, draws)
  }

  // ---- The mutable forms (Main.hs) ----

  /** fisherYates: thaw, swap in place from the top down, freeze. */
  method FisherYatesInPlace<T>(vec: seq<T>, draws: seq<nat>) returns (shuffled: seq<T>)
    requires DrawsFit(|vec| - 1, draws, false)
    ensures shuffled == FisherYates(vec, draws)
  {
    shuffled := SwapDown(vec, draws);
  }

  /** sattoloShuffle: the same loop with every draw strictly below its position. */
  method SattoloInPlace<T>(vec: seq<T>, draws: seq<nat>) returns (shuffled: seq<T>)
    requires DrawsFit(|vec| - 1, draws, true)
    ensures DrawsFit(|vec| - 1, draws, false) && shuffled == FisherYates(vec, draws)
  {
    StrictDrawsFit(|vec| - 1, draws);
    shuffled := SwapDown(vec, draws);
  }

  /** MV.swap, with its bounds. */
  method Swap<T>(mv: array<T>, i: nat, j: nat)
    requires i < mv.Length && j < mv.Length
    modifies mv
    ensures mv[..] == SwapAt(i, j, old(mv[..]))
  {
    mv[i], mv[j] := mv[j], mv[i];
  }

  method SwapDown<T>(vec: seq<T>, draws: seq<nat>) returns (shuffled: seq<T>)
    requires DrawsFit(|vec| - 1, draws, false)
    ensures shuffled == FisherYates(vec, draws)
  {
    hide SwapAt;
    var mv := new T[|vec|](k requires 0 <= k < |vec| => vec[k]);
    assert mv[..] == vec;
    var i, used := mv.Length - 1, 0;
    while i >= 1
      invariant i < |vec| == mv.Length && used <= |draws|
      invariant DrawsFit(i, draws[used..], false)
      invariant Go(i, mv[..], draws[used..]) == FisherYates(vec, draws)
    {
      var j := draws[used];
      assert draws[used..][1..] == draws[used + 1..];
      Swap(mv, i, j);
      i, used := i - 1, used + 1;
    }
    shuffled := mv[..];
  }

  /** fisherYatesWithSeed: the recursion stops only at position 0, so on the empty
      vector it starts at -1 and the swap's bounds check fails. */
  method FisherYatesWithSeed<T>(vec: seq<T>, draws: seq<nat>) returns (shuffled: Option<seq<T>>)
    requires DrawsFit(|vec| - 1, draws, false)
    ensures shuffled == if vec == [] then None else Some(FisherYates(vec, draws))
  {
    hide SwapAt;
    var mv := new T[|vec|](k requires 0 <= k < |vec| => vec[k]);
    assert mv[..] == vec;
    var i, used := mv.Length - 1, 0;
    while i != 0
      invariant i < |vec| == mv.Length && used <= |draws|
      invariant vec != [] ==> i >= 0
      invariant DrawsFit(i, draws[used..], false)
      invariant Go(i, mv[..], draws[used..]) == FisherYates(vec, draws)
      decreases i
    {
      if i < 0 {
        return None;
      }
      var j := draws[used];
      assert draws[used..][1..] == draws[used + 1..];
      Swap(mv, i, j);
      i, used := i - 1, used + 1;
    }
    shuffled := Some(mv[..]);
  }

  lemma {:induction false} StrictDrawsFit(i: int, draws: seq<nat>)
    requires DrawsFit(i, draws, true)
    ensures DrawsFit(i, draws, false)
    decreases |draws|
  {
    if i > 0 {
      StrictDrawsFit(i - 1, draws[1..]);
    }
  }

  // ---- Draw lists and permutations correspond one to one ----

  predicate Distinct<T(==)>(v: seq<T>) {
    forall i, j | 0 <= i < j < |v| :: v[i] != v[j]
  }

  lemma SwapAtPermutes<T>(i: nat, j: nat, v: seq<T>)
    requires i < |v| && j < |v|
    ensures multiset(SwapAt(i, j, v)) == multiset(v)
  {
  }

  lemma SwapAtDistinct<T>(i: nat, j: nat, v: seq<T>)
    requires i < |v| && j < |v| && Distinct(v)
    ensures Distinct(SwapAt(i, j, v))
  {
  }

  lemma {:induction false} GoPermutes<T>(i: int, v: seq<T>, draws: seq<nat>)
    requires i < |v| && DrawsFit(i, draws, false)
    ensures multiset(Go(i, v, draws)) == multiset(v)
    decreases |draws|
  {
    hide SwapAt;
    if i > 0 {
      SwapAtPermutes(i, draws[0], v);
      GoPermutes(i - 1, SwapAt(i, draws[0], v), draws[1..]);
    }
  }

  /** Positions above i are final. */
  lemma {:induction false} GoKeepsAbove<T>(i: int, v: seq<T>, draws: seq<nat>, k: nat)
    requires i < k < |v| && DrawsFit(i, draws, false)
    ensures Go(i, v, draws)[k] == v[k]
    decreases |draws|
  {
    if i > 0 {
      GoKeepsAbove(i - 1, SwapAt(i, draws[0], v), draws[1..], k);
    }
  }

  /** The element that ends up at position i is the one drawn for it. */
  lemma GoPlaces<T>(i: nat, v: seq<T>, draws: seq<nat>)
    requires 0 < i < |v| && DrawsFit(i, draws, false)
    ensures Go(i, v, draws)[i] == v[draws[0]]
  {
    GoKeepsAbove(i - 1, SwapAt(i, draws[0], v), draws[1..], i);
  }

  /** With distinct elements different draws give different results. */
  lemma {:induction false} GoInjective<T>(i: int, v: seq<T>, ds: seq<nat>, es: seq<nat>)
    requires i < |v| && Distinct(v) && DrawsFit(i, ds, false) && DrawsFit(i, es, false)
    requires Go(i, v, ds) == Go(i, v, es)
    ensures ds == es
    decreases |ds|
  {
    hide SwapAt;
    if i > 0 {
      GoPlaces(i, v, ds);
      GoPlaces(i, v, es);
      assert ds[0] == es[0];
      SwapAtDistinct(i, ds[0], v);
      GoInjective(i - 1, SwapAt(i, ds[0], v), ds[1..], es[1..]);
      assert ds == [ds[0]] + ds[1..] && es == [es[0]] + es[1..];
    }
  }

  /** The draws that turn v into p, read off from the top down. */
  ghost function DrawsFor<T>(i: int, v: seq<T>, p: seq<T>): (draws: seq<nat>)
    requires i < |v| == |p| && Distinct(v) && multiset(v) == multiset(p)
    requires forall k | 0 <= k < |v| && i < k :: v[k] == p[k]
    ensures DrawsFit(i, draws, false) && Go(i, v, draws) == p
    decreases if i < 0 then 0 else i
  {
    if i <= 0 then
      LastPosition(i, v, p);
      []
    else
      FindBelow(i, v, p);
      var j: nat :| j <= i && v[j] == p[i];
      SwapAtPermutes(i, j, v);
      SwapAtDistinct(i, j, v);
      [j] + DrawsFor(i - 1, SwapAt(i, j, v), p)
  }

  lemma FindBelow<T>(i: nat, v: seq<T>, p: seq<T>)
    requires i < |v| == |p| && Distinct(v) && multiset(v) == multiset(p)
    requires forall k | 0 <= k < |v| && i < k :: v[k] == p[k]
    ensures exists j: nat :: j <= i && v[j] == p[i]
  {
    assert p[i] in multiset(p);
    assert p[i] in multiset(v);
    var j :| 0 <= j < |v| && v[j] == p[i];
    if j > i {
      TwiceInMultiset(p, i, j);
      DistinctOnce(v, p[i]);
    }
  }

  lemma TwiceInMultiset<T>(p: seq<T>, i: nat, j: nat)
    requires i < j < |p| && p[i] == p[j]
    ensures multiset(p)[p[i]] >= 2
  {
    assert p == p[..j] + p[j..];
    assert p[i] in p[..j] && p[j] in p[j..];
  }

  lemma {:induction false} DistinctOnce<T>(v: seq<T>, x: T)
    requires Distinct(v)
    ensures multiset(v)[x] <= 1
    decreases |v|
  {
    if v != [] {
      DistinctOnce(v[1..], x);
      assert v == [v[0]] + v[1..];
    }
  }

  lemma LastPosition<T>(i: int, v: seq<T>, p: seq<T>)
    requires i <= 0 && i < |v| == |p| && Distinct(v) && multiset(v) == multiset(p)
    requires forall k | 0 <= k < |v| && i < k :: v[k] == p[k]
    ensures v == p
  {
    if |v| > 0 && i == 0 {
      FindBelow(0, v, p);
    }
  }

  /** Fisher-Yates permutes its input whatever is drawn. */
  lemma FisherYatesPermutes<T>(v: seq<T>, draws: seq<nat>)
    requires DrawsFit(|v| - 1, draws, false)
    ensures multiset(FisherYates(v, draws)) == multiset(v)
  {
    hide Go;
    FisherYatesIsGo(v, draws);
    GoPermutes(|v| - 1, v, draws);
  }

  /** The draw list is determined by the result. */
  lemma FisherYatesInjective<T>(v: seq<T>, ds: seq<nat>, es: seq<nat>)
    requires Distinct(v) && DrawsFit(|v| - 1, ds, false) && DrawsFit(|v| - 1, es, false)
    requires FisherYates(v, ds) == FisherYates(v, es)
    ensures ds == es
  {
    GoInjective(|v| - 1, v, ds, es);
  }

  /** For distinct elements every permutation comes from exactly one draw list. */
  lemma FisherYatesBijection<T>(v: seq<T>, p: seq<T>) returns (draws: seq<nat>)
    requires Distinct(v) && multiset(p) == multiset(v)
    ensures DrawsFit(|v| - 1, draws, false) && FisherYates(v, draws) == p
    ensures forall ds | DrawsFit(|v| - 1, ds, false) && FisherYates(v, ds) == p :: ds == draws
  {
    hide Go, Distinct;
    assert |p| == |multiset(p)| == |v|;
    draws := DrawsFor(|v| - 1, v, p);
    FisherYatesIsGo(v, draws);
    hide FisherYates;
    forall ds | DrawsFit(|v| - 1, ds, false) && FisherYates(v, ds) == p
      ensures ds == draws
    {
      FisherYatesInjective(v, ds, draws);
    }
  }

  // ---- Sattolo's variant: one cycle ----

  function Identity(n: nat): (v: seq<nat>)
    ensures |v| == n && forall k | 0 <= k < n :: v[k] == k
  {
    seq(n, k => k)
  }

  /** The vector whose k-th element is v at position idx[k]. */
  function Pick<T>(v: seq<T>, idx: seq<nat>): (w: seq<T>)
    requires |idx| == |v| && forall k | 0 <= k < |idx| :: idx[k] < |v|
    ensures |w| == |v| && forall k | 0 <= k < |v| :: w[k] == v[idx[k]]
  {
    seq(|v|, k requires 0 <= k < |v| => v[idx[k]])
  }

  predicate Indices(idx: seq<nat>) {
    forall k | 0 <= k < |idx| :: idx[k] < |idx|
  }

  lemma {:induction false} GoIndices(i: int, idx: seq<nat>, draws: seq<nat>)
    requires i < |idx| && Indices(idx) && DrawsFit(i, draws, false)
    ensures Indices(Go(i, idx, draws))
    decreases |draws|
  {
    if i > 0 {
      GoIndices(i - 1, SwapAt(i, draws[0], idx), draws[1..]);
    }
  }

  lemma SwapPick<T>(i: nat, j: nat, v: seq<T>, idx: seq<nat>)
    requires i < |v| && j < |v| && |idx| == |v| && Indices(idx)
    ensures Indices(SwapAt(i, j, idx)) && SwapAt(i, j, Pick(v, idx)) == Pick(v, SwapAt(i, j, idx))
  {
    var moved, picked := SwapAt(i, j, idx), Pick(v, idx);
    assert Indices(moved);
    forall k | 0 <= k < |v|
      ensures SwapAt(i, j, picked)[k] == Pick(v, moved)[k]
    {
    }
  }

  /** The swaps move positions without looking at the elements. */
  lemma {:induction false} GoNatural<T>(i: int, v: seq<T>, idx: seq<nat>, draws: seq<nat>)
    requires |idx| == |v| && i < |v| && Indices(idx) && DrawsFit(i, draws, false)
    ensures Indices(Go(i, idx, draws)) && Go(i, Pick(v, idx), draws) == Pick(v, Go(i, idx, draws))
    decreases |draws|
  {
    hide Pick, SwapAt, Indices;
    GoIndices(i, idx, draws);
    if i > 0 {
      var moved := SwapAt(i, draws[0], idx);
      SwapPick(i, draws[0], v, idx);
      GoNatural(i - 1, v, moved, draws[1..]);
    }
  }

  predicate Covers(c: seq<nat>, m: nat) {
    |c| == m && (forall k | 0 <= k < m :: c[k] < m) && (forall x: nat | x < m :: x in c) && Distinct(c)
  }

  /** c lists the positions below m in the order in which perm visits them. */
  predicate IsCycle(perm: seq<nat>, c: seq<nat>, m: nat) {
    m <= |perm| && Covers(c, m) &&
    forall k | 0 <= k < m :: perm[c[k]] == c[if k + 1 == m then 0 else k + 1]
  }

  /** The position of x in a list that has it. */
  function IndexOf(c: seq<nat>, x: nat): (p: nat)
    requires x in c
    ensures p < |c| && c[p] == x
  {
    if c[0] == x then 0 else 1 + IndexOf(c[1..], x)
  }

  /** x put into the list just before position p. */
  function InsertAt(c: seq<nat>, p: nat, x: nat): (d: seq<nat>)
    requires p <= |c|
    ensures |d| == |c| + 1
    ensures forall k | 0 <= k < |d| :: d[k] == if k < p then c[k] else if k == p then x else c[k - 1]
  {
    c[..p] + [x] + c[p..]
  }

  /** The cycle Sattolo's draws build: each new position enters just before its draw. */
  function CycleOf(i: nat, draws: seq<nat>): (c: seq<nat>)
    requires DrawsFit(i, draws, true)
    ensures Covers(c, i + 1) && |c| == i + 1 && forall x: nat | x <= i :: x in c
    decreases i
  {
    if i == 0 then [0]
    else
      var c := CycleOf(i - 1, draws[1..]);
      var p := IndexOf(c, draws[0]);
      InsertCovers(c, p, i);
      InsertAt(c, p, i)
  }

  lemma InsertCovers(c: seq<nat>, p: nat, m: nat)
    requires Covers(c, m) && p <= m
    ensures Covers(InsertAt(c, p, m), m + 1)
  {
    var d := InsertAt(c, p, m);
    assert d[p] == m;
    forall x: nat | x < m
      ensures x in d
    {
      var k := IndexOf(c, x);
      assert d[if k < p then k else k + 1] == x;
    }
  }

  /** Composing a cycle on the positions below m with the exchange of m and one
      of them gives a cycle on the positions up to m. */
  lemma CycleGrows(perm: seq<nat>, perm': seq<nat>, c: seq<nat>, p: nat, m: nat)
    requires IsCycle(perm, c, m) && p < m < |perm| == |perm'| && perm[m] == m
    requires Indices(perm) && perm' == Pick(SwapAt(m, c[p], Identity(|perm|)), perm)
    ensures IsCycle(perm', InsertAt(c, p, m), m + 1)
  {
    InsertCovers(c, p, m);
    var d := InsertAt(c, p, m);
    forall k | 0 <= k < m + 1
      ensures perm'[d[k]] == d[if k + 1 == m + 1 then 0 else k + 1]
    {
      if k == p {
        assert perm'[m] == c[p];
      } else {
        var k' := if k < p then k else k - 1;
        var next := if k' + 1 == m then 0 else k' + 1;
        assert perm[c[k']] == c[next];
        assert perm'[c[k']] == if next == p then m else c[next];
      }
    }
  }

  lemma IdentityIndices(n: nat)
    ensures Indices(Identity(n))
  {
  }

  lemma UnitCycle(perm: seq<nat>)
    requires perm != [] && perm[0] == 0
    ensures IsCycle(perm, [0], 1)
  {
  }

  lemma PickIdentity<T>(v: seq<T>)
    ensures Pick(v, Identity(|v|)) == v
  {
  }

  lemma {:induction false} SattoloBuildsCycle(n: nat, i: nat, draws: seq<nat>)
    requires i < n && DrawsFit(i, draws, true)
    ensures DrawsFit(i, draws, false) && Indices(Go(i, Identity(n), draws))
    ensures IsCycle(Go(i, Identity(n), draws), CycleOf(i, draws), i + 1)
    decreases i
  {
    hide IsCycle, Indices, Identity;
    StrictDrawsFit(i, draws);
    IdentityIndices(n);
    GoIndices(i, Identity(n), draws);
    if i == 0 {
      IdentityStarts(n);
      UnitCycle(Identity(n));
    } else {
      SattoloBuildsCycle(n, i - 1, draws[1..]);
      SattoloStep(n, i, draws);
    }
  }

  lemma IdentityStarts(n: nat)
    requires n > 0
    ensures Identity(n)[0] == 0
  {
  }

  /** The first swap, followed by a cycle on the positions below. */
  lemma SattoloStep(n: nat, i: nat, draws: seq<nat>)
    requires 0 < i < n && DrawsFit(i, draws, true) && DrawsFit(i, draws, false)
    requires IsCycle(Go(i - 1, Identity(n), draws[1..]), CycleOf(i - 1, draws[1..]), i)
    ensures IsCycle(Go(i, Identity(n), draws), CycleOf(i, draws), i + 1)
  {
    hide IsCycle, Covers, Pick, SwapAt, Indices, Identity;
    var j, rest := draws[0], draws[1..];
    var swapped := SwapAt(i, j, Identity(n));
    var perm := Go(i - 1, Identity(n), rest);
    IdentityIndices(n);
    GoNatural(i - 1, swapped, Identity(n), rest);
    PickIdentity(swapped);
    GoKeepsAbove(i - 1, Identity(n), rest, i);
    IdentityAt(n, i);
    CycleGrows(perm, Go(i, Identity(n), draws), CycleOf(i - 1, rest), IndexOf(CycleOf(i - 1, rest), j), i);
  }

  lemma IdentityAt(n: nat, i: nat)
    requires i < n
    ensures Identity(n)[i] == i
  {
  }

  lemma FisherYatesIsGo<T>(v: seq<T>, draws: seq<nat>)
    requires DrawsFit(|v| - 1, draws, false) || DrawsFit(|v| - 1, draws, true)
    ensures DrawsFit(|v| - 1, draws, false) && FisherYates(v, draws) == Go(|v| - 1, v, draws)
  {
    if DrawsFit(|v| - 1, draws, true) {
      StrictDrawsFit(|v| - 1, draws);
    }
  }

  /** Sattolo's shuffle of a non-empty vector moves the elements along one cycle
      through all positions, whatever the elements are. */
  lemma SattoloSingleCycle<T>(v: seq<T>, draws: seq<nat>)
    requires v != [] && DrawsFit(|v| - 1, draws, true)
    ensures DrawsFit(|v| - 1, draws, false)
    ensures var perm := FisherYates(Identity(|v|), draws);
            Indices(perm) && FisherYates(v, draws) == Pick(v, perm) &&
            IsCycle(perm, CycleOf(|v| - 1, draws), |v|)
  {
    hide IsCycle, CycleOf, Covers, Go, FisherYates;
    var n := |v|;
    FisherYatesIsGo(v, draws);
    FisherYatesIsGo(Identity(n), draws);
    SattoloBuildsCycle(n, n - 1, draws);
    GoNatural(n - 1, v, Identity(n), draws);
    PickIdentity(v);
  }

  /** A single cycle through two or more positions leaves none in place. */
  lemma CycleHasNoFixedPoint(perm: seq<nat>, c: seq<nat>, x: nat)
    requires IsCycle(perm, c, |perm|) && |perm| >= 2 && x < |perm|
    ensures perm[x] != x
  {
    var k := IndexOf(c, x);
    assert perm[c[k]] == c[if k + 1 == |perm| then 0 else k + 1];
  }

  function Iterate(perm: seq<nat>, x: nat, steps: nat): (y: nat)
    requires Indices(perm) && x < |perm|
    ensures y < |perm|
    decreases steps
  {
    if steps == 0 then x else Iterate(perm, perm[x], steps - 1)
  }

  lemma CycleStep(perm: seq<nat>, c: seq<nat>, k: nat) returns (next: nat)
    requires IsCycle(perm, c, |perm|) && k < |perm|
    ensures |c| == |perm| && next == if k + 1 == |perm| then 0 else k + 1
    ensures c[k] < |perm| && perm[c[k]] == c[next]
  {
    next := if k + 1 == |perm| then 0 else k + 1;
  }

  lemma {:induction false} IterateAlongCycle(perm: seq<nat>, c: seq<nat>, k: nat, steps: nat)
    requires Indices(perm) && IsCycle(perm, c, |perm|) && k < |perm| == |c| && c[k] < |perm|
    ensures Iterate(perm, c[k], steps) == c[(k + steps) % |perm|]
    decreases steps
  {
    hide IsCycle, Covers;
    var n := |perm|;
    if steps == 0 {
      ModUnique(k, n, 0, k);
    } else {
      var next := CycleStep(perm, c, k);
      IterateAlongCycle(perm, c, next, steps - 1);
      if k + 1 == n {
        WrapOnce(steps - 1, n);
      }
    }
  }

  lemma WrapOnce(a: nat, n: nat)
    requires n > 0
    ensures (a + n) % n == a % n
  {
    ModUnique(a + n, n, a / n + 1, a % n);
  }

  /** Following the permutation from any position returns to it after n steps and
      never earlier, so the cycle has length exactly n. */
  lemma SattoloPeriod(n: nat, draws: seq<nat>, x: nat, steps: nat)
    requires x < n && DrawsFit(n - 1, draws, true)
    ensures DrawsFit(n - 1, draws, false)
    ensures var perm := FisherYates(Identity(n), draws);
            Indices(perm) && (Iterate(perm, x, steps) == x <==> steps % n == 0)
  {
    hide FisherYates, CycleOf, IsCycle, Iterate, Pick;
    IdentityIndices(n);
    SattoloSingleCycle(Identity(n), draws);
    CyclePeriod(FisherYates(Identity(n), draws), CycleOf(n - 1, draws), x, steps);
  }

  lemma CyclePeriod(perm: seq<nat>, c: seq<nat>, x: nat, steps: nat)
    requires Indices(perm) && IsCycle(perm, c, |perm|) && x < |perm|
    ensures Iterate(perm, x, steps) == x <==> steps % |perm| == 0
  {
    hide Iterate, Indices;
    var n := |perm|;
    assert n > 0 && x in c;
    var k := IndexOf(c, x);
    IterateAlongCycle(perm, c, k, steps);
    ReturnsExactlyWhen(k, steps, n);
    ModWithin(k + steps, n);
    assert Distinct(c) && c[(k + steps) % n] == c[k] <==> (k + steps) % n == k;
  }

  lemma ModWithin(a: nat, n: nat)
    requires n > 0
    ensures 0 <= a % n < n
  {
  }

  /** Every permutation that is one cycle through all positions comes from exactly one list of
      Sattolo's draws. */
  lemma SattoloBijection(p: seq<nat>, c: seq<nat>) returns (draws: seq<nat>)
    requires p != [] && IsCycle(p, c, |p|) && Indices(p)
    ensures DrawsFit(|p| - 1, draws, true) && DrawsFit(|p| - 1, draws, false)
    ensures FisherYates(Identity(|p|), draws) == p
    ensures forall ds | DrawsFit(|p| - 1, ds, true) && DrawsFit(|p| - 1, ds, false) &&
                        FisherYates(Identity(|p|), ds) == p :: ds == draws
  {
    hide IsCycle, Go, Identity, FisherYates;
    var n := |p|;
    draws := SattoloDraws(n - 1, p, c);
    IdentityDistinct(n);
    FisherYatesIsGo(Identity(n), draws);
    forall ds | DrawsFit(n - 1, ds, true) && DrawsFit(n - 1, ds, false) && FisherYates(Identity(n), ds) == p
      ensures ds == draws
    {
      FisherYatesInjective(Identity(n), ds, draws);
    }
  }

  lemma IdentityDistinct(n: nat)
    ensures Distinct(Identity(n))
  {
  }

  /** The draws read off from the top: position i draws where it points, and taking it out of the
      cycle leaves a cycle on the positions below. */
  lemma {:induction false} SattoloDraws(i: nat, p: seq<nat>, c: seq<nat>) returns (draws: seq<nat>)
    requires i < |p| && Indices(p) && IsCycle(p, c, i + 1) && forall k | i < k < |p| :: p[k] == k
    ensures DrawsFit(i, draws, true) && DrawsFit(i, draws, false) && Go(i, Identity(|p|), draws) == p
    decreases i
  {
    hide IsCycle, Go;
    var n := |p|;
    if i == 0 {
      draws := [];
      UnitIsIdentity(p, c);
      GoStops(0, Identity(n), draws);
    } else {
      var q, below := CycleShrinks(p, c, i);
      var rest := SattoloDraws(i - 1, below, RemoveAt(c, q));
      draws := [p[i]] + rest;
      PointsBelow(p, c, i);
      DrawFirst(i, p[i], rest);
      var swapped := SwapAt(i, p[i], Identity(n));
      IdentityIndices(n);
      GoNatural(i - 1, swapped, Identity(n), rest);
      PickIdentity(swapped);
      GoStep(i, Identity(n), draws);
      SwapTwice(p, i);
    }
  }

  function RemoveAt(c: seq<nat>, q: nat): seq<nat>
    requires q < |c|
  {
    c[..q] + c[q + 1..]
  }

  lemma UnitIsIdentity(p: seq<nat>, c: seq<nat>)
    requires p != [] && IsCycle(p, c, 1) && forall k | 0 < k < |p| :: p[k] == k
    ensures p == Identity(|p|)
  {
    assert 0 in c && c[0] == 0;
  }

  lemma GoStops<T>(i: nat, v: seq<T>, draws: seq<nat>)
    requires i == 0 && v != [] && draws == []
    ensures DrawsFit(i, draws, false) && DrawsFit(i, draws, true) && Go(i, v, draws) == v
  {
  }

  lemma GoStep<T>(i: nat, v: seq<T>, draws: seq<nat>)
    requires 0 < i < |v| && DrawsFit(i, draws, false)
    ensures Go(i, v, draws) == Go(i - 1, SwapAt(i, draws[0], v), draws[1..])
  {
  }

  lemma DrawFirst(i: nat, j: nat, rest: seq<nat>)
    requires 0 < i && j < i && DrawsFit(i - 1, rest, true) && DrawsFit(i - 1, rest, false)
    ensures DrawsFit(i, [j] + rest, true) && DrawsFit(i, [j] + rest, false) && ([j] + rest)[1..] == rest
  {
    assert ([j] + rest)[1..] == rest;
  }

  /** In a cycle on the positions up to i > 0, position i points below itself. */
  lemma PointsBelow(p: seq<nat>, c: seq<nat>, i: nat)
    requires 0 < i < |p| && IsCycle(p, c, i + 1)
    ensures p[i] < i
  {
    var q := IndexOf(c, i);
    assert p[c[q]] == c[if q + 1 == i + 1 then 0 else q + 1];
  }

  /** p with the exchange of i and its target undone. */
  function Undone(p: seq<nat>, i: nat): (r: seq<nat>)
    requires i < |p| && Indices(p)
    ensures |r| == |p|
  {
    Pick(SwapAt(i, p[i], Identity(|p|)), p)
  }

  lemma SwapTwice(p: seq<nat>, i: nat)
    requires i < |p| && Indices(p)
    ensures Indices(Undone(p, i)) && Pick(SwapAt(i, p[i], Identity(|p|)), Undone(p, i)) == p
  {
  }

  lemma CycleShrinks(p: seq<nat>, c: seq<nat>, i: nat) returns (q: nat, below: seq<nat>)
    requires 0 < i < |p| && Indices(p) && IsCycle(p, c, i + 1) && forall k | i < k < |p| :: p[k] == k
    ensures q < |c| && below == Undone(p, i) && Indices(below) && IsCycle(below, RemoveAt(c, q), i)
    ensures forall k | i - 1 < k < |p| :: below[k] == k
  {
    hide Undone;
    q := IndexOf(c, i);
    below := Undone(p, i);
    SwapTwice(p, i);
    PointsBelow(p, c, i);
    forall k | 0 <= k < |p|
      ensures below[k] == if p[k] == i then p[i] else if p[k] == p[i] then i else p[k]
    {
      UndoneAt(p, i, k);
    }
    RemoveCovers(c, q, i);
    ShrunkSteps(p, below, c, q, i);
    OthersFixed(p, c, i);
  }

  lemma UndoneAt(p: seq<nat>, i: nat, k: nat)
    requires i < |p| && Indices(p) && k < |p|
    ensures Undone(p, i)[k] == if p[k] == i then p[i] else if p[k] == p[i] then i else p[k]
  {
  }

  /** Nobody else points where i points. */
  lemma OthersFixed(p: seq<nat>, c: seq<nat>, i: nat)
    requires 0 < i < |p| && IsCycle(p, c, i + 1)
    ensures forall k | 0 <= k < i && p[k] == p[i] :: false
  {
    var q := IndexOf(c, i);
    forall k | 0 <= k < i
      ensures p[k] != p[i]
    {
      var m := IndexOf(c, k);
      assert p[c[m]] == c[if m + 1 == i + 1 then 0 else m + 1];
      assert p[c[q]] == c[if q + 1 == i + 1 then 0 else q + 1];
    }
  }

  lemma ShrunkSteps(p: seq<nat>, below: seq<nat>, c: seq<nat>, q: nat, i: nat)
    requires 0 < i < |p| == |below| && IsCycle(p, c, i + 1) && q <= i && |c| == i + 1 && c[q] == i
    requires Covers(RemoveAt(c, q), i)
    requires forall k | 0 <= k < |p| :: below[k] == if p[k] == i then p[i] else if p[k] == p[i] then i else p[k]
    ensures IsCycle(below, RemoveAt(c, q), i)
  {
    var d := RemoveAt(c, q);
    assert forall k | 0 <= k < i :: d[k] == c[if k < q then k else k + 1];
    forall k | 0 <= k < i
      ensures below[d[k]] == d[if k + 1 == i then 0 else k + 1]
    {
      var m := if k < q then k else k + 1;
      var next := if m == i then 0 else m + 1;
      var after := if q == i then 0 else q + 1;
      assert d[k] == c[m] && c[m] < i + 1;
      assert p[c[m]] == c[next] && p[c[q]] == c[after];
    }
  }

  lemma RemoveCovers(c: seq<nat>, q: nat, m: nat)
    requires Covers(c, m + 1) && q <= m && c[q] == m
    ensures Covers(RemoveAt(c, q), m)
  {
    var d := RemoveAt(c, q);
    assert forall k | 0 <= k < m :: d[k] == c[if k < q then k else k + 1];
    forall k | 0 <= k < m
      ensures d[k] < m
    {
      assert c[if k < q then k else k + 1] != c[q];
    }
    forall x: nat | x < m
      ensures x in d
    {
      var k := IndexOf(c, x);
      assert d[if k < q then k else k - 1] == x;
    }
  }

  lemma ReturnsExactlyWhen(k: nat, steps: nat, n: nat)
    requires k < n
    ensures (k + steps) % n == k <==> steps % n == 0
  {
    var q, r := steps / n, steps % n;
    assert steps == n * q + r;
    if k + r < n {
      ModUnique(k + steps, n, q, k + r);
    } else {
      ModUnique(k + steps, n, q + 1, k + r - n);
    }
  }
}
