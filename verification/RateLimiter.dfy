/** services/gateway/ratelimit.go: a token bucket per key and the background
    sweep of old buckets, over real numbers and with time passed in. */
module RateLimiter {

  datatype Bucket = Bucket(tokens: real, lastRefill: real)

  datatype Limits = Limits(capacity: real, refillPerSec: real)

  /** bucketTTL: ten minutes, in seconds. */
  const BUCKET_TTL: real := 600.0

  datatype Op = Allow(key: string, now: real) | Sweep(tick: real)

  // ---- One request ----

  /** The tokens that flow in over some seconds. */
  function Gain(seconds: real, rate: real): real {
    seconds * rate
  }

  function Min(x: real, y: real): real {
    if x > y then y else x
  }

  /** The bucket a request finds: the stored one, or a full one made now. */
  function Found(c: Limits, buckets: map<string, Bucket>, key: string, now: real): Bucket {
    if key in buckets then buckets[key] else Bucket(c.capacity, now)
  }

  /** The tokens in a bucket after refilling it up to a moment. */
  function Refilled(c: Limits, b: Bucket, now: real): real {
    Min(b.tokens + Gain(now - b.lastRefill, c.refillPerSec), c.capacity)
  }

  function Grants(c: Limits, buckets: map<string, Bucket>, key: string, now: real): bool {
    Refilled(c, Found(c, buckets, key, now), now) >= 1.0
  }

  function AfterAllow(c: Limits, buckets: map<string, Bucket>, key: string, now: real): map<string, Bucket> {
    var tokens := Refilled(c, Found(c, buckets, key, now), now);
    buckets[key := Bucket(if tokens >= 1.0 then tokens - 1.0 else tokens, now)]
  }

  function AfterSweep(buckets: map<string, Bucket>, tick: real): map<string, Bucket> {
    map k | k in buckets && !(tick - buckets[k].lastRefill > BUCKET_TTL) :: buckets[k]
  }

  class Limiter {
    var buckets: map<string, Bucket>
    const capacity: real
    const refillPerSec: real

    function Limit(): Limits {
      Limits(capacity, refillPerSec)
    }

    constructor (capacity: real, refillPerSec: real)
      ensures Limit() == Limits(capacity, refillPerSec) && buckets == map[]
    {
      this.capacity, this.refillPerSec := capacity, refillPerSec;
      buckets := map[];
    }

    method Allow(key: string, now: real) returns (ok: bool)
      modifies this
      ensures ok == Grants(Limit(), old(buckets), key, now)
      ensures buckets == AfterAllow(Limit(), old(buckets), key, now)
    {
      hide Gain;
      if key !in buckets {
        buckets := buckets[key := Bucket(capacity, now)];
      }
      var b := buckets[key];
      var elapsed := now - b.lastRefill;
      b := b.(tokens := b.tokens + Gain(elapsed, refillPerSec));
      if b.tokens > capacity {
        b := b.(tokens := capacity);
      }
      b := b.(lastRefill := now);
      buckets := buckets[key := b];
      assert b.tokens == Refilled(Limit(), Found(Limit(), old(buckets), key, now), now);
      if b.tokens < 1.0 {
        assert buckets == old(buckets)[key := b];
        return false;
      }
      b := b.(tokens := b.tokens - 1.0);
      buckets := buckets[key := b];
      assert buckets == old(buckets)[key := b];
      return true;
    }

    method SweepOld(tick: real)
      modifies this
      ensures buckets == AfterSweep(old(buckets), tick)
    {
      var pending := buckets.Keys;
      while pending != {}
        invariant pending <= old(buckets).Keys
        invariant forall k :: k in buckets <==>
                    k in old(buckets) && (k in pending || !(tick - old(buckets)[k].lastRefill > BUCKET_TTL))
        invariant forall k | k in buckets :: buckets[k] == old(buckets)[k]
        decreases |pending|
      {
        var k :| k in pending;
        if tick - buckets[k].lastRefill > BUCKET_TTL {
          buckets := buckets - {k};
        }
        pending := pending - {k};
      }
    }
  }

  // ---- Runs ----

  function After(c: Limits, buckets: map<string, Bucket>, ops: seq<Op>): map<string, Bucket>
    decreases |ops|
  {
    if ops == [] then buckets else After(c, Apply(c, buckets, ops[0]), ops[1..])
  }

  function Apply(c: Limits, buckets: map<string, Bucket>, op: Op): map<string, Bucket> {
    match op
    case Allow(key, now) => AfterAllow(c, buckets, key, now)
    case Sweep(tick) => AfterSweep(buckets, tick)
  }

  /** The answers to the requests of a run, in order. */
  function Answers(c: Limits, buckets: map<string, Bucket>, ops: seq<Op>): seq<bool>
    decreases |ops|
  {
    if ops == [] then []
    else
      var rest := Answers(c, Apply(c, buckets, ops[0]), ops[1..]);
      if ops[0].Allow? then [Grants(c, buckets, ops[0].key, ops[0].now)] + rest else rest
  }

  /** How many requests of one key a run allows. */
  function Allowed(c: Limits, buckets: map<string, Bucket>, ops: seq<Op>, key: string): (n: nat)
    decreases |ops|
  {
    if ops == [] then 0
    else (if ops[0].Allow? && ops[0].key == key && Grants(c, buckets, key, ops[0].now) then 1 else 0)
         + Allowed(c, Apply(c, buckets, ops[0]), ops[1..], key)
  }

  /** The latest moment seen: a request's time, or a sweep's tick if that is later. */
  function NextClock(op: Op, clock: real): real {
    match op
    case Allow(_, now) => now
    case Sweep(tick) => if tick > clock then tick else clock
  }

  /** Requests come at or after every earlier request and sweep; a sweep's tick may be stale. */
  predicate Ordered(ops: seq<Op>, clock: real)
    decreases |ops|
  {
    ops == [] || ((ops[0].Allow? ==> ops[0].now >= clock) && Ordered(ops[1..], NextClock(ops[0], clock)))
  }

  /** The clock after a run. */
  function Clock(ops: seq<Op>, clock: real): real
    decreases |ops|
  {
    if ops == [] then clock else Clock(ops[1..], NextClock(ops[0], clock))
  }

  predicate NoSweeps(ops: seq<Op>) {
    forall i | 0 <= i < |ops| :: ops[i].Allow?
  }

  function WithoutSweeps(ops: seq<Op>): (r: seq<Op>)
    ensures NoSweeps(r)
  {
    if ops == [] then []
    else if ops[0].Allow? then [ops[0]] + WithoutSweeps(ops[1..])
    else WithoutSweeps(ops[1..])
  }

  // ---- The window bound ----

  function Pos(x: real): real {
    if x > 0.0 then x else 0.0
  }

  /** The tokens a key can draw on at a moment. */
  function Fuel(c: Limits, buckets: map<string, Bucket>, key: string, now: real): real {
    Pos(Refilled(c, Found(c, buckets, key, now), now))
  }

  lemma Distribute(a: real, b: real, r: real)
    ensures Gain(a + b, r) == Gain(a, r) + Gain(b, r)
  {
  }

  lemma ProductSign(d: real, r: real)
    requires d >= 0.0
    ensures r >= 0.0 ==> Gain(d, r) >= 0.0
    ensures r <= 0.0 ==> Gain(d, r) <= 0.0
  {
  }

  lemma GainOver(seconds: real, tokens: real, rate: real)
    requires rate > 0.0 && seconds == tokens / rate
    ensures Gain(seconds, rate) == tokens && (tokens >= 0.0 ==> seconds >= 0.0) && (tokens > 0.0 ==> seconds > 0.0)
  {
  }

  lemma GainIs(seconds: real, rate: real)
    ensures Gain(seconds, rate) == seconds * rate
  {
  }

  lemma NoGain(r: real)
    ensures Gain(0.0, r) == 0.0
  {
  }

  lemma RateBound(d: real, r: real)
    requires d >= 0.0
    ensures Gain(d, r) <= Gain(d, Pos(r)) && Gain(d, Pos(r)) >= 0.0
  {
    hide Gain;
    ProductSign(d, r);
    ProductSign(d, Pos(r));
  }

  lemma FuelGrows(c: Limits, buckets: map<string, Bucket>, key: string, clock: real, now: real)
    requires clock <= now
    ensures Fuel(c, buckets, key, now) <= Fuel(c, buckets, key, clock) + Gain(now - clock, Pos(c.refillPerSec))
  {
    hide Gain, Pos, Min;
    var dt, r := now - clock, c.refillPerSec;
    RateBound(dt, r);
    if key in buckets {
      var b := buckets[key];
      Distribute(clock - b.lastRefill, dt, r);
      assert now - b.lastRefill == clock - b.lastRefill + dt;
      MinGrows(b.tokens + Gain(clock - b.lastRefill, r), Gain(dt, r), Gain(dt, Pos(r)), c.capacity);
    } else {
      NewBucketFull(c, now);
      NewBucketFull(c, clock);
    }
  }

  lemma MinGrows(x: real, d: real, e: real, cap: real)
    requires d <= e && e >= 0.0
    ensures Pos(Min(x + d, cap)) <= Pos(Min(x, cap)) + e
  {
  }

  lemma NewBucketFull(c: Limits, now: real)
    ensures Refilled(c, Bucket(c.capacity, now), now) == c.capacity
  {
    hide Gain;
    assert now - now == 0.0;
    NoGain(c.refillPerSec);
  }

  lemma FuelAtMostCapacity(c: Limits, buckets: map<string, Bucket>, key: string, now: real)
    ensures 0.0 <= Fuel(c, buckets, key, now) <= Pos(c.capacity)
  {
  }

  lemma FuelSpent(c: Limits, buckets: map<string, Bucket>, key: string, asked: string, now: real)
    ensures Fuel(c, AfterAllow(c, buckets, asked, now), key, now) ==
            Fuel(c, buckets, key, now) - if asked == key && Grants(c, buckets, key, now) then 1.0 else 0.0
  {
    hide Gain;
    var b' := AfterAllow(c, buckets, asked, now);
    if asked == key {
      assert now - b'[key].lastRefill == 0.0;
      NoGain(c.refillPerSec);
    }
  }

  lemma {:induction false} FuelBound(c: Limits, buckets: map<string, Bucket>, ops: seq<Op>, key: string,
                                     clock: real, end: real)
    requires NoSweeps(ops) && Ordered(ops, clock) && Clock(ops, clock) <= end
    ensures clock <= end
    ensures Allowed(c, buckets, ops, key) as real <=
            Fuel(c, buckets, key, clock) + Gain(end - clock, Pos(c.refillPerSec))
    decreases |ops|
  {
    hide Fuel, AfterAllow, Grants, Pos;
    if ops == [] {
      FuelAtMostCapacity(c, buckets, key, clock);
      RateBound(end - clock, c.refillPerSec);
    } else {
      var now, b' := ops[0].now, AfterAllow(c, buckets, ops[0].key, ops[0].now);
      FuelBound(c, b', ops[1..], key, now, end);
      FuelGrows(c, buckets, key, clock, now);
      FuelSpent(c, buckets, key, ops[0].key, now);
      Distribute(now - clock, end - now, Pos(c.refillPerSec));
    }
  }

  lemma {:induction false} RunSplit(c: Limits, buckets: map<string, Bucket>, s: seq<Op>, t: seq<Op>, clock: real)
    ensures After(c, buckets, s + t) == After(c, After(c, buckets, s), t)
    ensures Answers(c, buckets, s + t) == Answers(c, buckets, s) + Answers(c, After(c, buckets, s), t)
    ensures Ordered(s + t, clock) <==> Ordered(s, clock) && Ordered(t, Clock(s, clock))
    ensures Clock(s + t, clock) == Clock(t, Clock(s, clock))
    decreases |s|
  {
    hide AfterAllow, AfterSweep, Grants, NextClock;
    if s == [] {
      assert s + t == t;
    } else {
      assert (s + t)[1..] == s[1..] + t;
      RunSplit(c, Apply(c, buckets, s[0]), s[1..], t, NextClock(s[0], clock));
    }
  }

  /** In a sweep-free run, a window of requests between two moments is granted at
      most capacity + refillPerSec * length times to any one key. */
  lemma WindowBound(c: Limits, buckets: map<string, Bucket>, window: seq<Op>, key: string, start: real, end: real)
    requires NoSweeps(window) && Ordered(window, start) && Clock(window, start) <= end
    ensures Allowed(c, buckets, window, key) as real <= Pos(c.capacity) + (end - start) * Pos(c.refillPerSec)
  {
    hide Fuel, Pos, Allowed, Ordered, Gain;
    GainIs(end - start, Pos(c.refillPerSec));
    FuelBound(c, buckets, window, key, start, end);
    FuelAtMostCapacity(c, buckets, key, start);
  }

  // ---- Sweeping changes no answer ----

  /** The bucket would be full by the given moment. */
  predicate FullBy(c: Limits, b: Bucket, now: real) {
    b.tokens + Gain(now - b.lastRefill, c.refillPerSec) >= c.capacity
  }

  /** A swept limiter against one that never sweeps. */
  ghost predicate Shadows(c: Limits, swept: map<string, Bucket>, kept: map<string, Bucket>, clock: real) {
    (forall k | k in swept :: k in kept && swept[k] == kept[k]) &&
    (forall k | k in kept :: kept[k].tokens >= 0.0 && kept[k].lastRefill <= clock) &&
    (forall k | k in kept && k !in swept :: FullBy(c, kept[k], clock))
  }

  /** The condition under which a bucket is full by the time it may be swept. */
  predicate RefillsWithinTtl(c: Limits) {
    c.capacity <= Gain(BUCKET_TTL, c.refillPerSec)
  }

  lemma FullStaysFull(c: Limits, b: Bucket, clock: real, now: real)
    requires c.refillPerSec >= 0.0 && clock <= now && FullBy(c, b, clock)
    ensures FullBy(c, b, now)
  {
    hide Gain;
    Distribute(clock - b.lastRefill, now - clock, c.refillPerSec);
    assert clock - b.lastRefill + (now - clock) == now - b.lastRefill;
    ProductSign(now - clock, c.refillPerSec);
  }

  lemma OldIsFull(c: Limits, b: Bucket, tick: real)
    requires RefillsWithinTtl(c) && c.refillPerSec >= 0.0
    requires b.tokens >= 0.0 && tick - b.lastRefill > BUCKET_TTL
    ensures FullBy(c, b, tick)
  {
    hide Gain;
    var late := tick - b.lastRefill - BUCKET_TTL;
    Distribute(BUCKET_TTL, late, c.refillPerSec);
    assert BUCKET_TTL + late == tick - b.lastRefill;
    ProductSign(late, c.refillPerSec);
  }

  lemma SweepShadows(c: Limits, swept: map<string, Bucket>, kept: map<string, Bucket>, clock: real, tick: real)
    requires RefillsWithinTtl(c) && c.refillPerSec >= 0.0 && Shadows(c, swept, kept, clock)
    ensures Shadows(c, AfterSweep(swept, tick), kept, if tick > clock then tick else clock)
  {
    hide FullBy, RefillsWithinTtl;
    var clock' := if tick > clock then tick else clock;
    forall k | k in kept && k !in AfterSweep(swept, tick)
      ensures FullBy(c, kept[k], clock')
    {
      if k in swept {
        OldIsFull(c, kept[k], tick);
        FullStaysFull(c, kept[k], tick, clock');
      } else {
        FullStaysFull(c, kept[k], clock, clock');
      }
    }
  }

  lemma AllowShadows(c: Limits, swept: map<string, Bucket>, kept: map<string, Bucket>, clock: real, key: string,
                     now: real)
    requires c.refillPerSec >= 0.0 && c.capacity >= 0.0 && clock <= now && Shadows(c, swept, kept, clock)
    ensures Grants(c, swept, key, now) == Grants(c, kept, key, now)
    ensures Shadows(c, AfterAllow(c, swept, key, now), AfterAllow(c, kept, key, now), now)
  {
    hide Gain;
    var b, b' := Found(c, swept, key, now), Found(c, kept, key, now);
    NewBucketFull(c, now);
    if key in kept {
      ProductSign(now - b'.lastRefill, c.refillPerSec);
      if key !in swept {
        FullStaysFull(c, b', clock, now);
      }
    }
    forall k | k in kept && k !in swept
      ensures FullBy(c, kept[k], now)
    {
      FullStaysFull(c, kept[k], clock, now);
    }
  }

  /** A capacity below one token never grants anything. */
  lemma TooSmallNeverGrants(c: Limits, buckets: map<string, Bucket>, key: string, now: real)
    requires c.capacity < 1.0
    ensures !Grants(c, buckets, key, now)
  {
  }

  /** Any number of sweeps, anywhere in a run, leave every answer as it was and
      leave each key the same grants. */
  lemma {:induction false} SweepsInvisible(c: Limits, swept: map<string, Bucket>, kept: map<string, Bucket>,
                                           ops: seq<Op>, clock: real, key: string)
    requires Ordered(ops, clock)
    requires c.capacity < 1.0 || (RefillsWithinTtl(c) && Shadows(c, swept, kept, clock))
    ensures Answers(c, swept, ops) == Answers(c, kept, WithoutSweeps(ops))
    ensures Allowed(c, swept, ops, key) == Allowed(c, kept, WithoutSweeps(ops), key)
    ensures c.capacity >= 1.0 ==>
              Shadows(c, After(c, swept, ops), After(c, kept, WithoutSweeps(ops)), Clock(ops, clock))
    decreases |ops|
  {
    hide Grants, AfterAllow, AfterSweep, Shadows;
    if ops != [] {
      var rest := WithoutSweeps(ops[1..]);
      if c.capacity >= 1.0 {
        PositiveRate(c);
      }
      match ops[0] {
        case Allow(k, now) =>
          if c.capacity < 1.0 {
            TooSmallNeverGrants(c, swept, k, now);
            TooSmallNeverGrants(c, kept, k, now);
          } else {
            AllowShadows(c, swept, kept, clock, k, now);
          }
          assert ([ops[0]] + rest)[1..] == rest;
          SweepsInvisible(c, AfterAllow(c, swept, k, now), AfterAllow(c, kept, k, now), ops[1..], now, key);
        case Sweep(tick) =>
          if c.capacity >= 1.0 {
            SweepShadows(c, swept, kept, clock, tick);
          }
          SweepsInvisible(c, AfterSweep(swept, tick), kept, ops[1..], NextClock(ops[0], clock), key);
      }
    }
  }

  lemma PositiveRate(c: Limits)
    requires RefillsWithinTtl(c)
    ensures c.capacity >= 0.0 ==> c.refillPerSec >= 0.0
  {
  }

  lemma {:induction false} WithoutSweepsOrdered(ops: seq<Op>, clock: real, early: real)
    requires Ordered(ops, clock) && early <= clock
    ensures Ordered(WithoutSweeps(ops), early) && Clock(WithoutSweeps(ops), early) <= Clock(ops, clock)
    decreases |ops|
  {
    if ops != [] {
      var rest := WithoutSweeps(ops[1..]);
      match ops[0] {
        case Allow(_, now) =>
          WithoutSweepsOrdered(ops[1..], now, now);
          assert ([ops[0]] + rest)[1..] == rest;
        case Sweep(_) =>
          WithoutSweepsOrdered(ops[1..], NextClock(ops[0], clock), early);
      }
    }
  }

  lemma ShadowsLater(c: Limits, swept: map<string, Bucket>, kept: map<string, Bucket>, clock: real, now: real)
    requires c.refillPerSec >= 0.0 && clock <= now && Shadows(c, swept, kept, clock)
    ensures Shadows(c, swept, kept, now)
  {
    forall k | k in kept && k !in swept
      ensures FullBy(c, kept[k], now)
    {
      FullStaysFull(c, kept[k], clock, now);
    }
  }

  /** The window bound with sweeps running: any window of any run from an empty limiter. */
  lemma WindowBoundDespiteSweeps(c: Limits, before: seq<Op>, window: seq<Op>, key: string,
                                 first: real, start: real, end: real)
    requires c.capacity < 1.0 || RefillsWithinTtl(c)
    requires Ordered(before, first) && Clock(before, first) <= start
    requires Ordered(window, start) && Clock(window, start) <= end
    ensures Allowed(c, After(c, map[], before), window, key) as real <=
            Pos(c.capacity) + (end - start) * Pos(c.refillPerSec)
  {
    hide Allowed, Pos, After;
    var swept, kept := After(c, map[], before), After(c, map[], WithoutSweeps(before));
    SweepsInvisible(c, map[], map[], before, first, key);
    if c.capacity >= 1.0 {
      PositiveRate(c);
      ShadowsLater(c, swept, kept, Clock(before, first), start);
    }
    SweepsInvisible(c, swept, kept, window, start, key);
    WithoutSweepsOrdered(window, start, start);
    WindowBound(c, kept, WithoutSweeps(window), key, start, end);
  }

  // ---- Exactly when sweeping is harmless ----

  function Level(c: Limits, buckets: map<string, Bucket>, key: string, now: real): real {
    Refilled(c, Found(c, buckets, key, now), now)
  }

  lemma LevelSpent(c: Limits, buckets: map<string, Bucket>, key: string, now: real)
    ensures var l := Level(c, buckets, key, now);
            l <= c.capacity && Grants(c, buckets, key, now) == (l >= 1.0) &&
            Level(c, AfterAllow(c, buckets, key, now), key, now) == if l >= 1.0 then l - 1.0 else l
  {
    hide Gain;
    assert now - now == 0.0;
    NoGain(c.refillPerSec);
  }

  lemma LevelLater(c: Limits, buckets: map<string, Bucket>, key: string, now: real, dt: real)
    requires key in buckets && dt >= 0.0 && c.refillPerSec >= 0.0
    ensures Level(c, buckets, key, now + dt) == Min(Level(c, buckets, key, now) + Gain(dt, c.refillPerSec), c.capacity)
  {
    hide Gain;
    Distribute(now - buckets[key].lastRefill, dt, c.refillPerSec);
    assert now - buckets[key].lastRefill + dt == now + dt - buckets[key].lastRefill;
    ProductSign(dt, c.refillPerSec);
  }

  lemma OneRequest(c: Limits, buckets: map<string, Bucket>, key: string, now: real)
    ensures Answers(c, buckets, [Allow(key, now)]) == [Grants(c, buckets, key, now)]
    ensures After(c, buckets, [Allow(key, now)]) == AfterAllow(c, buckets, key, now)
    ensures forall clock | clock <= now :: Ordered([Allow(key, now)], clock) && Clock([Allow(key, now)], clock) == now
  {
    hide Grants, AfterAllow;
    assert [Allow(key, now)][1..] == [];
  }

  /** Two limiters whose levels for a key differ can be told apart by requests. */
  lemma {:induction false} Distinguish(c: Limits, a: map<string, Bucket>, b: map<string, Bucket>, key: string,
                                       now: real, bound: nat) returns (ops: seq<Op>)
    requires c.capacity >= 1.0 && Level(c, b, key, now) < Level(c, a, key, now)
    requires Level(c, b, key, now) < bound as real
    requires (Level(c, a, key, now) >= 1.0 && (Level(c, b, key, now) < 1.0 || c.refillPerSec > 0.0)) ||
             (c.refillPerSec > 0.0 && key in a && key in b)
    ensures NoSweeps(ops) && Ordered(ops, now) && Answers(c, a, ops) != Answers(c, b, ops)
    decreases bound
  {
    hide Level, Grants, Answers, After;
    var v, u := Level(c, a, key, now), Level(c, b, key, now);
    LevelSpent(c, a, key, now);
    LevelSpent(c, b, key, now);
    OneRequest(c, a, key, now);
    OneRequest(c, b, key, now);
    if v >= 1.0 && u >= 1.0 {
      var rest := Distinguish(c, AfterAllow(c, a, key, now), AfterAllow(c, b, key, now), key, now, bound - 1);
      RunSplit(c, a, [Allow(key, now)], rest, now);
      RunSplit(c, b, [Allow(key, now)], rest, now);
      ops := [Allow(key, now)] + rest;
      SameHead(true, Answers(c, AfterAllow(c, a, key, now), rest), Answers(c, AfterAllow(c, b, key, now), rest));
    } else if v >= 1.0 {
      ops := [Allow(key, now)];
    } else {
      var dt := (1.0 - v) / c.refillPerSec;
      GainOver(dt, 1.0 - v, c.refillPerSec);
      LevelLater(c, a, key, now, dt);
      LevelLater(c, b, key, now, dt);
      LevelSpent(c, a, key, now + dt);
      LevelSpent(c, b, key, now + dt);
      OneRequest(c, a, key, now + dt);
      OneRequest(c, b, key, now + dt);
      ops := [Allow(key, now + dt)];
    }
  }

  lemma SameHead(x: bool, s: seq<bool>, t: seq<bool>)
    requires s != t
    ensures [x] + s != [x] + t
  {
    assert ([x] + s)[1..] == s && ([x] + t)[1..] == t;
  }

  /** Requests at one moment bring a level below one token. */
  lemma {:induction false} Drain(c: Limits, b: map<string, Bucket>, key: string, now: real, bound: nat)
    returns (ops: seq<Op>)
    requires 0.0 <= Level(c, b, key, now) < bound as real && key in b
    ensures NoSweeps(ops) && Ordered(ops, now) && Clock(ops, now) == now
    ensures key in After(c, b, ops) && 0.0 <= Level(c, After(c, b, ops), key, now) < 1.0
    ensures (After(c, b, ops)[key].lastRefill == now || ops == [])
    decreases bound
  {
    hide Level, Grants, Answers;
    if Level(c, b, key, now) < 1.0 {
      ops := [];
    } else {
      LevelSpent(c, b, key, now);
      OneRequest(c, b, key, now);
      var rest := Drain(c, AfterAllow(c, b, key, now), key, now, bound - 1);
      RunSplit(c, b, [Allow(key, now)], rest, now);
      ops := [Allow(key, now)] + rest;
    }
  }

  /** A bucket used at this very moment: its level is its tokens. */
  lemma LevelIsTokens(c: Limits, b: map<string, Bucket>, key: string, now: real)
    requires key in b && b[key].lastRefill == now
    ensures Level(c, b, key, now) == Min(b[key].tokens, c.capacity)
  {
    hide Gain;
    assert now - now == 0.0;
    NoGain(c.refillPerSec);
  }

  lemma FullLevel(c: Limits, b: map<string, Bucket>, key: string, now: real)
    requires key !in b
    ensures Level(c, b, key, now) == c.capacity
  {
    hide Gain;
    assert now - now == 0.0;
    NoGain(c.refillPerSec);
  }

  /** A run after which a key's bucket, just used, holds less than a token. */
  lemma Exhaust(c: Limits, key: string) returns (ops: seq<Op>)
    requires c.capacity >= 1.0
    ensures NoSweeps(ops) && Ordered(ops, 0.0) && Clock(ops, 0.0) == 0.0
    ensures var b := After(c, map[], ops);
            key in b && b[key].lastRefill == 0.0 && 0.0 <= b[key].tokens < 1.0
  {
    hide Grants, Answers, Level;
    var full: map<string, Bucket> := map[];
    var b := AfterAllow(c, full, key, 0.0);
    LevelSpent(c, full, key, 0.0);
    FullLevel(c, full, key, 0.0);
    OneRequest(c, full, key, 0.0);
    var drain := Drain(c, b, key, 0.0, c.capacity.Floor + 1);
    RunSplit(c, full, [Allow(key, 0.0)], drain, 0.0);
    ops := [Allow(key, 0.0)] + drain;
    LevelIsTokens(c, After(c, b, drain), key, 0.0);
  }

  /** If the bucket refills, a run after which it is just used and quite empty. */
  lemma Empty(c: Limits, key: string) returns (ops: seq<Op>, now: real)
    requires c.capacity >= 1.0 && c.refillPerSec > 0.0
    ensures NoSweeps(ops) && Ordered(ops, 0.0) && Clock(ops, 0.0) == now
    ensures var b := After(c, map[], ops);
            key in b && b[key].lastRefill == now && b[key].tokens == 0.0
  {
    hide Grants, Answers, Level, After;
    var prep := Exhaust(c, key);
    var d := After(c, map[], prep);
    LevelIsTokens(c, d, key, 0.0);
    var dt := (1.0 - d[key].tokens) / c.refillPerSec;
    GainOver(dt, 1.0 - d[key].tokens, c.refillPerSec);
    LevelLater(c, d, key, 0.0, dt);
    LevelSpent(c, d, key, dt);
    OneRequest(c, d, key, dt);
    RunSplit(c, map[], prep, [Allow(key, dt)], 0.0);
    ops, now := prep + [Allow(key, dt)], dt;
    LevelIsTokens(c, AfterAllow(c, d, key, dt), key, dt);
  }

  /** A bucket that is swept before it has refilled. */
  lemma Premature(c: Limits, key: string) returns (ops: seq<Op>, tick: real)
    requires c.capacity >= 1.0 && !RefillsWithinTtl(c)
    ensures NoSweeps(ops) && Ordered(ops, 0.0) && Clock(ops, 0.0) <= tick
    ensures var b := After(c, map[], ops);
            key in b && tick - b[key].lastRefill > BUCKET_TTL &&
            Level(c, b, key, tick) < c.capacity &&
            (c.refillPerSec <= 0.0 ==> Level(c, b, key, tick) < 1.0)
  {
    hide After, Gain;
    var r := c.refillPerSec;
    if r > 0.0 {
      var now: real;
      ops, now := Empty(c, key);
      var extra := (c.capacity - Gain(BUCKET_TTL, r)) / 2.0 / r;
      var wait := BUCKET_TTL + extra;
      GainOver(extra, (c.capacity - Gain(BUCKET_TTL, r)) / 2.0, r);
      Distribute(BUCKET_TTL, extra, r);
      tick := now + wait;
      assert tick - now == wait;
    } else {
      ops := Exhaust(c, key);
      tick := BUCKET_TTL + 1.0;
      ProductSign(tick, r);
    }
  }

  lemma SweepGone(c: Limits, b: map<string, Bucket>, key: string, tick: real)
    requires key in b && tick - b[key].lastRefill > BUCKET_TTL
    ensures Level(c, AfterSweep(b, tick), key, tick) == c.capacity
  {
    FullLevel(c, AfterSweep(b, tick), key, tick);
  }

  /** Some run in which a sweep changes an answer. */
  lemma SweepMatters(c: Limits) returns (ops: seq<Op>)
    requires c.capacity >= 1.0 && !RefillsWithinTtl(c)
    ensures Ordered(ops, 0.0) && Answers(c, map[], ops) != Answers(c, map[], WithoutSweeps(ops))
  {
    hide After, Answers, Level, RefillsWithinTtl, AfterSweep;
    var prep, tick := Premature(c, "k");
    var b := After(c, map[], prep);
    SweepGone(c, b, "k", tick);
    var level := Level(c, b, "k", tick);
    var rest := Distinguish(c, AfterSweep(b, tick), b, "k", tick, if level < 0.0 then 1 else level.Floor + 1);
    OneSweep(c, b, tick, Clock(prep, 0.0));
    RunSplit(c, b, [Sweep(tick)], rest, Clock(prep, 0.0));
    RunSplit(c, map[], prep, [Sweep(tick)] + rest, 0.0);
    RunSplit(c, map[], prep, rest, 0.0);
    ops := prep + ([Sweep(tick)] + rest);
    DropSweep(prep, tick, rest);
    SamePrefix(Answers(c, map[], prep), Answers(c, AfterSweep(b, tick), rest), Answers(c, b, rest));
  }

  lemma SamePrefix(p: seq<bool>, s: seq<bool>, t: seq<bool>)
    requires s != t
    ensures p + s != p + t
  {
    assert (p + s)[|p|..] == s && (p + t)[|p|..] == t;
  }

  lemma OneSweep(c: Limits, b: map<string, Bucket>, tick: real, clock: real)
    requires clock <= tick
    ensures Answers(c, b, [Sweep(tick)]) == [] && After(c, b, [Sweep(tick)]) == AfterSweep(b, tick)
    ensures Ordered([Sweep(tick)], clock) && Clock([Sweep(tick)], clock) == tick
  {
    assert [Sweep(tick)][1..] == [];
  }

  lemma {:induction false} DropSweep(prep: seq<Op>, tick: real, rest: seq<Op>)
    requires NoSweeps(prep) && NoSweeps(rest)
    ensures WithoutSweeps(prep + ([Sweep(tick)] + rest)) == prep + rest
    decreases |prep|
  {
    var ops := prep + ([Sweep(tick)] + rest);
    if prep == [] {
      assert ops[1..] == rest;
      KeepsAll(rest);
      assert prep + rest == rest;
    } else {
      assert ops[1..] == prep[1..] + ([Sweep(tick)] + rest);
      DropSweep(prep[1..], tick, rest);
      assert prep + rest == [prep[0]] + (prep[1..] + rest);
    }
  }

  lemma {:induction false} KeepsAll(ops: seq<Op>)
    requires NoSweeps(ops)
    ensures WithoutSweeps(ops) == ops
    decreases |ops|
  {
    if ops != [] {
      KeepsAll(ops[1..]);
    }
  }

  /** Sweeping can never change an answer exactly when nothing is ever granted or
      an empty bucket refills completely within its time to live. */
  lemma SweepsHarmlessExactlyWhen(c: Limits)
    ensures c.capacity < 1.0 || c.capacity <= 600.0 * c.refillPerSec <==>
            forall ops, clock | Ordered(ops, clock) :: Answers(c, map[], ops) == Answers(c, map[], WithoutSweeps(ops))
  {
    assert RefillsWithinTtl(c) <==> c.capacity <= 600.0 * c.refillPerSec;
    hide Answers, RefillsWithinTtl;
    if c.capacity < 1.0 || RefillsWithinTtl(c) {
      forall ops, clock | Ordered(ops, clock)
        ensures Answers(c, map[], ops) == Answers(c, map[], WithoutSweeps(ops))
      {
        SweepsInvisible(c, map[], map[], ops, clock, "");
      }
    } else {
      var ops := SweepMatters(c);
      assert Ordered(ops, 0.0);
    }
  }
}
