/** What the limiter of services/gateway/ratelimit.go answers to bursts of requests, to the token. */
module RateBursts {
  import opened RateLimiter

  /** n requests of one key at one moment. */
  function Burst(key: string, n: nat, now: real): (ops: seq<Op>)
    ensures |ops| == n
  {
    seq(n, _ => Allow(key, now))
  }

  lemma BurstHead(key: string, n: nat, now: real)
    requires n > 0
    ensures Burst(key, n, now)[0] == Allow(key, now) && Burst(key, n, now)[1..] == Burst(key, n - 1, now)
  {
  }

  /** Exactly as many of n requests are granted as there are whole tokens; they are the first ones. */
  function FirstOf(tokens: real, n: nat): seq<bool> {
    seq(n, i requires 0 <= i < n => tokens >= (i + 1) as real)
  }

  lemma FirstOfCons(tokens: real, n: nat)
    requires n > 0
    ensures FirstOf(tokens, n) ==
            [tokens >= 1.0] + FirstOf(if tokens >= 1.0 then tokens - 1.0 else tokens, n - 1)
  {
  }

  /** The tokens left after n requests. */
  function Left(tokens: real, n: nat): real {
    if n == 0 || tokens < 1.0 then tokens else Left(tokens - 1.0, n - 1)
  }

  /** The requests granted to a bucket that holds some tokens, and the tokens left. */
  lemma {:induction false} BurstAnswers(c: Limits, b: map<string, Bucket>, key: string, n: nat, now: real)
    ensures var tokens := Level(c, b, key, now);
            Answers(c, b, Burst(key, n, now)) == FirstOf(tokens, n) &&
            Level(c, After(c, b, Burst(key, n, now)), key, now) == Left(tokens, n) &&
            (n > 0 ==>
               key in After(c, b, Burst(key, n, now)) &&
               After(c, b, Burst(key, n, now))[key] == Bucket(Left(tokens, n), now))
    decreases n
  {
    hide Level, Grants, AfterAllow;
    if n > 0 {
      BurstHead(key, n, now);
      LevelSpent(c, b, key, now);
      FirstOfCons(Level(c, b, key, now), n);
      var b' := AfterAllow(c, b, key, now);
      StoredAfter(c, b, key, now);
      BurstAnswers(c, b', key, n - 1, now);
      if Level(c, b, key, now) < 1.0 {
        NoneLeft(Level(c, b, key, now), n - 1);
      }
    }
  }

  lemma NoneLeft(tokens: real, n: nat)
    requires tokens < 1.0
    ensures Left(tokens, n) == tokens
  {
  }

  lemma StoredAfter(c: Limits, b: map<string, Bucket>, key: string, now: real)
    ensures var l := Level(c, b, key, now);
            key in AfterAllow(c, b, key, now) &&
            AfterAllow(c, b, key, now)[key] == Bucket(if l >= 1.0 then l - 1.0 else l, now)
  {
  }

  lemma {:induction false} LeftIs(tokens: real, n: nat)
    ensures n as real <= tokens ==> Left(tokens, n) == tokens - n as real
    ensures 0.0 <= tokens < n as real ==> Left(tokens, n) == tokens - tokens.Floor as real
    ensures tokens < 0.0 ==> Left(tokens, n) == tokens
    decreases n
  {
    if n > 0 && tokens >= 1.0 {
      LeftIs(tokens - 1.0, n - 1);
      assert (tokens - 1.0).Floor == tokens.Floor - 1;
    } else if 0.0 <= tokens < 1.0 {
      assert tokens.Floor == 0;
    }
  }

  /** A key's first n requests, all at one moment, then m more at a later one. Of the first, as many
      are granted as the capacity has whole tokens; by the second burst the tokens left have grown by
      refillPerSec for every second between, up to the capacity again. */
  lemma TwoBursts(c: Limits, key: string, n: nat, m: nat, first: real, second: real)
    requires n > 0 && first <= second
    ensures Answers(c, map[], Burst(key, n, first) + Burst(key, m, second)) ==
            FirstOf(c.capacity, n) + FirstOf(Grown(c, Left(c.capacity, n), second - first), m)
  {
    hide Level, Answers, After, Burst, Grown, Left;
    FullLevel(c, map[], key, first);
    BurstAnswers(c, map[], key, n, first);
    var b := After(c, map[], Burst(key, n, first));
    LevelIsGrown(c, b, key, second);
    BurstAnswers(c, b, key, m, second);
    RunSplit(c, map[], Burst(key, n, first), Burst(key, m, second), first);
  }

  /** The tokens in a bucket some seconds after it held a given number. */
  function Grown(c: Limits, tokens: real, seconds: real): real {
    var grown := tokens + seconds * c.refillPerSec;
    if grown < c.capacity then grown else c.capacity
  }

  lemma LevelIsGrown(c: Limits, b: map<string, Bucket>, key: string, now: real)
    requires key in b
    ensures Level(c, b, key, now) == Grown(c, b[key].tokens, now - b[key].lastRefill)
  {
    hide Gain;
    GainIs(now - b[key].lastRefill, c.refillPerSec);
  }

  // ---- Keys do not share anything ----

  predicate Touches(op: Op, key: string) {
    op.Sweep? || op.key == key
  }

  /** The sweeps and the requests of one key. */
  function OfKey(ops: seq<Op>, key: string): seq<Op> {
    if ops == [] then []
    else (if Touches(ops[0], key) then [ops[0]] else []) + OfKey(ops[1..], key)
  }

  /** The answers to the requests of one key. */
  function AnswersTo(c: Limits, b: map<string, Bucket>, ops: seq<Op>, key: string): seq<bool>
    decreases |ops|
  {
    if ops == [] then []
    else
      (if ops[0].Allow? && ops[0].key == key then [Grants(c, b, key, ops[0].now)] else []) +
      AnswersTo(c, Apply(c, b, ops[0]), ops[1..], key)
  }

  predicate SameEntry(a: map<string, Bucket>, b: map<string, Bucket>, key: string) {
    (key in a <==> key in b) && (key in a ==> a[key] == b[key])
  }

  lemma EntryKept(c: Limits, a: map<string, Bucket>, b: map<string, Bucket>, op: Op, key: string)
    requires SameEntry(a, b, key)
    ensures Touches(op, key) ==> SameEntry(Apply(c, a, op), Apply(c, b, op), key)
    ensures !Touches(op, key) ==> SameEntry(Apply(c, a, op), b, key)
    ensures op.Allow? && op.key == key ==> Grants(c, a, key, op.now) == Grants(c, b, key, op.now)
  {
    hide Refilled;
  }

  /** The answers to one key's requests are what they would be if no other key were ever used. */
  lemma {:induction false} KeysApart(c: Limits, a: map<string, Bucket>, b: map<string, Bucket>, ops: seq<Op>,
                                     key: string)
    requires SameEntry(a, b, key)
    ensures AnswersTo(c, a, ops, key) == Answers(c, b, OfKey(ops, key))
    decreases |ops|
  {
    hide SameEntry, Grants, AfterAllow, AfterSweep;
    if ops != [] {
      EntryKept(c, a, b, ops[0], key);
      var rest := OfKey(ops[1..], key);
      if Touches(ops[0], key) {
        KeysApart(c, Apply(c, a, ops[0]), Apply(c, b, ops[0]), ops[1..], key);
        assert OfKey(ops, key)[1..] == rest;
      } else {
        KeysApart(c, Apply(c, a, ops[0]), b, ops[1..], key);
        assert OfKey(ops, key) == rest;
      }
    }
  }
}
