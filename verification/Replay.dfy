/** services/queue/src/main/scala/Replay.scala: an event fold that reports bad
    events instead of stopping, with a snapshot every so many accepted events. */
module Replay {
  import opened MapSum
  import opened Modular

  datatype Payload =
    | RoomCreated(roomId: string)
    | PlayerJoined(joined: string)
    | PlayerLeft(left: string)
    | CardTaken(cardId: int, taker: string)
    | GameFinished
    | Other // an event type the match does not name: a MatchError inside the Try

  datatype GameEvent = GameEvent(timestampMs: int, payload: Payload)

  datatype Reason =
    | AlreadyFinished
    | RoomIdMismatch(expected: string, actual: string)
    | DuplicatePlayer(player: string)
    | CardAlreadyTaken(card: int)
    | UnknownPlayer(player: string)
    | Unmatched

  datatype GameState = GameState(roomId: string, players: map<string, int>, cardsTaken: set<int>, isFinished: bool)

  datatype ReplayError = ReplayError(index: nat, event: GameEvent, reason: Reason)

  datatype Result = Result(finalState: GameState, snapshots: seq<GameState>, rejected: seq<ReplayError>, processed: nat)

  datatype Try<+T> = Success(value: T) | Failure(reason: Reason)

  function Empty(roomId: string): GameState {
    GameState(roomId, map[], {}, false)
  }

  function Apply(state: GameState, event: GameEvent): Try<GameState> {
    if state.isFinished then Failure(AlreadyFinished)
    else
      match event.payload
      case RoomCreated(id) =>
        if state.roomId != id then Failure(RoomIdMismatch(state.roomId, id)) else Success(state)
      case PlayerJoined(p) =>
        if p in state.players then Failure(DuplicatePlayer(p))
        else Success(state.(players := state.players[p := 0]))
      case PlayerLeft(p) =>
        Success(state.(players := state.players - {p}))
      case CardTaken(card, p) =>
        if card in state.cardsTaken then Failure(CardAlreadyTaken(card))
        else if p !in state.players then Failure(UnknownPlayer(p))
        else Success(state.(players := state.players[p := state.players[p] + 1],
                            cardsTaken := state.cardsTaken + {card}))
      case GameFinished => Success(state.(isFinished := true))
      case Other => Failure(Unmatched)
  }

  function InitialState(events: seq<GameEvent>): GameState {
    if events != [] && events[0].payload.RoomCreated? then Empty(events[0].payload.roomId) else Empty("unknown")
  }

  // ---- The stable sort by timestamp ----

  predicate Sorted(es: seq<GameEvent>) {
    forall i, j | 0 <= i < j < |es| :: es[i].timestampMs <= es[j].timestampMs
  }

  /** Puts e in front of everything that is not earlier. */
  function Insert(e: GameEvent, es: seq<GameEvent>): (r: seq<GameEvent>)
    requires Sorted(es)
    ensures Sorted(r) && |r| == |es| + 1
    ensures r[0] == e || (es != [] && r[0] == es[0] && es[0].timestampMs < e.timestampMs)
  {
    if es == [] || e.timestampMs <= es[0].timestampMs then [e] + es
    else [es[0]] + Insert(e, es[1..])
  }

  function SortBy(es: seq<GameEvent>): (r: seq<GameEvent>)
    ensures Sorted(r) && |r| == |es|
  {
    if es == [] then [] else Insert(es[0], SortBy(es[1..]))
  }

  lemma {:induction false} InsertMultiset(e: GameEvent, es: seq<GameEvent>)
    requires Sorted(es)
    ensures multiset(Insert(e, es)) == multiset{e} + multiset(es)
  {
    hide Sorted;
    if !(es == [] || e.timestampMs <= es[0].timestampMs) {
      assert Sorted(es[1..]) by {
        SortedTail(es);
      }
      InsertMultiset(e, es[1..]);
      assert es == [es[0]] + es[1..];
    }
  }

  lemma SortedTail(es: seq<GameEvent>)
    requires Sorted(es) && es != []
    ensures Sorted(es[1..])
  {
  }

  /** The sort keeps exactly the events it was given. */
  lemma {:induction false} SortMultiset(es: seq<GameEvent>)
    ensures multiset(SortBy(es)) == multiset(es)
  {
    if es == [] {
      assert SortBy(es) == [];
    } else {
      hide Insert, SortBy;
      SortMultiset(es[1..]);
      InsertMultiset(es[0], SortBy(es[1..]));
      SortCons(es);
      MultisetCons(es);
    }
  }

  lemma SortCons(es: seq<GameEvent>)
    requires es != []
    ensures SortBy(es) == Insert(es[0], SortBy(es[1..]))
  {
    hide Insert;
  }

  lemma MultisetCons(es: seq<GameEvent>)
    requires es != []
    ensures multiset(es) == multiset{es[0]} + multiset(es[1..])
  {
    assert es == [es[0]] + es[1..];
  }

  function AtTime(es: seq<GameEvent>, t: int): seq<GameEvent> {
    if es == [] then []
    else (if es[0].timestampMs == t then [es[0]] else []) + AtTime(es[1..], t)
  }

  lemma {:induction false} InsertStable(e: GameEvent, es: seq<GameEvent>, t: int)
    requires Sorted(es)
    ensures AtTime(Insert(e, es), t) == (if e.timestampMs == t then [e] else []) + AtTime(es, t)
  {
    if es == [] || e.timestampMs <= es[0].timestampMs {
      assert ([e] + es)[1..] == es;
    } else {
      InsertStable(e, es[1..], t);
      if e.timestampMs == t {
        NoneEarlier(es[0], t);
      }
      assert Insert(e, es)[1..] == Insert(e, es[1..]);
    }
  }

  lemma NoneEarlier(e: GameEvent, t: int)
    requires e.timestampMs < t
    ensures AtTime([e], t) == []
  {
  }

  /** Events of one timestamp keep their order. */
  lemma {:induction false} SortStable(es: seq<GameEvent>, t: int)
    ensures AtTime(SortBy(es), t) == AtTime(es, t)
  {
    if es != [] {
      SortStable(es[1..], t);
      InsertStable(es[0], SortBy(es[1..]), t);
    }
  }

  lemma {:induction false} SortSorted(es: seq<GameEvent>)
    requires Sorted(es)
    ensures SortBy(es) == es
  {
    if es != [] {
      SortSorted(es[1..]);
    }
  }

  // ---- What the fold accepts ----

  /** The state after offering every event in turn. */
  function After(s: GameState, es: seq<GameEvent>): GameState {
    if es == [] then s
    else
      var p := After(s, es[..|es| - 1]);
      match Apply(p, es[|es| - 1]) case Success(n) => n case Failure(_) => p
  }

  /** The events accepted on the way. */
  function Accepted(s: GameState, es: seq<GameEvent>): (a: seq<GameEvent>)
    ensures |a| <= |es|
  {
    if es == [] then []
    else
      var init, e := es[..|es| - 1], es[|es| - 1];
      Accepted(s, init) + if Apply(After(s, init), e).Success? then [e] else []
  }

  function Rejected(s: GameState, es: seq<GameEvent>): (r: seq<ReplayError>)
    ensures |r| + |Accepted(s, es)| == |es|
  {
    if es == [] then []
    else
      var init, e := es[..|es| - 1], es[|es| - 1];
      Rejected(s, init) +
      match Apply(After(s, init), e)
      case Success(_) => []
      case Failure(reason) => [ReplayError(|es| - 1, e, reason)]
  }

  lemma SnapshotInRange(n: nat, everyN: int, k: nat)
    requires everyN > 0 && k < n / everyN
    ensures 0 <= (k + 1) * everyN <= n
  {
    var q := n / everyN;
    LessTimes(k + 1, q, everyN);
    QuotientTimes(n, everyN);
  }

  lemma QuotientTimes(n: nat, d: int)
    requires d > 0
    ensures n / d * d <= n
  {
  }

  lemma {:induction false} LessTimes(a: nat, b: nat, d: nat)
    requires a <= b
    ensures 0 <= a * d <= b * d
    decreases b
  {
    if a < b {
      LessTimes(a, b - 1, d);
      OneTimeMore(b, d);
    }
  }

  lemma OneTimeMore(b: int, d: int)
    ensures b * d == (b - 1) * d + d
  {
  }

  /** How many events the k-th snapshot follows; all of them if k is out of range. */
  function SnapshotPoint(n: nat, everyN: int, k: nat): (p: nat)
    ensures p <= n
    ensures everyN > 0 && k < n / everyN ==> p == (k + 1) * everyN
  {
    if everyN > 0 && k < n / everyN then SnapshotInRange(n, everyN, k); (k + 1) * everyN else n
  }

  /** The states after each multiple of everyN accepted events. */
  function Snapshots(s: GameState, accepted: seq<GameEvent>, everyN: int): (r: seq<GameState>)
    ensures |r| == if everyN > 0 then |accepted| / everyN else 0
  {
    if everyN <= 0 then []
    else seq(|accepted| / everyN, (k: nat) => After(s, accepted[..SnapshotPoint(|accepted|, everyN, k)]))
  }

  /** One more accepted event adds a snapshot exactly when the count reaches a multiple. */
  lemma SnapshotsGrow(s: GameState, accepted: seq<GameEvent>, e: GameEvent, everyN: int)
    ensures var more := accepted + [e];
            Snapshots(s, more, everyN) == Snapshots(s, accepted, everyN) +
              if everyN > 0 && |more| % everyN == 0 then [After(s, more)] else []
  {
    hide After, SnapshotPoint;
    if everyN > 0 {
      var more, n := accepted + [e], |accepted|;
      CountSnapshots(n, everyN);
      forall k: nat | k < n / everyN
        ensures more[..SnapshotPoint(n + 1, everyN, k)] == accepted[..SnapshotPoint(n, everyN, k)]
      {
        SnapshotInRange(n, everyN, k);
      }
      if (n + 1) % everyN == 0 {
        assert more[..SnapshotPoint(n + 1, everyN, n / everyN)] == more;
      }
    }
  }

  lemma CountSnapshots(n: nat, everyN: int)
    requires everyN > 0
    ensures (n + 1) % everyN == 0 ==> (n + 1) / everyN == n / everyN + 1 && (n / everyN + 1) * everyN == n + 1
    ensures (n + 1) % everyN != 0 ==> (n + 1) / everyN == n / everyN
  {
    var q, r := n / everyN, n % everyN;
    assert n == everyN * q + r;
    if r + 1 == everyN {
      assert n + 1 == everyN * (q + 1) + 0;
      ModUnique(n + 1, everyN, q + 1, 0);
    } else {
      ModUnique(n + 1, everyN, q, r + 1);
    }
  }

  // ---- The loop ----

  /** What replaying a list of events amounts to. */
  function Outcome(events: seq<GameEvent>, everyN: int): Result {
    var sorted := SortBy(events);
    var start := InitialState(sorted);
    var accepted := Accepted(start, sorted);
    Result(After(start, sorted), Snapshots(start, accepted, everyN), Rejected(start, sorted), |accepted|)
  }

  method Replay(events: seq<GameEvent>, everyN: int) returns (r: Result)
    ensures r == Outcome(events, everyN)
  {
    hide Apply, After, Accepted, Rejected, Snapshots, SortBy, InitialState;
    var sorted := SortBy(events);
    var rejected: seq<ReplayError> := [];
    var snapshots: seq<GameState> := [];
    var state := InitialState(sorted);
    var processed := 0;
    ghost var start := state;
    ghost var accepted: seq<GameEvent> := [];
    Nothing(start);
    NoSnapshots(start, everyN);
    for idx := 0 to |sorted|
      invariant state == After(start, sorted[..idx]) == After(start, accepted)
      invariant accepted == Accepted(start, sorted[..idx]) && processed == |accepted|
      invariant rejected == Rejected(start, sorted[..idx])
      invariant snapshots == Snapshots(start, accepted, everyN)
    {
      var event := sorted[idx];
      OneMore(start, sorted[..idx], event);
      assert sorted[..idx + 1] == sorted[..idx] + [event];
      match Apply(state, event) {
        case Success(next) =>
          SnapshotsGrow(start, accepted, event, everyN);
          OneMore(start, accepted, event);
          accepted := accepted + [event];
          state := next;
          processed := processed + 1;
          if everyN > 0 && processed % everyN == 0 {
            snapshots := snapshots + [state];
          }
        case Failure(reason) =>
          rejected := rejected + [ReplayError(idx, event, reason)];
      }
    }
    assert sorted[..0] == [] && sorted[..|sorted|] == sorted;
    r := Result(state, snapshots, rejected, processed);
  }

  lemma OneMore(s: GameState, es: seq<GameEvent>, e: GameEvent)
    ensures After(s, es + [e]) == match Apply(After(s, es), e) case Success(n) => n case Failure(_) => After(s, es)
    ensures Accepted(s, es + [e]) == Accepted(s, es) + if Apply(After(s, es), e).Success? then [e] else []
    ensures Rejected(s, es + [e]) == Rejected(s, es) + match Apply(After(s, es), e)
                                                       case Success(_) => []
                                                       case Failure(reason) => [ReplayError(|es|, e, reason)]
  {
    hide Apply;
    assert (es + [e])[..|es|] == es;
  }

  lemma NoSnapshots(s: GameState, everyN: int)
    ensures Snapshots(s, [], everyN) == []
  {
  }

  lemma Nothing(s: GameState)
    ensures After(s, []) == s && Accepted(s, []) == [] && Rejected(s, []) == []
  {
  }

  // ---- Properties ----

  /** Every event is either processed or rejected, and each snapshot is the state
      after its multiple of everyN accepted events. */
  lemma CountsAndSnapshots(events: seq<GameEvent>, everyN: int)
    ensures var r := Outcome(events, everyN);
            var sorted := SortBy(events);
            var accepted := Accepted(InitialState(sorted), sorted);
            r.processed + |r.rejected| == |events| &&
            (everyN > 0 ==> |r.snapshots| == r.processed / everyN) && (everyN <= 0 ==> r.snapshots == []) &&
            forall k | 0 <= k < |r.snapshots| ::
              (k + 1) * everyN <= r.processed &&
              r.snapshots[k] == After(InitialState(sorted), accepted[..(k + 1) * everyN])
  {
    hide After, Accepted, Rejected, SortBy;
    var sorted := SortBy(events);
    var accepted := Accepted(InitialState(sorted), sorted);
    forall k | 0 <= k < |Snapshots(InitialState(sorted), accepted, everyN)|
      ensures (k + 1) * everyN <= |accepted| && SnapshotPoint(|accepted|, everyN, k) == (k + 1) * everyN
    {
      SnapshotInRange(|accepted|, everyN, k);
    }
  }

  /** Offering only the accepted events accepts all of them and ends in the same state. */
  lemma {:induction false} AcceptedAgain(s: GameState, es: seq<GameEvent>)
    ensures var a := Accepted(s, es);
            After(s, a) == After(s, es) && Accepted(s, a) == a && Rejected(s, a) == []
  {
    hide Apply, After, Accepted, Rejected;
    if es == [] {
      Nothing(s);
    } else {
      var init, e := es[..|es| - 1], es[|es| - 1];
      assert es == init + [e];
      AcceptedAgain(s, init);
      OneMore(s, init, e);
      OneMore(s, Accepted(s, init), e);
      assert Accepted(s, init) + [] == Accepted(s, init);
    }
  }

  lemma {:induction false} AcceptedSorted(s: GameState, es: seq<GameEvent>)
    requires Sorted(es)
    ensures Sorted(Accepted(s, es))
    ensures forall x | x in Accepted(s, es) :: x in es
  {
    hide Apply, After;
    if es != [] {
      var init, e := es[..|es| - 1], es[|es| - 1];
      AcceptedSorted(s, init);
      assert es == init + [e];
      var a := Accepted(s, init);
      forall i | 0 <= i < |a|
        ensures a[i].timestampMs <= e.timestampMs
      {
        assert a[i] in init;
      }
    }
  }

  /** A room-created event at the head is always accepted, so it stays the head. */
  lemma {:induction false} HeadAccepted(es: seq<GameEvent>)
    requires es != [] && es[0].payload.RoomCreated?
    ensures var a := Accepted(InitialState(es), es); a != [] && a[0] == es[0]
  {
    HeadAcceptedFrom(InitialState(es), es);
  }

  lemma {:induction false} HeadAcceptedFrom(s: GameState, es: seq<GameEvent>)
    requires es != [] && Apply(s, es[0]).Success?
    ensures Accepted(s, es) != [] && Accepted(s, es)[0] == es[0]
  {
    hide Apply;
    if |es| == 1 {
      OneMore(s, [], es[0]);
      assert es == [] + [es[0]];
    } else {
      HeadAcceptedFrom(s, es[..|es| - 1]);
    }
  }

  /** No accepted event ever carries a room id other than the initial one. */
  lemma {:induction false} RoomIdKept(s: GameState, es: seq<GameEvent>)
    ensures After(s, es).roomId == s.roomId
    ensures forall x | x in Accepted(s, es) && x.payload.RoomCreated? :: x.payload.roomId == s.roomId
  {
    if es != [] {
      RoomIdKept(s, es[..|es| - 1]);
    }
  }

  lemma SameStart(es: seq<GameEvent>)
    ensures InitialState(Accepted(InitialState(es), es)) == InitialState(es)
  {
    var s := InitialState(es);
    var a := Accepted(s, es);
    hide Accepted, Apply;
    RoomIdKept(s, es);
    if es != [] && es[0].payload.RoomCreated? {
      HeadAccepted(es);
    } else if a != [] {
      assert a[0] in a;
    }
  }

  /** Replaying only the events a replay accepted gives the same final state and
      snapshots with nothing rejected. */
  lemma ReplayOfAccepted(events: seq<GameEvent>, everyN: int)
    ensures var sorted := SortBy(events);
            var accepted := Accepted(InitialState(sorted), sorted);
            var r, again := Outcome(events, everyN), Outcome(accepted, everyN);
            again.finalState == r.finalState && again.snapshots == r.snapshots &&
            again.rejected == [] && again.processed == r.processed
  {
    hide Accepted, After, Rejected, Snapshots, Apply, InitialState;
    var sorted := SortBy(events);
    var s := InitialState(sorted);
    var accepted := Accepted(s, sorted);
    AcceptedSorted(s, sorted);
    SortSorted(accepted);
    SameStart(sorted);
    AcceptedAgain(s, sorted);
  }

  lemma ScoresStep(s: GameState, e: GameEvent)
    requires Apply(s, e).Success?
    requires forall p | p in s.players :: s.players[p] >= 0
    requires Sum(s.players) <= |s.cardsTaken|
    ensures var n := Apply(s, e).value;
            (forall p | p in n.players :: n.players[p] >= 0) && Sum(n.players) <= |n.cardsTaken|
  {
    match e.payload {
      case PlayerJoined(p) => SumUpdate(s.players, p, 0);
      case PlayerLeft(p) => SumRemove(s.players, p);
      case CardTaken(card, p) => SumUpdate(s.players, p, s.players[p] + 1);
      case _ =>
    }
  }

  lemma {:induction false} ScoresAfter(s: GameState, es: seq<GameEvent>)
    requires s.players == map[]
    ensures var n := After(s, es);
            (forall p | p in n.players :: n.players[p] >= 0) && Sum(n.players) <= |n.cardsTaken|
  {
    hide Apply;
    if es == [] {
      SumOfZeros(s.players);
    } else {
      var init, e := es[..|es| - 1], es[|es| - 1];
      ScoresAfter(s, init);
      if Apply(After(s, init), e).Success? {
        ScoresStep(After(s, init), e);
      }
    }
  }

  /** The scores of the players still present never exceed the cards taken. */
  lemma ScoresWithinCards(events: seq<GameEvent>, everyN: int)
    ensures var f := Outcome(events, everyN).finalState; Sum(f.players) <= |f.cardsTaken|
  {
    var sorted := SortBy(events);
    ScoresAfter(InitialState(sorted), sorted);
  }
}
