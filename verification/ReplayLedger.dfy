/** What a replay ends with, said by the events it accepted: who is there, who has how many
    points, which cards are gone, and what is turned away because of what. */
module ReplayLedger {
  import opened MapSum
  import opened Replay

  predicate Joins(e: GameEvent, p: string) {
    e.payload == PlayerJoined(p)
  }

  predicate Leaves(e: GameEvent, p: string) {
    e.payload == PlayerLeft(p)
  }

  predicate Takes(e: GameEvent, p: string) {
    e.payload.CardTaken? && e.payload.taker == p
  }

  predicate TakesCard(e: GameEvent, c: int) {
    e.payload.CardTaken? && e.payload.cardId == c
  }

  /** Joined without leaving afterwards. */
  predicate Present(a: seq<GameEvent>, p: string) {
    exists j | 0 <= j < |a| :: Joins(a[j], p) && forall k | j < k < |a| :: !Leaves(a[k], p)
  }

  predicate LastJoin(a: seq<GameEvent>, p: string, j: int) {
    0 <= j < |a| && Joins(a[j], p) && forall k | j < k < |a| :: !Joins(a[k], p)
  }

  predicate CardGone(a: seq<GameEvent>, c: int) {
    exists j | 0 <= j < |a| :: TakesCard(a[j], c)
  }

  predicate Finished(a: seq<GameEvent>) {
    exists j | 0 <= j < |a| :: a[j].payload == GameFinished
  }

  /** How many of the events are cards taken by p. */
  function Count(a: seq<GameEvent>, p: string): nat {
    if a == [] then 0 else Count(a[..|a| - 1], p) + if Takes(a[|a| - 1], p) then 1 else 0
  }

  function CountAll(a: seq<GameEvent>): nat {
    if a == [] then 0 else CountAll(a[..|a| - 1]) + if a[|a| - 1].payload.CardTaken? then 1 else 0
  }

  lemma CountSnoc(a: seq<GameEvent>, e: GameEvent, p: string)
    ensures Count(a + [e], p) == Count(a, p) + if Takes(e, p) then 1 else 0
    ensures CountAll(a + [e]) == CountAll(a) + if e.payload.CardTaken? then 1 else 0
  {
    assert (a + [e])[..|a|] == a;
  }

  // ---- The state by the accepted events ----

  /** The score of a player is the number of cards taken since the last join. */
  ghost predicate Scores(s: GameState, a: seq<GameEvent>) {
    forall p, j | p in s.players && LastJoin(a, p, j) :: s.players[p] == Count(a[j + 1..], p)
  }

  ghost predicate Players(s: GameState, a: seq<GameEvent>) {
    forall p :: p in s.players <==> Present(a, p)
  }

  ghost predicate Cards(s: GameState, a: seq<GameEvent>) {
    (forall c :: c in s.cardsTaken <==> CardGone(a, c)) && |s.cardsTaken| == CountAll(a)
  }

  lemma PlayersStep(s: GameState, a: seq<GameEvent>, e: GameEvent)
    requires Players(s, a) && Apply(s, e).Success?
    ensures Players(Apply(s, e).value, a + [e])
  {
    var b, n := a + [e], Apply(s, e).value;
    forall p
      ensures p in n.players <==> Present(b, p)
    {
      PresentSnoc(a, e, p);
    }
  }

  lemma PresentSnoc(a: seq<GameEvent>, e: GameEvent, p: string)
    ensures Present(a + [e], p) <==> Joins(e, p) || (Present(a, p) && !Leaves(e, p))
  {
    var b := a + [e];
    if Joins(e, p) {
      assert Joins(b[|a|], p);
    } else if Present(a, p) && !Leaves(e, p) {
      var j :| 0 <= j < |a| && Joins(a[j], p) && forall k | j < k < |a| :: !Leaves(a[k], p);
      assert Joins(b[j], p);
    }
    if Present(b, p) && !Joins(e, p) {
      var j :| 0 <= j < |b| && Joins(b[j], p) && forall k | j < k < |b| :: !Leaves(b[k], p);
      assert j < |a| && Joins(a[j], p);
      forall k | j < k < |a|
        ensures !Leaves(a[k], p)
      {
        assert !Leaves(b[k], p);
      }
      assert !Leaves(b[|a|], p);
    }
  }

  lemma ScoresStep(s: GameState, a: seq<GameEvent>, e: GameEvent)
    requires Players(s, a) && Scores(s, a) && Apply(s, e).Success?
    ensures Scores(Apply(s, e).value, a + [e])
  {
    var b, n := a + [e], Apply(s, e).value;
    forall p, j | p in n.players && LastJoin(b, p, j)
      ensures n.players[p] == Count(b[j + 1..], p)
    {
      if j == |a| {
        assert b[j + 1..] == [];
      } else {
        LastJoinSnoc(a, e, p, j);
        assert b[j + 1..] == a[j + 1..] + [e];
        CountSnoc(a[j + 1..], e, p);
      }
    }
  }

  lemma LastJoinSnoc(a: seq<GameEvent>, e: GameEvent, p: string, j: int)
    requires LastJoin(a + [e], p, j) && j < |a|
    ensures LastJoin(a, p, j) && !Joins(e, p)
  {
    var b := a + [e];
    assert a == b[..|a|];
    assert !Joins(b[|a|], p);
    forall k | j < k < |a|
      ensures !Joins(a[k], p)
    {
      assert !Joins(b[k], p);
    }
  }

  lemma CardsStep(s: GameState, a: seq<GameEvent>, e: GameEvent)
    requires Cards(s, a) && Apply(s, e).Success?
    ensures Cards(Apply(s, e).value, a + [e])
  {
    var n := Apply(s, e).value;
    CountSnoc(a, e, "");
    forall c
      ensures c in n.cardsTaken <==> CardGone(a + [e], c)
    {
      CardGoneSnoc(a, e, c);
    }
  }

  lemma CardGoneSnoc(a: seq<GameEvent>, e: GameEvent, c: int)
    ensures CardGone(a + [e], c) <==> CardGone(a, c) || TakesCard(e, c)
  {
    var b := a + [e];
    assert b[|a|] == e;
    if CardGone(a, c) {
      var j :| 0 <= j < |a| && TakesCard(a[j], c);
      assert TakesCard(b[j], c);
    }
  }

  lemma FinishedSnoc(a: seq<GameEvent>, e: GameEvent)
    ensures Finished(a + [e]) <==> Finished(a) || e.payload == GameFinished
  {
    var b := a + [e];
    assert b[|a|] == e;
    if Finished(a) {
      var j :| 0 <= j < |a| && a[j].payload == GameFinished;
      assert b[j].payload == GameFinished;
    }
  }

  predicate Fresh(s: GameState) {
    s == Empty(s.roomId)
  }

  /** After any events, the state says about the accepted ones what it should. */
  lemma {:induction false} StateByEvents(s: GameState, es: seq<GameEvent>)
    requires Fresh(s)
    ensures var n, a := After(s, es), Accepted(s, es);
            n.roomId == s.roomId && Players(n, a) && Scores(n, a) && Cards(n, a) && (n.isFinished <==> Finished(a))
    decreases |es|
  {
    hide Players, Scores, Cards, Finished, After, Accepted, Apply;
    if es == [] {
      Nothing(s);
      AtFirst(s);
    } else {
      var init, e := es[..|es| - 1], es[|es| - 1];
      assert es == init + [e];
      StateByEvents(s, init);
      OneMore(s, init, e);
      var p, a := After(s, init), Accepted(s, init);
      if Apply(p, e).Success? {
        PlayersStep(p, a, e);
        ScoresStep(p, a, e);
        CardsStep(p, a, e);
        FinishedSnoc(a, e);
        RoomAndEnd(p, e);
      } else {
        assert a + [] == a;
      }
    }
  }

  lemma AtFirst(s: GameState)
    requires Fresh(s)
    ensures Players(s, []) && Scores(s, []) && Cards(s, []) && !s.isFinished && !Finished([])
  {
  }

  lemma RoomAndEnd(s: GameState, e: GameEvent)
    requires Apply(s, e).Success?
    ensures var n := Apply(s, e).value;
            n.roomId == s.roomId && (n.isFinished <==> s.isFinished || e.payload == GameFinished)
  {
  }

  // ---- The points and the cards ----

  /** Somebody took a card and left later. */
  predicate TookAndLeft(a: seq<GameEvent>) {
    exists j, k | 0 <= j < k < |a| :: a[j].payload.CardTaken? && Leaves(a[k], a[j].payload.taker)
  }

  predicate HasTaken(a: seq<GameEvent>, p: string) {
    exists j | 0 <= j < |a| :: Takes(a[j], p)
  }

  lemma TookAndLeftSnoc(a: seq<GameEvent>, e: GameEvent)
    ensures TookAndLeft(a + [e]) <==> TookAndLeft(a) || (e.payload.PlayerLeft? && HasTaken(a, e.payload.left))
  {
    var b := a + [e];
    if TookAndLeft(a) {
      var j, k :| 0 <= j < k < |a| && a[j].payload.CardTaken? && Leaves(a[k], a[j].payload.taker);
      assert b[j] == a[j] && b[k] == a[k];
    }
    if e.payload.PlayerLeft? && HasTaken(a, e.payload.left) {
      var j :| 0 <= j < |a| && Takes(a[j], e.payload.left);
      assert b[j] == a[j] && b[|a|] == e;
    }
    if TookAndLeft(b) {
      var j, k :| 0 <= j < k < |b| && b[j].payload.CardTaken? && Leaves(b[k], b[j].payload.taker);
      assert b[j] == a[j];
      if k < |a| {
        assert b[k] == a[k];
      } else {
        assert Takes(a[j], e.payload.left);
      }
    }
  }

  lemma HasTakenSnoc(a: seq<GameEvent>, e: GameEvent, p: string)
    ensures HasTaken(a + [e], p) <==> HasTaken(a, p) || Takes(e, p)
  {
    var b := a + [e];
    assert b[|a|] == e;
    if HasTaken(a, p) {
      var j :| 0 <= j < |a| && Takes(a[j], p);
      assert Takes(b[j], p);
    }
  }

  predicate NoneNegative(s: GameState) {
    forall p | p in s.players :: s.players[p] >= 0
  }

  /** Having taken a card is having a point. */
  predicate TakersHold(s: GameState, a: seq<GameEvent>) {
    (forall j | 0 <= j < |a| && a[j].payload.CardTaken? :: Get(s.players, a[j].payload.taker) > 0) &&
    forall p | p in s.players && s.players[p] > 0 :: HasTaken(a, p)
  }

  /** No score is negative; while nobody who took a card has left, the points are the cards and the
      takers have them; from then on there are fewer points than cards. */
  ghost predicate Balance(s: GameState, a: seq<GameEvent>) {
    NoneNegative(s) && (!TookAndLeft(a) ==> TakersHold(s, a)) &&
    Sum(s.players) <= |s.cardsTaken| && (Sum(s.players) == |s.cardsTaken| <==> !TookAndLeft(a))
  }

  /** TakersHold without quantifying over positions. */
  lemma HoldByName(s: GameState, a: seq<GameEvent>)
    ensures TakersHold(s, a) <==> forall p :: HasTaken(a, p) <==> Get(s.players, p) > 0
  {
    if TakersHold(s, a) {
      forall p
        ensures HasTaken(a, p) <==> Get(s.players, p) > 0
      {
        if HasTaken(a, p) {
          var j :| 0 <= j < |a| && Takes(a[j], p);
          assert a[j].payload.taker == p;
        }
      }
    } else if forall p :: HasTaken(a, p) <==> Get(s.players, p) > 0 {
      forall j | 0 <= j < |a| && a[j].payload.CardTaken?
        ensures Get(s.players, a[j].payload.taker) > 0
      {
        assert Takes(a[j], a[j].payload.taker);
        assert HasTaken(a, a[j].payload.taker);
      }
    }
  }

  lemma HoldStep(s: GameState, a: seq<GameEvent>, e: GameEvent)
    requires NoneNegative(s) && TakersHold(s, a) && Apply(s, e).Success?
    requires e.payload.PlayerLeft? ==> !HasTaken(a, e.payload.left)
    ensures TakersHold(Apply(s, e).value, a + [e])
  {
    hide TakersHold, HasTaken;
    HoldByName(s, a);
    forall p
      ensures HasTaken(a + [e], p) <==> Get(Apply(s, e).value.players, p) > 0
    {
      HasTakenSnoc(a, e, p);
    }
    HoldByName(Apply(s, e).value, a + [e]);
  }

  lemma SumStep(s: GameState, e: GameEvent)
    requires NoneNegative(s) && Apply(s, e).Success?
    ensures var n := Apply(s, e).value;
            NoneNegative(n) &&
            Sum(n.players) - |n.cardsTaken| == Sum(s.players) - |s.cardsTaken| -
              if e.payload.PlayerLeft? then Get(s.players, e.payload.left) else 0
  {
    match e.payload {
      case PlayerJoined(p) => SumUpdate(s.players, p, 0);
      case PlayerLeft(p) => SumRemove(s.players, p);
      case CardTaken(card, p) => SumUpdate(s.players, p, s.players[p] + 1);
      case _ =>
    }
  }

  lemma BalanceStep(s: GameState, a: seq<GameEvent>, e: GameEvent)
    requires Balance(s, a) && Apply(s, e).Success?
    ensures Balance(Apply(s, e).value, a + [e])
  {
    hide TookAndLeft, HasTaken, TakersHold, Apply;
    TookAndLeftSnoc(a, e);
    SumStep(s, e);
    if !TookAndLeft(a) {
      HoldByName(s, a);
      if e.payload.PlayerLeft? ==> !HasTaken(a, e.payload.left) {
        HoldStep(s, a, e);
      }
    }
  }

  lemma {:induction false} Balances(s: GameState, es: seq<GameEvent>)
    requires Fresh(s)
    ensures Balance(After(s, es), Accepted(s, es))
    decreases |es|
  {
    hide Balance, After, Accepted, Apply;
    if es == [] {
      Nothing(s);
      BalanceAtFirst(s);
    } else {
      var init, e := es[..|es| - 1], es[|es| - 1];
      assert es == init + [e];
      Balances(s, init);
      OneMore(s, init, e);
      if Apply(After(s, init), e).Success? {
        BalanceStep(After(s, init), Accepted(s, init), e);
      } else {
        assert Accepted(s, init) + [] == Accepted(s, init);
      }
    }
  }

  lemma BalanceAtFirst(s: GameState)
    requires Fresh(s)
    ensures Balance(s, [])
  {
    SumOfZeros(s.players);
  }

  // ---- What is turned away ----

  /** Why an event is turned away, by the events accepted before it. */
  predicate TurnedAway(roomId: string, before: seq<GameEvent>, e: GameEvent, reason: Reason) {
    if Finished(before) then reason == AlreadyFinished
    else
      match e.payload
      case RoomCreated(id) => id != roomId && reason == RoomIdMismatch(roomId, id)
      case PlayerJoined(p) => Present(before, p) && reason == DuplicatePlayer(p)
      case CardTaken(c, p) =>
        (CardGone(before, c) && reason == CardAlreadyTaken(c)) ||
        (!CardGone(before, c) && !Present(before, p) && reason == UnknownPlayer(p))
      case PlayerLeft(_) => false
      case GameFinished => false
      case Other => reason == Unmatched
  }

  lemma AnswerByEvents(s: GameState, es: seq<GameEvent>, e: GameEvent, reason: Reason)
    requires Fresh(s)
    ensures Apply(After(s, es), e) == Failure(reason) <==> TurnedAway(s.roomId, Accepted(s, es), e, reason)
  {
    hide After, Accepted, Finished, Present, CardGone;
    StateByEvents(s, es);
  }

  /** Among the events offered, exactly those turned away are listed, with position and reason. */
  ghost predicate Listed(r: seq<ReplayError>, s: GameState, es: seq<GameEvent>) {
    (forall i, reason | 0 <= i < |es| ::
       ReplayError(i, es[i], reason) in r <==> TurnedAway(s.roomId, Accepted(s, es[..i]), es[i], reason)) &&
    (forall k | 0 <= k < |r| :: r[k].index < |es| && r[k].event == es[r[k].index]) &&
    forall k, l | 0 <= k < l < |r| :: r[k].index < r[l].index
  }

  lemma ListedStep(r: seq<ReplayError>, s: GameState, es: seq<GameEvent>, e: GameEvent)
    requires Fresh(s) && Listed(r, s, es)
    ensures Listed(r + match Apply(After(s, es), e)
                       case Success(_) => []
                       case Failure(reason) => [ReplayError(|es|, e, reason)], s, es + [e])
  {
    hide After, Accepted, Apply, TurnedAway;
    var more := es + [e];
    var last := match Apply(After(s, es), e)
                case Success(_) => []
                case Failure(reason) => [ReplayError(|es|, e, reason)];
    forall i, reason | 0 <= i < |more|
      ensures ReplayError(i, more[i], reason) in r + last <==>
              TurnedAway(s.roomId, Accepted(s, more[..i]), more[i], reason)
    {
      if i == |es| {
        AnswerByEvents(s, es, e, reason);
        assert more[..i] == es;
      } else {
        assert more[..i] == es[..i];
        assert ReplayError(i, more[i], reason) !in last;
      }
    }
  }

  lemma {:induction false} RejectedListed(s: GameState, es: seq<GameEvent>)
    requires Fresh(s)
    ensures Listed(Rejected(s, es), s, es)
    decreases |es|
  {
    hide After, Apply, Rejected, Listed, Accepted;
    if es == [] {
      Nothing(s);
      NothingListed(s);
    } else {
      var init, e := es[..|es| - 1], es[|es| - 1];
      assert es == init + [e];
      RejectedListed(s, init);
      OneMore(s, init, e);
      ListedStep(Rejected(s, init), s, init, e);
    }
  }

  lemma NothingListed(s: GameState)
    ensures Listed([], s, [])
  {
  }

  // ---- The outcome ----

  /** The room id a replay starts from. */
  function FirstRoom(sorted: seq<GameEvent>): string {
    if sorted != [] && sorted[0].payload.RoomCreated? then sorted[0].payload.roomId else "unknown"
  }

  /** The accepted events of the first n offered. */
  function AcceptedOf(events: seq<GameEvent>, n: nat): seq<GameEvent>
    requires n <= |events|
  {
    Accepted(InitialState(SortBy(events)), SortBy(events)[..n])
  }

  /** The final state is what the accepted events say: who joined and did not leave is there, with as
      many points as cards taken since the last join; the cards taken are gone. */
  lemma FinalStateByEvents(events: seq<GameEvent>, everyN: int)
    ensures var f := Outcome(events, everyN).finalState;
            var a := AcceptedOf(events, |events|);
            f.roomId == FirstRoom(SortBy(events)) && (f.isFinished <==> Finished(a)) &&
            (forall p :: p in f.players <==> Present(a, p)) &&
            (forall p, j | p in f.players && LastJoin(a, p, j) :: f.players[p] == Count(a[j + 1..], p)) &&
            (forall c :: c in f.cardsTaken <==> CardGone(a, c)) && |f.cardsTaken| == CountAll(a)
  {
    hide After, Accepted, Rejected, Snapshots, SortBy, Finished, Present, LastJoin, Count, CountAll, CardGone;
    var sorted := SortBy(events);
    assert sorted[..|events|] == sorted;
    StateByEvents(InitialState(sorted), sorted);
  }

  /** The points of those present are the cards taken exactly if nobody who took a card left later. */
  lemma PointsAreCardsExactlyWhen(events: seq<GameEvent>, everyN: int)
    ensures var f := Outcome(events, everyN).finalState;
            Sum(f.players) == |f.cardsTaken| <==> !TookAndLeft(AcceptedOf(events, |events|))
  {
    hide After, Accepted, Rejected, Snapshots, SortBy, TookAndLeft, TakersHold, NoneNegative;
    var sorted := SortBy(events);
    assert sorted[..|events|] == sorted;
    Balances(InitialState(sorted), sorted);
  }

  /** An event is listed with a reason exactly if the events accepted before it give that reason;
      the list is in the order offered. */
  lemma RejectedExactlyWhen(events: seq<GameEvent>, everyN: int)
    ensures var r := Outcome(events, everyN).rejected;
            var sorted := SortBy(events);
            (forall i, reason | 0 <= i < |sorted| ::
               ReplayError(i, sorted[i], reason) in r <==>
               TurnedAway(FirstRoom(sorted), AcceptedOf(events, i), sorted[i], reason)) &&
            (forall k | 0 <= k < |r| :: r[k].index < |sorted| && r[k].event == sorted[r[k].index]) &&
            forall k, l | 0 <= k < l < |r| :: r[k].index < r[l].index
  {
    hide After, Accepted, Rejected, Snapshots, SortBy, TurnedAway;
    var sorted := SortBy(events);
    RejectedListed(InitialState(sorted), sorted);
  }

  ghost predicate Refused(roomId: string, before: seq<GameEvent>, e: GameEvent) {
    exists reason :: TurnedAway(roomId, before, e, reason)
  }

  /** An event not turned away for any reason is accepted, the next after those before it. */
  lemma AcceptedExactlyWhen(events: seq<GameEvent>, i: nat)
    requires i < |events|
    ensures var e := SortBy(events)[i];
            var before := AcceptedOf(events, i);
            AcceptedOf(events, i + 1) ==
            if Refused(FirstRoom(SortBy(events)), before, e) then before else before + [e]
  {
    hide Accepted, SortBy, Refused, InitialState, FirstRoom, Fresh, Sorted;
    StartsFresh(SortBy(events));
    AcceptedAt(InitialState(SortBy(events)), SortBy(events), i);
  }

  lemma AcceptedAt(s: GameState, es: seq<GameEvent>, i: nat)
    requires Fresh(s) && i < |es|
    ensures var before := Accepted(s, es[..i]);
            Accepted(s, es[..i + 1]) == if Refused(s.roomId, before, es[i]) then before else before + [es[i]]
  {
    hide Accepted, Refused, Fresh;
    assert es[..i + 1] == es[..i] + [es[i]];
    AcceptedNext(s, es[..i], es[i]);
  }

  lemma StartsFresh(sorted: seq<GameEvent>)
    ensures Fresh(InitialState(sorted)) && InitialState(sorted).roomId == FirstRoom(sorted)
  {
  }

  lemma AcceptedNext(s: GameState, es: seq<GameEvent>, e: GameEvent)
    requires Fresh(s)
    ensures var before := Accepted(s, es);
            Accepted(s, es + [e]) ==
            if Refused(s.roomId, before, e) then before else before + [e]
  {
    hide After, Accepted, TurnedAway, Apply;
    OneMore(s, es, e);
    var answer := Apply(After(s, es), e);
    if answer.Failure? {
      AnswerByEvents(s, es, e, answer.reason);
    } else {
      forall reason
        ensures !TurnedAway(s.roomId, Accepted(s, es), e, reason)
      {
        AnswerByEvents(s, es, e, reason);
      }
    }
  }
}
