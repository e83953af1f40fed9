/** services/frontend/src/hooks/useGame.ts: the browser rebuilds the room from the frames it is
    sent. Each connection has a first-in first-out queue; calls on the room and deliveries of
    frames interleave freely. */
module Replica {
  import opened MapSum
  import opened Options
  import opened Room
  import opened RoomRuns

  datatype Phase = IdlePhase | Connecting | WaitingPhase | PlayingPhase | FinishedPhase | ErrorPhase

  datatype Game = Game(
    cards: Deck, settings: Settings, current: Option<Card>, index: int, taken: set<int>, scores: map<string, int>)
  datatype View = View(players: seq<string>, isHost: bool, playerName: string, game: Option<Game>)

  /** The hook's state; name is playerNameRef. */
  datatype Client = Client(name: string, phase: Phase, room: Option<View>, isFouled: bool)

  /** A reply to the client's own create or join, or an event of the room. */
  datatype Frame = RoomCreated(name: string) | RoomJoined(players: seq<string>) | Told(event: Event)

  // ---- handleMessage ----

  function Without1(players: seq<string>, name: string): seq<string> {
    if players == [] then []
    else if players[0] == name then Without1(players[1..], name)
    else [players[0]] + Without1(players[1..], name)
  }

  function OnRoom(c: Client, f: View -> View): Client {
    if c.room.None? then c else c.(room := Some(f(c.room.value)))
  }

  function OnGame(c: Client, f: Game -> Game): Client {
    if c.room.None? || c.room.value.game.None? then c
    else c.(room := Some(c.room.value.(game := Some(f(c.room.value.game.value)))))
  }

  function OnEvent(c: Client, e: Event): Client {
    match e
    case PlayerJoined(name) => OnRoom(c, (v: View) => v.(players := v.players + [name]))
    case PlayerLeft(name) => OnRoom(c, (v: View) => v.(players := Without1(v.players, name)))
    case HostChanged(host) => OnRoom(c, (v: View) => v.(isHost := host == Some(v.playerName)))
    case GameStarted(cards, settings, _) =>
      OnRoom(c, (v: View) => v.(game := Some(Game(cards, settings, None, -1, {}, map[])))).(phase := PlayingPhase)
    case Foul(player, scores, _) =>
      var d := OnGame(c, (g: Game) => g.(scores := scores));
      if player == c.name then d.(isFouled := true) else d
    case CardReading(card, index, _) => OnGame(c, (g: Game) => g.(current := card, index := index)).(isFouled := false)
    case CardTaken(id, _, scores) => OnGame(c, (g: Game) => g.(taken := g.taken + {id}, scores := scores))
    case GameEnded(scores) => OnGame(c, (g: Game) => g.(scores := scores)).(phase := FinishedPhase)
    case CardSpeak(_, _) => c
    case CustomCardAdded(_) => c
    case CustomCardRemoved(_) => c
  }

  function HandleMessage(c: Client, f: Frame): Client {
    match f
    case RoomCreated(name) => c.(room := Some(View([name], true, name, None)), phase := WaitingPhase)
    case RoomJoined(players) => c.(room := Some(View(players, false, c.name, None)), phase := WaitingPhase)
    case Told(event) => OnEvent(c, event)
  }

  /** The client once it has handled every frame of a queue. */
  function Drain(c: Client, queue: seq<Frame>): Client
    decreases |queue|
  {
    if queue == [] then c else Drain(HandleMessage(c, queue[0]), queue[1..])
  }

  function OnEvents(c: Client, events: seq<Event>): Client
    decreases |events|
  {
    if events == [] then c else OnEvents(OnEvent(c, events[0]), events[1..])
  }

  // ---- Queues ----

  /** The events of a list of messages that go to one connection. */
  function Inbox(sent: seq<Message>, pid: Pid): seq<Event> {
    if sent == [] then []
    else (if sent[0].to == pid then [sent[0].event] else []) + Inbox(sent[1..], pid)
  }

  function Frames(events: seq<Event>): (frames: seq<Frame>)
    ensures |frames| == |events| && forall i | 0 <= i < |events| :: frames[i] == Told(events[i])
  {
    seq(|events|, i requires 0 <= i < |events| => Told(events[i]))
  }

  /** started holds the connections that were in the room when the game started, misled those
      that entered it while nobody was there and were told room_joined. */
  datatype Sys = Sys(
    room: State, clients: map<Pid, Client>, queues: map<Pid, seq<Frame>>, started: set<Pid>, misled: set<Pid>)

  datatype Action =
    | OnServer(call: Call) // any call but join
    | Enter(pid: Pid, name: string, before: Client) // joinRoom from any earlier client state
    | Deliver(pid: Pid)

  function Pids(players: seq<Player>): set<Pid> {
    set p | p in players :: p.pid
  }

  function Send(queues: map<Pid, seq<Frame>>, sent: seq<Message>): map<Pid, seq<Frame>> {
    map pid | pid in queues :: queues[pid] + Frames(Inbox(sent, pid))
  }

  function Step(y: Sys, a: Action): Sys {
    match a
    case OnServer(call) =>
      if call.Join? then y
      else
        var out := Handle(y.room, call);
        Sys(out.state, y.clients, Send(y.queues, out.sent),
            if call.StartGame? && out.reply == Done then Pids(y.room.players) else y.started, y.misled)
    case Enter(pid, name, before) =>
      var out := Handle(y.room, Join(pid, name));
      if !out.reply.Joined? then y
      else
        var queues := Send(y.queues, out.sent);
        var waiting := if pid in queues then queues[pid] else [];
        Sys(out.state, y.clients[pid := before.(name := name)], queues[pid := [RoomJoined(out.reply.names)] + waiting],
            y.started - {pid}, if y.room.players == [] then y.misled + {pid} else y.misled - {pid})
    case Deliver(pid) =>
      if pid in y.queues && pid in y.clients && y.queues[pid] != [] then
        y.(clients := y.clients[pid := HandleMessage(y.clients[pid], y.queues[pid][0])],
           queues := y.queues[pid := y.queues[pid][1..]])
      else y
  }

  /** A connection enters with nothing left over from an earlier stay. */
  predicate CleanEnter(y: Sys, a: Action) {
    a.Enter? && a.pid in y.queues ==> y.queues[a.pid] == []
  }

  function After(y: Sys, actions: seq<Action>): Sys
    decreases |actions|
  {
    if actions == [] then y else After(Step(y, actions[0]), actions[1..])
  }

  predicate CleanRun(y: Sys, actions: seq<Action>)
    decreases |actions|
  {
    actions == [] || (CleanEnter(y, actions[0]) && CleanRun(Step(y, actions[0]), actions[1..]))
  }

  /** A room just opened by its creator, who is told room_created. */
  function Opened(maxPlayers: nat, pid: Pid, name: string, before: Client): Sys {
    Sys(Handle(Init(maxPlayers), Join(pid, name)).state, map[pid := before.(name := name)],
        map[pid := [RoomCreated(name)]], {}, {})
  }

  // ---- Agreement ----

  function PhaseOf(status: Status): Phase {
    match status
    case Waiting => WaitingPhase
    case Playing => PlayingPhase
    case Finished => FinishedPhase
  }

  ghost predicate GameMatches(g: Game, c: Client, s: State) {
    s.status != Waiting && g.cards == s.cards && Some(g.settings) == s.settings && g.index == s.idx &&
    g.current == CardAt(s.cards, s.idx) && g.taken == s.taken && (forall n :: Get(g.scores, n) == Get(s.scores, n)) &&
    (c.isFouled <==> c.name in s.foul) && c.phase == PhaseOf(s.status)
  }

  /** The client agrees with the server; a misled one is the host without knowing it. */
  ghost predicate Matches(c: Client, s: State, name: string, misled: bool) {
    Same(c, s, name) && (c.room.value.isHost <==> s.host == Some(name) && !misled) && (misled ==> s.host == Some(name))
  }

  /** Agreement on everything but the host role. */
  ghost predicate Same(c: Client, s: State, name: string) {
    c.name == name && c.room.Some? && c.room.value.playerName == name && c.room.value.players == Names(s.players) &&
    (c.room.value.game.Some? ==> GameMatches(c.room.value.game.value, c, s))
  }

  /** The client knows whether it is the host. */
  predicate KnowsHost(c: Client, s: State, name: string)
    requires c.room.Some?
  {
    c.room.value.isHost <==> s.host == Some(name)
  }

  predicate HasGame(c: Client) {
    c.room.Some? && c.room.value.game.Some?
  }

  // ---- What one connection receives ----

  lemma {:induction false} InboxConcat(a: seq<Message>, b: seq<Message>, pid: Pid)
    ensures Inbox(a + b, pid) == Inbox(a, pid) + Inbox(b, pid)
  {
    if a == [] {
      assert a + b == b;
    } else {
      var head := if a[0].to == pid then [a[0].event] else [];
      assert (a + b)[1..] == a[1..] + b && (a + b)[0] == a[0];
      InboxConcat(a[1..], b, pid);
      Associate(head, Inbox(a[1..], pid), Inbox(b, pid));
      assert Inbox(a + b, pid) == head + Inbox((a + b)[1..], pid);
    }
  }

  lemma Associate(a: seq<Event>, b: seq<Event>, c: seq<Event>)
    ensures a + b + c == a + (b + c)
  {
  }

  lemma {:induction false} InboxBroadcast(players: seq<Player>, e: Event, pid: Pid)
    requires Distinct(players)
    ensures Inbox(Broadcast(players, e), pid) == if HasPid(players, pid) then [e] else []
  {
    if players != [] {
      var rest := players[1..];
      assert forall i | 0 <= i < |rest| :: rest[i] == players[i + 1];
      assert Broadcast(players, e)[1..] == Broadcast(rest, e);
      InboxBroadcast(rest, e, pid);
      if HasPid(rest, pid) {
        var i :| 0 <= i < |rest| && rest[i].pid == pid;
        assert players[i + 1].pid == pid;
      }
    }
  }

  lemma HearOne(players: seq<Player>, e: Event, p: Player, c: Client)
    requires Distinct(players) && p in players
    ensures OnEvents(c, Inbox(Broadcast(players, e), p.pid)) == OnEvent(c, e)
  {
    hide OnEvent, Broadcast;
    InboxBroadcast(players, e, p.pid);
    assert [e][1..] == [];
    assert OnEvents(OnEvent(c, e), []) == OnEvent(c, e);
  }

  lemma HearTwo(players: seq<Player>, e: Event, f: Event, p: Player, c: Client)
    requires Distinct(players) && p in players
    ensures OnEvents(c, Inbox(Broadcast(players, e) + Broadcast(players, f), p.pid)) == OnEvent(OnEvent(c, e), f)
  {
    hide OnEvent, Broadcast, Inbox;
    InboxConcat(Broadcast(players, e), Broadcast(players, f), p.pid);
    InboxBroadcast(players, e, p.pid);
    InboxBroadcast(players, f, p.pid);
    var both := [e] + [f];
    assert both[1..] == [f] && [f][1..] == [];
    assert OnEvents(c, both) == OnEvents(OnEvent(c, e), [f]);
    assert OnEvents(OnEvent(OnEvent(c, e), f), []) == OnEvent(OnEvent(c, e), f);
  }

  lemma {:induction false} DrainTold(c: Client, queue: seq<Frame>, events: seq<Event>)
    ensures Drain(c, queue + Frames(events)) == OnEvents(Drain(c, queue), events)
    decreases |queue|, |events|
  {
    hide HandleMessage, OnEvent;
    if queue != [] {
      assert (queue + Frames(events))[1..] == queue[1..] + Frames(events);
      DrainTold(HandleMessage(c, queue[0]), queue[1..], events);
    } else if events != [] {
      assert queue + Frames(events) == Frames(events) && Frames(events)[1..] == [] + Frames(events[1..]);
      TellOne(c, events[0]);
      DrainTold(OnEvent(c, events[0]), [], events[1..]);
    }
  }

  lemma TellOne(c: Client, e: Event)
    ensures HandleMessage(c, Told(e)) == OnEvent(c, e)
  {
  }

  // ---- One call keeps the agreement of everyone who stays ----

  lemma {:induction false} NamesWithout(players: seq<Player>, pid: Pid, name: string)
    requires Distinct(players)
    requires forall i | 0 <= i < |players| :: players[i].pid == pid <==> players[i].name == name
    ensures Names(Without(players, pid)) == Without1(Names(players), name)
  {
    if players != [] {
      var rest := players[1..];
      assert forall i | 0 <= i < |rest| :: rest[i] == players[i + 1];
      NamesWithout(rest, pid, name);
      assert Names(players)[1..] == Names(rest);
      if players[0].pid != pid {
        assert Names([players[0]] + Without(rest, pid)) == [players[0].name] + Names(Without(rest, pid));
      }
    }
  }

  /** The client after the events one call sends it. */
  function Heard(c: Client, out: Out, pid: Pid): Client {
    OnEvents(c, Inbox(out.sent, pid))
  }

  lemma JoinMatches(s: State, pid: Pid, name: string, p: Player, c: Client, misled: bool)
    requires Inv(s) && p in s.players && Matches(c, s, p.name, misled)
    ensures Matches(Heard(c, HandleJoin(s, pid, name), p.pid), HandleJoin(s, pid, name).state, p.name, misled)
  {
    hide Inbox, OnEvents, Broadcast, Customs, Play, GameMatches, CardAt;
    NothingHeard(c, p.pid);
    var out := HandleJoin(s, pid, name);
    if out.reply.Joined? {
      HearOne(s.players, PlayerJoined(name), p, c);
      assert Names(out.state.players) == Names(s.players) + [name];
      SameGame(c, s, Heard(c, out, p.pid), out.state);
    }
  }

  /** Calls that touch only players and host leave the game as it was, on both sides. */
  lemma SameGame(c: Client, s: State, d: Client, t: State)
    requires c.room.Some? && d.room.Some? && d.room.value.game == c.room.value.game && d.isFouled == c.isFouled
    requires d.name == c.name && d.phase == c.phase && t.status == s.status && t.cards == s.cards && t.idx == s.idx
    requires t.settings == s.settings && t.taken == s.taken && t.scores == s.scores && t.foul == s.foul
    requires c.room.value.game.Some? ==> GameMatches(c.room.value.game.value, c, s)
    ensures d.room.value.game.Some? ==> GameMatches(d.room.value.game.value, d, t)
  {
  }

  /** Somebody else's leave keeps a player, and keeps the host role where it is if it is theirs. */
  lemma StayerFacts(s: State, pid: Pid, p: Player)
    requires Inv(s) && p in s.players && p.pid != pid && HasPid(s.players, pid)
    ensures var name, rest := NameOf(s.players, pid).value, Without(s.players, pid);
            var host := NextHost(s.host, name, rest);
            p in rest && Distinct(rest) && Names(rest) == Without1(Names(s.players), name) &&
            (s.host == Some(p.name) ==> host == s.host) &&
            HandleLeave(s, pid).state == s.(players := rest, host := host)
  {
    hide Broadcast, Customs, Play, Without;
    WithoutSub(s.players, pid);
    NamesWithout(s.players, pid, NameOf(s.players, pid).value);
  }

  lemma LeaveMatches(s: State, pid: Pid, p: Player, c: Client, misled: bool)
    requires Inv(s) && p in s.players && p.pid != pid && Matches(c, s, p.name, misled)
    ensures Matches(Heard(c, HandleLeave(s, pid), p.pid), HandleLeave(s, pid).state, p.name, misled)
  {
    hide Inbox, OnEvents, Broadcast, Inv, GameMatches, CardAt, Without, NextHost, Without1, Distinct, NameOf;
    NothingHeard(c, p.pid);
    var out := HandleLeave(s, pid);
    if HasPid(s.players, pid) {
      var name := NameOf(s.players, pid).value;
      var remaining := Without(s.players, pid);
      var host := NextHost(s.host, name, remaining);
      StayerFacts(s, pid, p);
      HearTwo(remaining, PlayerLeft(name), HostChanged(host), p, c);
      HearOne(remaining, PlayerLeft(name), p, c);
      assert Broadcast(remaining, PlayerLeft(name)) + [] == Broadcast(remaining, PlayerLeft(name));
      SameGame(c, s, Heard(c, out, p.pid), out.state);
    }
  }

  lemma StartMatches(s: State, settings: Settings, cards: Deck, p: Player, c: Client, misled: bool)
    requires Inv(s) && p in s.players && Matches(c, s, p.name, misled)
    ensures Matches(Heard(c, HandleStart(s, settings, cards), p.pid), HandleStart(s, settings, cards).state, p.name,
                    misled)
    ensures HandleStart(s, settings, cards).reply == Done ==> HasGame(Heard(c, HandleStart(s, settings, cards), p.pid))
  {
    hide Inbox, OnEvents, Broadcast, Customs, Members, CardAt;
    NothingHeard(c, p.pid);
    var out := HandleStart(s, settings, cards);
    if out.reply == Done {
      DistinctPlayers(s);
      var e, f := GameStarted(cards, settings, Names(s.players)), CardReading(CardAt(cards, 0), 0, |cards|);
      HearTwo(s.players, e, f, p, c);
      assert Heard(c, out, p.pid) == OnEvent(OnEvent(c, e), f);
    }
  }

  lemma DistinctPlayers(s: State)
    requires Inv(s)
    ensures Distinct(s.players)
  {
  }

  /** game_over carries the scores the room ends with. */
  lemma EndMatches(s: State, name: string, c: Client, misled: bool)
    requires s.status != Waiting && Matches(c, s, name, misled)
    ensures Matches(OnEvent(c, GameEnded(s.scores)), s.(status := Finished), name, misled)
  {
  }

  lemma FinishMatches(s: State, p: Player, c: Client, misled: bool)
    requires Distinct(s.players) && p in s.players && s.status != Waiting && Matches(c, s, p.name, misled)
    ensures Matches(Heard(c, Finish(s), p.pid), Finish(s).state, p.name, misled)
  {
    hide Inbox, OnEvents, Broadcast, Matches, OnEvent, Distinct;
    HearOne(s.players, GameEnded(s.scores), p, c);
    EndMatches(s, p.name, c, misled);
  }

  lemma NextMatches(s: State, p: Player, c: Client, misled: bool)
    requires Inv(s) && p in s.players && Matches(c, s, p.name, misled)
    ensures Matches(Heard(c, HandleNext(s), p.pid), HandleNext(s).state, p.name, misled)
  {
    hide Inbox, OnEvents, Broadcast, Customs, Members, CardAt, Finish, Distinct, WithinCount;
    NothingHeard(c, p.pid);
    if s.resolved {
      DistinctPlayers(s);
      var next := FindNext(s);
      if next.None? {
        FinishMatches(s, p, c, misled);
      } else {
        HearOne(s.players, CardReading(CardAt(s.cards, next.value), next.value, |s.cards|), p, c);
      }
    }
  }

  lemma AttemptMatches(s: State, id: int, name: string, p: Player, c: Client, misled: bool)
    requires Inv(s) && p in s.players && Matches(c, s, p.name, misled)
    ensures Matches(Heard(c, HandleAttempt(s, id, name), p.pid), HandleAttempt(s, id, name).state, p.name, misled)
  {
    hide Inbox, OnEvents, Broadcast, Customs, Members, CardAt, CurrentCardId, Distinct, Inv;
    NothingHeard(c, p.pid);
    var out := HandleAttempt(s, id, name);
    if out.reply.Fouled? {
      DistinctPlayers(s);
      HearOne(s.players, Foul(name, out.state.scores, out.state.resolved), p, c);
    }
  }

  lemma TakenMatches(s: State, t: State, id: int, winner: string, name: string, c: Client, misled: bool)
    requires Matches(c, s, name, misled) && t == s.(taken := s.taken + {id}, scores := t.scores, resolved := true)
    ensures Matches(OnEvent(c, CardTaken(id, winner, t.scores)), t, name, misled)
  {
  }

  lemma TakeMatches(s: State, id: int, name: string, p: Player, c: Client, misled: bool)
    requires Inv(s) && p in s.players && Matches(c, s, p.name, misled)
    ensures Matches(Heard(c, HandleTake(s, id, name), p.pid), HandleTake(s, id, name).state, p.name, misled)
  {
    hide Inbox, OnEvents, Broadcast, Members, EndConditionMet, Distinct, Inv, Matches, OnEvent;
    NothingHeard(c, p.pid);
    var out := HandleTake(s, id, name);
    if !out.reply.Error? {
      DistinctPlayers(s);
      var scores := s.scores[name := Get(s.scores, name) + 1];
      var after := s.(taken := s.taken + {id}, scores := scores, resolved := true);
      TakenMatches(s, after, id, name, p.name, c, misled);
      HearOne(s.players, CardTaken(id, name, scores), p, c);
      if EndConditionMet(after) {
        HearTwo(s.players, CardTaken(id, name, scores), GameEnded(scores), p, c);
        EndMatches(after, p.name, OnEvent(c, CardTaken(id, name, scores)), misled);
      }
    }
  }

  lemma TimeUpMatches(s: State, p: Player, c: Client, misled: bool)
    requires Inv(s) && p in s.players && Matches(c, s, p.name, misled)
    ensures Matches(Heard(c, HandleTimeUp(s), p.pid), HandleTimeUp(s).state, p.name, misled)
  {
    hide Inbox, Broadcast, Members, Distinct, Inv, Matches, OnEvent;
    NothingHeard(c, p.pid);
    if s.status == Playing {
      DistinctPlayers(s);
      FinishMatches(s, p, c, misled);
    }
  }

  /** Speaking and custom cards touch none of the fields in question. */
  lemma RestMatches(s: State, call: Call, p: Player, c: Client, misled: bool)
    requires Inv(s) && p in s.players && Matches(c, s, p.name, misled)
    requires call.SpeakCard? || call.AddCustom? || call.RemoveCustom?
    ensures Matches(Heard(c, Handle(s, call), p.pid), Handle(s, call).state, p.name, misled)
  {
    hide Inbox, OnEvents, Members, Distinct, Inv, GameMatches, CardAt;
    var out := Handle(s, call);
    DistinctPlayers(s);
    if out.sent != [] {
      var e := out.sent[0].event;
      assert out.sent == Broadcast(s.players, e);
      HearOne(s.players, e, p, c);
    }
    NothingHeard(c, p.pid);
    if c.room.Some? {
      SameGame(c, s, c, out.state);
    }
  }

  lemma NothingHeard(c: Client, pid: Pid)
    ensures OnEvents(c, Inbox([], pid)) == c
  {
  }

  lemma StaysMeansOther(s: State, pid: Pid, p: Player)
    requires p in s.players && p in HandleLeave(s, pid).state.players && Distinct(s.players)
    ensures p.pid != pid
  {
    WithoutSub(s.players, pid);
  }

  lemma CallMatches(s: State, call: Call, p: Player, c: Client, misled: bool)
    requires Inv(s) && p in s.players && p in Handle(s, call).state.players && Matches(c, s, p.name, misled)
    ensures Matches(Heard(c, Handle(s, call), p.pid), Handle(s, call).state, p.name, misled)
  {
    hide Matches, Inv, HandleJoin, HandleLeave, HandleStart, HandleNext, HandleAttempt, HandleTake, HandleTimeUp;
    match call
    case Join(pid, name) => JoinMatches(s, pid, name, p, c, misled);
    case Leave(pid) =>
      DistinctPlayers(s);
      StaysMeansOther(s, pid, p);
      LeaveMatches(s, pid, p, c, misled);
    case StartGame(settings, cards) => StartMatches(s, settings, cards, p, c, misled);
    case NextCard => NextMatches(s, p, c, misled);
    case AttemptTake(id, name) => AttemptMatches(s, id, name, p, c, misled);
    case TakeCard(id, name) => TakeMatches(s, id, name, p, c, misled);
    case TimeUp => TimeUpMatches(s, p, c, misled);
    case _ => RestMatches(s, call, p, c, misled);
  }

  // ---- Who has a game ----

  predicate NoStart(sent: seq<Message>) {
    forall i | 0 <= i < |sent| :: !sent[i].event.GameStarted?
  }

  lemma {:induction false} HasGameKept(c: Client, sent: seq<Message>, pid: Pid)
    requires NoStart(sent)
    ensures HasGame(OnEvents(c, Inbox(sent, pid))) <==> HasGame(c)
    decreases |sent|
  {
    hide OnEvent;
    if sent != [] {
      var e, rest := sent[0].event, Inbox(sent[1..], pid);
      assert forall i | 0 <= i < |sent[1..]| :: sent[1..][i] == sent[i + 1];
      if sent[0].to == pid {
        assert ([e] + rest)[1..] == rest;
        HasGameOne(c, e);
        HasGameKept(OnEvent(c, e), sent[1..], pid);
      } else {
        assert [] + rest == rest;
        HasGameKept(c, sent[1..], pid);
      }
    }
  }

  lemma HasGameOne(c: Client, e: Event)
    requires !e.GameStarted?
    ensures HasGame(OnEvent(c, e)) <==> HasGame(c)
  {
  }

  lemma OnlyStartStarts(s: State, call: Call)
    requires !(call.StartGame? && Handle(s, call).reply == Done)
    ensures NoStart(Handle(s, call).sent)
  {
  }

  // ---- Every step keeps the agreement ----

  ghost predicate AgreesOn(y: Sys, p: Player) {
    p.pid in y.clients && p.pid in y.queues &&
    Matches(Drain(y.clients[p.pid], y.queues[p.pid]), y.room, p.name, p.pid in y.misled) &&
    (HasGame(Drain(y.clients[p.pid], y.queues[p.pid])) <==> p.pid in y.started)
  }

  ghost predicate Agree(y: Sys) {
    Inv(y.room) && forall p | p in y.room.players :: AgreesOn(y, p)
  }

  lemma NobodyNew(s: State, call: Call)
    requires !call.Join?
    ensures forall p | p in Handle(s, call).state.players :: p in s.players
  {
    if call.Leave? {
      WithoutSub(s.players, call.pid);
    }
  }

  /** One player's view after a call on the server. */
  lemma ServerAgreesOn(y: Sys, call: Call, p: Player)
    requires Agree(y) && !call.Join? && p in y.room.players && p in Handle(y.room, call).state.players
    ensures AgreesOn(Step(y, OnServer(call)), p)
  {
    hide Matches, HasGame, Handle, Inv, Drain, OnEvents, Inbox;
    var out := Handle(y.room, call);
    var c, q := y.clients[p.pid], y.queues[p.pid];
    assert AgreesOn(y, p);
    DrainTold(c, q, Inbox(out.sent, p.pid));
    CallMatches(y.room, call, p, Drain(c, q), p.pid in y.misled);
    if call.StartGame? && out.reply == Done {
      StartGives(y.room, call, p, Drain(c, q), p.pid in y.misled);
    } else {
      OnlyStartStarts(y.room, call);
      HasGameKept(Drain(c, q), out.sent, p.pid);
    }
  }

  lemma StartGives(s: State, call: Call, p: Player, c: Client, misled: bool)
    requires Inv(s) && p in s.players && Matches(c, s, p.name, misled)
    requires call.StartGame? && Handle(s, call).reply == Done
    ensures HasGame(Heard(c, Handle(s, call), p.pid))
  {
    hide Matches, HasGame, HandleStart, Inv, Inbox, OnEvents;
    StartMatches(s, call.settings, call.cards, p, c, misled);
  }

  lemma ServerAgree(y: Sys, call: Call)
    requires Agree(y)
    ensures Agree(Step(y, OnServer(call)))
  {
    hide Handle, Inv, AgreesOn;
    if !call.Join? {
      InvStep(y.room, call);
      NobodyNew(y.room, call);
      forall p | p in Handle(y.room, call).state.players
        ensures AgreesOn(Step(y, OnServer(call)), p)
      {
        ServerAgreesOn(y, call, p);
      }
    }
  }

  /** Somebody already in the room hears of a newcomer. */
  lemma EnterOthers(y: Sys, a: Action, p: Player)
    requires Agree(y) && a.Enter? && Handle(y.room, Join(a.pid, a.name)).reply.Joined? && p in y.room.players
    requires p.pid != a.pid && p in Step(y, a).room.players
    ensures AgreesOn(Step(y, a), p)
  {
    hide Matches, HasGame, Handle, Inv, Drain, OnEvents, Inbox;
    var out := Handle(y.room, Join(a.pid, a.name));
    var c, q := y.clients[p.pid], y.queues[p.pid];
    assert AgreesOn(y, p);
    DrainTold(c, q, Inbox(out.sent, p.pid));
    CallMatches(y.room, Join(a.pid, a.name), p, Drain(c, q), p.pid in y.misled);
    OnlyStartStarts(y.room, Join(a.pid, a.name));
    HasGameKept(Drain(c, q), out.sent, p.pid);
  }

  /** The newcomer starts from the list of names in the reply and is told it is not the host,
      which is wrong exactly if it finds nobody there. */
  lemma EnterSelf(y: Sys, a: Action)
    requires Agree(y) && a.Enter? && Handle(y.room, Join(a.pid, a.name)).reply.Joined? && CleanEnter(y, a)
    ensures AgreesOn(Step(y, a), Player(a.pid, a.name))
    ensures a.pid in Step(y, a).misled <==> y.room.players == []
  {
    hide Handle, Inv, Inbox, Names;
    JoinFacts(y.room, a.pid, a.name);
    var z := Step(y, a);
    var names := Names(z.room.players);
    assert Frames([]) == [];
    assert z.queues[a.pid] == [RoomJoined(names)];
    assert z.queues[a.pid][1..] == [];
    assert Drain(z.clients[a.pid], z.queues[a.pid]) == HandleMessage(z.clients[a.pid], RoomJoined(names));
  }

  lemma JoinFacts(s: State, pid: Pid, name: string)
    requires Inv(s) && Handle(s, Join(pid, name)).reply.Joined?
    ensures var out := Handle(s, Join(pid, name));
            out.reply.names == Names(out.state.players) && Inbox(out.sent, pid) == [] &&
            (out.state.host == Some(name) <==> s.players == []) &&
            out.state.players == s.players + [Player(pid, name)] && !HasPid(s.players, pid)
  {
    InboxBroadcast(s.players, PlayerJoined(name), pid);
  }

  lemma EnterAgree(y: Sys, a: Action)
    requires Agree(y) && a.Enter? && CleanEnter(y, a)
    ensures Agree(Step(y, a))
  {
    hide Handle, Inv, AgreesOn;
    var join := Join(a.pid, a.name);
    if Handle(y.room, join).reply.Joined? {
      InvStep(y.room, join);
      JoinFacts(y.room, a.pid, a.name);
      forall p | p in Step(y, a).room.players
        ensures AgreesOn(Step(y, a), p)
      {
        if p == Player(a.pid, a.name) {
          EnterSelf(y, a);
        } else {
          assert p in y.room.players;
          EnterOthers(y, a, p);
        }
      }
    }
  }

  lemma DeliverAgree(y: Sys, pid: Pid)
    requires Agree(y)
    ensures Agree(Step(y, Deliver(pid)))
  {
    hide Inv, Matches, HasGame, HandleMessage;
    var z := Step(y, Deliver(pid));
    forall p | p in y.room.players
      ensures AgreesOn(z, p)
    {
      assert AgreesOn(y, p);
    }
  }

  lemma StepAgree(y: Sys, a: Action)
    requires Agree(y) && CleanEnter(y, a)
    ensures Agree(Step(y, a))
  {
    hide Agree, Step, CleanEnter;
    match a
    case OnServer(call) => ServerAgree(y, call);
    case Enter(_, _, _) => EnterAgree(y, a);
    case Deliver(pid) => DeliverAgree(y, pid);
  }

  lemma {:induction false} AgreeRun(y: Sys, actions: seq<Action>)
    requires Agree(y) && CleanRun(y, actions)
    ensures Agree(After(y, actions))
    decreases |actions|
  {
    hide Agree, Step, CleanEnter;
    if actions != [] {
      StepAgree(y, actions[0]);
      AgreeRun(Step(y, actions[0]), actions[1..]);
    }
  }

  lemma OpenedAgrees(maxPlayers: nat, pid: Pid, name: string, before: Client)
    requires maxPlayers >= 1
    ensures Agree(Opened(maxPlayers, pid, name, before))
  {
    InitInv(maxPlayers);
    InvStep(Init(maxPlayers), Join(pid, name));
    var y := Opened(maxPlayers, pid, name, before);
    assert y.room.players == [Player(pid, name)];
    assert y.queues[pid][1..] == [];
    assert Drain(y.clients[pid], y.queues[pid]) == HandleMessage(y.clients[pid], RoomCreated(name));
  }

  /** In every interleaving of calls and deliveries, a client in the room whose queue is drained
      agrees with the server: on the players in order and, exactly if it was in the room at
      game_started, on deck, settings, current card, index, taken cards, scores, own foul and
      phase. It knows whether it is the host exactly if it did not enter an empty room by
      room_joined, as the first to come back after the last leave does. */
  lemma DrainedClientsAgree(maxPlayers: nat, pid: Pid, name: string, before: Client, actions: seq<Action>)
    requires maxPlayers >= 1 && CleanRun(Opened(maxPlayers, pid, name, before), actions)
    ensures var y := After(Opened(maxPlayers, pid, name, before), actions);
            forall p | p in y.room.players :: p.pid in y.clients && p.pid in y.queues &&
              (y.queues[p.pid] == [] ==>
                 var c := y.clients[p.pid];
                 Same(c, y.room, p.name) && (HasGame(c) <==> p.pid in y.started) &&
                 (KnowsHost(c, y.room, p.name) <==> p.pid !in y.misled))
  {
    hide After, CleanRun, Opened, Inv, Same, HasGame;
    OpenedAgrees(maxPlayers, pid, name, before);
    AgreeRun(Opened(maxPlayers, pid, name, before), actions);
    var y := After(Opened(maxPlayers, pid, name, before), actions);
    forall p | p in y.room.players
      ensures AgreesOn(y, p)
    {
    }
  }

  /** The last player leaves, somebody with the room's id joins and handles everything: the
      server has a host who is told otherwise. */
  lemma FirstBackIsMisled(y: Sys, last: Player, p: Player, before: Client)
    requires Agree(y) && y.room.players == [last] && y.room.maxPlayers >= 1
    requires p.pid in y.queues ==> y.queues[p.pid] == []
    ensures var z := After(y, [OnServer(Leave(last.pid)), Enter(p.pid, p.name, before), Deliver(p.pid)]);
            z.room.players == [p] && z.room.host == Some(p.name) && p.pid in z.clients &&
            z.clients[p.pid].room.Some? && !z.clients[p.pid].room.value.isHost
  {
    hide Inv, AgreesOn;
    var leave, enter, deliver := OnServer(Leave(last.pid)), Enter(p.pid, p.name, before), Deliver(p.pid);
    var y1 := Step(y, leave);
    LastOut(y.room, last);
    assert y1.room == Init(y.room.maxPlayers);
    assert y1.queues == y.queues by {
      forall pid | pid in y.queues
        ensures y1.queues[pid] == y.queues[pid]
      {
        assert y.queues[pid] + Frames([]) == y.queues[pid];
      }
    }
    ServerAgree(y, Leave(last.pid));
    var y2 := Step(y1, enter);
    EnterInit(y.room.maxPlayers, p);
    EnterAgree(y1, enter);
    var y3 := Step(y2, deliver);
    assert y2.queues[p.pid][0] == RoomJoined([p.name]);
    AfterThree(y, leave, enter, deliver);
  }

  lemma LastOut(s: State, last: Player)
    requires s.players == [last]
    ensures Ends(s, Leave(last.pid)) && Handle(s, Leave(last.pid)) == Out(NoReply, Init(s.maxPlayers), [])
  {
    assert s.players[0].pid == last.pid;
    assert s.players[1..] == [] && Without(s.players, last.pid) == [];
  }

  lemma EnterInit(maxPlayers: nat, p: Player)
    requires maxPlayers >= 1
    ensures var out := Handle(Init(maxPlayers), Join(p.pid, p.name));
            out.reply == Joined([p.name]) && out.sent == [] && out.state.players == [p] &&
            out.state.host == Some(p.name)
  {
    assert Names([p]) == [p.name];
  }

  lemma AfterThree(y: Sys, a: Action, b: Action, c: Action)
    ensures After(y, [a, b, c]) == Step(Step(Step(y, a), b), c)
  {
    hide Step;
    assert [a, b, c][1..] == [b, c] && [b, c][1..] == [c] && [c][1..] == [];
    assert After(y, [a, b, c]) == After(Step(y, a), [b, c]);
    assert After(Step(y, a), [b, c]) == After(Step(Step(y, a), b), [c]);
    assert After(Step(Step(y, a), b), [c]) == After(Step(Step(Step(y, a), b), c), []);
  }
}
