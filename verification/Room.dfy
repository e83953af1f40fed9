/** services/realtime/lib/realtime/room.ex: one room as a serialized state machine.
    Each handler gives a reply, a new state and the messages it sends, in order. */
module Room {
  import opened MapSum
  import opened Options

  type Pid = int

  datatype Player = Player(pid: Pid, name: string)
  datatype Status = Waiting | Playing | Finished

  /** A deck entry may be missing (nil), and a card may lack its reading. */
  datatype Card = Card(id: int, fuda: string, yomi: Option<string>, image: string, uploadedBy: Option<string>)
  type Deck = seq<Option<Card>>

  /** end_value is None when it is not an integer. */
  datatype Settings = Settings(yomiteMode: string, yomiteName: string, endMode: string, endValue: Option<int>)

  datatype State = State(
    players: seq<Player>, maxPlayers: nat, host: Option<string>, status: Status, settings: Option<Settings>,
    cards: Deck, idx: int, taken: set<int>, scores: map<string, int>, foul: set<string>, resolved: bool,
    custom: seq<Card>, nextId: int)

  datatype Call =
    | Join(pid: Pid, name: string)
    | Leave(pid: Pid) // a leave cast or the monitor's DOWN message
    | AddCustom(name: string, fuda: string, yomi: string, image: string)
    | RemoveCustom(name: string, cardId: int)
    | StartGame(settings: Settings, cards: Deck)
    | SpeakCard
    | NextCard
    | AttemptTake(cardId: int, name: string)
    | TakeCard(cardId: int, name: string)
    | TimeUp

  datatype Reason =
    | RoomIsFull | AlreadyInRoom | NameInUse | GameHasStarted | TooManyCustomCards | CardNotFound
    | NotAllowed | AlreadyStarted | TooFewPlayers | TooFewCards | NotInProgress | NoCurrentCard | StillOpen
    | AlreadyFouled | AlreadyTaken

  datatype Reply =
    | Error(reason: Reason) | Joined(names: seq<string>) | Done | CardAdded(card: Card) | Valid
    | Fouled(scores: map<string, int>) | Took(scores: map<string, int>) | GameOver(scores: map<string, int>) | NoReply

  datatype Event =
    | PlayerJoined(name: string)
    | PlayerLeft(name: string)
    | HostChanged(host: Option<string>)
    | CustomCardAdded(added: Card)
    | CustomCardRemoved(id: int)
    | GameStarted(cards: Deck, settings: Settings, players: seq<string>)
    | CardReading(card: Option<Card>, index: int, total: nat)
    | CardSpeak(id: int, yomi: string)
    | Foul(player: string, scores: map<string, int>, allFouled: bool)
    | CardTaken(id: int, winner: string, scores: map<string, int>)
    | GameEnded(scores: map<string, int>)

  datatype Message = Message(to: Pid, event: Event)
  datatype Out = Out(reply: Reply, state: State, sent: seq<Message>)

  const CUSTOM_CARD_MAX := 10
  const CUSTOM_ID_BASE := 1_000_000

  // ---- Helpers of the handlers ----

  function Init(maxPlayers: nat): State {
    State([], maxPlayers, None, Waiting, None, [], -1, {}, map[], {}, false, [], CUSTOM_ID_BASE)
  }

  function Names(players: seq<Player>): (names: seq<string>)
    ensures |names| == |players| && forall i | 0 <= i < |players| :: names[i] == players[i].name
  {
    seq(|players|, i requires 0 <= i < |players| => players[i].name)
  }

  function Broadcast(players: seq<Player>, event: Event): (sent: seq<Message>)
    ensures |sent| == |players| && forall i | 0 <= i < |players| :: sent[i] == Message(players[i].pid, event)
  {
    seq(|players|, i requires 0 <= i < |players| => Message(players[i].pid, event))
  }

  predicate HasPid(players: seq<Player>, pid: Pid) {
    exists i | 0 <= i < |players| :: players[i].pid == pid
  }

  predicate HasName(players: seq<Player>, name: string) {
    exists i | 0 <= i < |players| :: players[i].name == name
  }

  /** Enum.find by process. */
  function NameOf(players: seq<Player>, pid: Pid): (name: Option<string>)
    ensures name.Some? <==> HasPid(players, pid)
    ensures name.Some? ==> exists i | 0 <= i < |players| :: players[i] == Player(pid, name.value)
  {
    if players == [] then None
    else if players[0].pid == pid then Some(players[0].name)
    else
      var rest := NameOf(players[1..], pid);
      assert forall i | 1 <= i < |players| :: players[i] == players[1..][i - 1];
      rest
  }

  /** Enum.reject by process. */
  function Without(players: seq<Player>, pid: Pid): (rest: seq<Player>) {
    if players == [] then []
    else if players[0].pid == pid then Without(players[1..], pid)
    else [players[0]] + Without(players[1..], pid)
  }

  function NextHost(host: Option<string>, leaving: string, remaining: seq<Player>): Option<string> {
    if host != Some(leaving) then host
    else if remaining == [] then None
    else Some(remaining[0].name)
  }

  function CardAt(cards: Deck, idx: int): Option<Card> {
    if 0 <= idx < |cards| then cards[idx] else None
  }

  function CurrentCardId(s: State): Option<int> {
    var card := CardAt(s.cards, s.idx);
    if card.None? then None else Some(card.value.id)
  }

  predicate IsTaken(card: Option<Card>, taken: set<int>) {
    card.Some? && card.value.id in taken
  }

  /** The first position from `from` on whose card is not taken. */
  function FindFrom(cards: Deck, taken: set<int>, from: nat): (idx: Option<nat>)
    ensures idx.Some? ==> from <= idx.value < |cards| && !IsTaken(cards[idx.value], taken)
    ensures forall i | from <= i < (if idx.Some? then idx.value else |cards|) :: IsTaken(cards[i], taken)
    decreases |cards| - from
  {
    if from >= |cards| then None
    else if !IsTaken(cards[from], taken) then Some(from)
    else FindFrom(cards, taken, from + 1)
  }

  function FindNext(s: State): Option<nat> {
    FindFrom(s.cards, s.taken, if s.idx < 0 then 0 else s.idx + 1)
  }

  predicate EndConditionMet(s: State) {
    match s.settings
    case Some(Settings(_, _, mode, Some(n))) => mode == "count" && |s.taken| >= n
    case _ => false
  }

  function Finish(s: State): Out {
    Out(GameOver(s.scores), s.(status := Finished), Broadcast(s.players, GameEnded(s.scores)))
  }

  function Reading(players: seq<Player>, cards: Deck, idx: int): seq<Message> {
    Broadcast(players, CardReading(CardAt(cards, idx), idx, |cards|))
  }

  function Refuse(s: State, reason: Reason): Out {
    Out(Error(reason), s, [])
  }

  // ---- The handlers ----

  function HandleJoin(s: State, pid: Pid, name: string): Out {
    if |s.players| >= s.maxPlayers then Refuse(s, RoomIsFull)
    else if HasPid(s.players, pid) then Refuse(s, AlreadyInRoom)
    else if HasName(s.players, name) then Refuse(s, NameInUse)
    else
      var players := s.players + [Player(pid, name)];
      var host := if s.host.None? then Some(name) else s.host;
      Out(Joined(Names(players)), s.(players := players, host := host), Broadcast(s.players, PlayerJoined(name)))
  }

  /** The last leave stops the process normally. Its child specification says permanent, so the
      supervisor starts it again with its first arguments: a new room answers to the same id. */
  function HandleLeave(s: State, pid: Pid): Out {
    match NameOf(s.players, pid)
    case None => Out(NoReply, s, [])
    case Some(name) =>
      var remaining := Without(s.players, pid);
      var host := NextHost(s.host, name, remaining);
      Out(NoReply, if remaining == [] then Init(s.maxPlayers) else s.(players := remaining, host := host),
          Broadcast(remaining, PlayerLeft(name)) +
          if host != s.host then Broadcast(remaining, HostChanged(host)) else [])
  }

  function HandleAddCustom(s: State, name: string, fuda: string, yomi: string, image: string): Out {
    if s.status != Waiting then Refuse(s, GameHasStarted)
    else if |s.custom| >= CUSTOM_CARD_MAX then Refuse(s, TooManyCustomCards)
    else
      var card := Card(s.nextId, fuda, Some(yomi), image, Some(name));
      Out(CardAdded(card), s.(custom := s.custom + [card], nextId := s.nextId + 1),
          Broadcast(s.players, CustomCardAdded(card)))
  }

  function FindCard(cards: seq<Card>, id: int): (card: Option<Card>)
    ensures card.None? ==> forall i | 0 <= i < |cards| :: cards[i].id != id
    ensures card.Some? ==> card.value in cards && card.value.id == id
  {
    if cards == [] then None
    else if cards[0].id == id then Some(cards[0])
    else
      var rest := FindCard(cards[1..], id);
      assert forall i | 1 <= i < |cards| :: cards[i] == cards[1..][i - 1];
      rest
  }

  function DropCard(cards: seq<Card>, id: int): seq<Card> {
    if cards == [] then []
    else if cards[0].id == id then DropCard(cards[1..], id)
    else [cards[0]] + DropCard(cards[1..], id)
  }

  function HandleRemoveCustom(s: State, name: string, cardId: int): Out {
    match FindCard(s.custom, cardId)
    case None => Refuse(s, CardNotFound)
    case Some(card) =>
      if s.status != Waiting then Refuse(s, GameHasStarted)
      else if card.uploadedBy != Some(name) && s.host != Some(name) then Refuse(s, NotAllowed)
      else Out(Done, s.(custom := DropCard(s.custom, cardId)), Broadcast(s.players, CustomCardRemoved(cardId)))
  }

  /** Every player starts at 0. */
  function ZeroScores(players: seq<Player>): map<string, int> {
    map p | p in players :: p.name := 0
  }

  function HandleStart(s: State, settings: Settings, cards: Deck): Out {
    if s.status != Waiting then Refuse(s, AlreadyStarted)
    else if |s.players| < 2 then Refuse(s, TooFewPlayers)
    else if |cards| < 2 then Refuse(s, TooFewCards)
    else
      Out(Done,
          s.(status := Playing, settings := Some(settings), cards := cards, idx := 0, taken := {},
             scores := ZeroScores(s.players)),
          Broadcast(s.players, GameStarted(cards, settings, Names(s.players))) + Reading(s.players, cards, 0))
  }

  function HandleSpeak(s: State): Out {
    if s.status != Playing then Refuse(s, NotInProgress)
    else
      match CardAt(s.cards, s.idx)
      case Some(Card(id, _, Some(yomi), _, _)) => Out(Done, s, Broadcast(s.players, CardSpeak(id, yomi)))
      case _ => Refuse(s, NoCurrentCard)
  }

  function HandleNext(s: State): Out {
    if !s.resolved then Refuse(s, StillOpen)
    else
      match FindNext(s)
      case None => Finish(s)
      case Some(idx) =>
        Out(Done, s.(idx := idx, foul := {}, resolved := false), Reading(s.players, s.cards, idx))
  }

  function HandleAttempt(s: State, cardId: int, name: string): Out {
    if s.status != Playing then Refuse(s, NotInProgress)
    else if name in s.foul then Refuse(s, AlreadyFouled)
    else if Some(cardId) != CurrentCardId(s) then
      var scores := s.scores[name := Get(s.scores, name) - 1];
      var foul := s.foul + {name};
      var allFouled := |foul| >= |s.players|;
      Out(Fouled(scores), s.(scores := scores, foul := foul, resolved := allFouled),
          Broadcast(s.players, Foul(name, scores, allFouled)))
    else Out(Valid, s, [])
  }

  function HandleTake(s: State, cardId: int, name: string): Out {
    if s.status != Playing then Refuse(s, NotInProgress)
    else if cardId in s.taken then Refuse(s, AlreadyTaken)
    else
      var scores := s.scores[name := Get(s.scores, name) + 1];
      var after := s.(taken := s.taken + {cardId}, scores := scores, resolved := true);
      var told := Broadcast(s.players, CardTaken(cardId, name, scores));
      if EndConditionMet(after) then
        var end := Finish(after);
        Out(end.reply, end.state, told + end.sent)
      else Out(Took(scores), after, told)
  }

  function HandleTimeUp(s: State): Out {
    if s.status == Playing then Finish(s).(reply := NoReply) else Out(NoReply, s, [])
  }

  function Handle(s: State, c: Call): Out {
    match c
    case Join(pid, name) => HandleJoin(s, pid, name)
    case Leave(pid) => HandleLeave(s, pid)
    case AddCustom(name, fuda, yomi, image) => HandleAddCustom(s, name, fuda, yomi, image)
    case RemoveCustom(name, cardId) => HandleRemoveCustom(s, name, cardId)
    case StartGame(settings, cards) => HandleStart(s, settings, cards)
    case SpeakCard => HandleSpeak(s)
    case NextCard => HandleNext(s)
    case AttemptTake(cardId, name) => HandleAttempt(s, cardId, name)
    case TakeCard(cardId, name) => HandleTake(s, cardId, name)
    case TimeUp => HandleTimeUp(s)
  }

  /** The last player leaves: the process stops, and its supervisor starts a new one under the
      same room id with the same limit. */
  predicate Ends(s: State, c: Call) {
    c.Leave? && HasPid(s.players, c.pid) && Without(s.players, c.pid) == []
  }

  /** The state after a list of calls. */
  function After(s: State, calls: seq<Call>): State
    decreases |calls|
  {
    if calls == [] then s else After(Handle(s, calls[0]).state, calls[1..])
  }
}
