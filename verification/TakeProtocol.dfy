/** Taking a card: attempt_take on the room, /judge on the judge, take_card on the room, as
    three separate steps of one socket (socket_handler.ex), with anything in between, over all
    the lives of a room id. */
module TakeProtocol {
  import opened Options
  import opened UInt32
  import opened Room
  import opened RoomRuns
  import Judge

  /** A socket is its process, under which it is in the room. */
  type Sid = Pid

  /** Where a socket is inside its take_card message. */
  datatype Pc = Idle | WantJudge(id: int, name: string) | WantTake(id: int, name: string)

  /** One room id and the room now behind it, the judge's entries for all rooms, the sockets,
      the ledger of the room's present life and of its earlier lives. */
  datatype Sys = Sys(
    roomId: string, room: State, winners: map<Judge.Key, string>, pcs: map<Sid, Pc>, log: Ledger, past: Ledger)

  datatype Action =
    | Other(call: Call) // any other message to the room, from anybody
    | Attempt(sid: Sid, id: int, name: string)
    | Ask(sid: Sid, answered: bool) // the judge decides; its answer may get lost
    | JudgeFails(sid: Sid) // refused or not reached: no entry is made
    | Take(sid: Sid)
    | Die(sid: Sid) // the socket process ends between two steps
    | OtherJudge(key: Judge.Key, player: string) // any other judge or batch item
    | Reset(roomId: string)

  function PcOf(y: Sys, sid: Sid): Pc {
    if sid in y.pcs then y.pcs[sid] else Idle
  }

  /** A card id the judge can parse; others are answered with an error. */
  predicate IsU32(id: int) {
    0 <= id < MOD
  }

  function OnRoom(y: Sys, c: Call): Sys {
    y.(room := Handle(y.room, c).state, log := Booked(y.log, y.room, c),
       past := if Ends(y.room, c) then y.past + y.log else y.past)
  }

  /** Everything credited or called under this room id. */
  function Ledgers(y: Sys): Ledger {
    y.past + y.log
  }

  /** The judge takes a request from this room for this player, as far as its text goes. */
  predicate Accepts(y: Sys, id: int, name: string) {
    IsU32(id) && Judge.RoomOk(y.roomId) && Judge.NameOk(name)
  }

  function Goto(y: Sys, sid: Sid, pc: Pc): Sys {
    y.(pcs := y.pcs[sid := pc])
  }

  function AskJudge(y: Sys, sid: Sid, answered: bool, id: int, name: string): Sys {
    if !Accepts(y, id, name) then Goto(y, sid, Idle)
    else
      var key := (y.roomId, id as u32);
      var winners := Judge.FirstWins(y.winners, key, name);
      Goto(y.(winners := winners), sid, if answered && winners[key] == name then WantTake(id, name) else Idle)
  }

  /** A socket works on one message at a time: its own leave comes before or after a take, and
      the room hears of its end only once it has ended. */
  predicate MayReach(y: Sys, c: Call) {
    !c.TakeCard? && !c.AttemptTake? && (c.Leave? ==> PcOf(y, c.pid) == Idle)
  }

  /** One step; a step that is not enabled changes nothing. */
  function Step(y: Sys, a: Action): Sys {
    match a
    case Other(call) => if MayReach(y, call) then OnRoom(y, call) else y
    case Attempt(sid, id, name) =>
      if PcOf(y, sid) != Idle || Player(sid, name) !in y.room.players then y
      else
        var z := OnRoom(y, AttemptTake(id, name));
        if Handle(y.room, AttemptTake(id, name)).reply == Valid then Goto(z, sid, WantJudge(id, name)) else z
    case Ask(sid, answered) =>
      (match PcOf(y, sid)
       case WantJudge(id, name) => AskJudge(y, sid, answered, id, name)
       case _ => y)
    case JudgeFails(sid) => if PcOf(y, sid).WantJudge? then Goto(y, sid, Idle) else y
    case Take(sid) =>
      (match PcOf(y, sid)
       case WantTake(id, name) => Goto(OnRoom(y, TakeCard(id, name)), sid, Idle)
       case _ => y)
    case Die(sid) => Goto(y, sid, Idle)
    case OtherJudge(key, player) => y.(winners := Judge.FirstWins(y.winners, key, player))
    case Reset(roomId) =>
      y.(winners := Judge.AfterReset(Judge.State(y.winners, map[], map[], map[]), roomId).winners)
  }

  function AfterAll(y: Sys, actions: seq<Action>): Sys
    decreases |actions|
  {
    if actions == [] then y else AfterAll(Step(y, actions[0]), actions[1..])
  }

  /** A room just started, any entries already in the judge, no socket in the protocol. */
  ghost predicate Fresh(y: Sys) {
    (exists maxPlayers: nat :: y.room == Init(maxPlayers)) && y.pcs == map[] && y.log == [] && y.past == []
  }

  // ---- First guard: the room ----

  /** The id of a card that has been read, or is being read. */
  predicate WasRead(s: State, id: int) {
    s.status != Waiting && exists i | 0 <= i < |s.cards| && i <= s.idx :: s.cards[i].Some? && s.cards[i].value.id == id
  }

  ghost predicate RoomSafe(y: Sys) {
    Inv(y.room) && Balanced(y.room, y.log) &&
    (forall id | id in y.room.taken :: WasRead(y.room, id)) &&
    forall sid | sid in y.pcs && y.pcs[sid] != Idle ::
      WasRead(y.room, y.pcs[sid].id) && Player(sid, y.pcs[sid].name) in y.room.players
  }

  lemma WasReadStays(s: State, t: State, id: int)
    requires WasRead(s, id) && Onward(s, t)
    ensures WasRead(t, id)
  {
  }

  /** Only take_card adds to the taken cards. */
  lemma TakenBy(s: State, c: Call)
    ensures Handle(s, c).state.taken <= s.taken + if c.TakeCard? then {c.cardId} else {}
  {
  }

  /** Nobody leaves but the one who leaves. */
  lemma MembersStay(s: State, c: Call, p: Player)
    requires p in s.players && (c.Leave? ==> c.pid != p.pid)
    ensures !Ends(s, c) && p in Handle(s, c).state.players
  {
    if c.Leave? {
      WithoutKeeps(s.players, c.pid);
    }
  }

  lemma OnRoomSafe(y: Sys, c: Call)
    requires RoomSafe(y) && (c.TakeCard? ==> WasRead(y.room, c.cardId)) && (c.Leave? ==> PcOf(y, c.pid) == Idle)
    ensures RoomSafe(OnRoom(y, c))
  {
    hide Inv, Balanced, Handle, Booked, WasRead, Onward, Ends;
    InvStep(y.room, c);
    BalancedStep(y.room, c, y.log);
    TakenBy(y.room, c);
    var t := Handle(y.room, c).state;
    forall sid | sid in y.pcs && y.pcs[sid] != Idle
      ensures !Ends(y.room, c) && Player(sid, y.pcs[sid].name) in t.players
    {
      MembersStay(y.room, c, Player(sid, y.pcs[sid].name));
    }
    if Ends(y.room, c) {
      EndsInInit(y.room, c);
    } else {
      OnwardStep(y.room, c);
      forall id | WasRead(y.room, id)
        ensures WasRead(t, id)
      {
        WasReadStays(y.room, t, id);
      }
    }
  }

  /** attempt_take answers :valid only for the card being read. */
  lemma ValidMeansCurrent(s: State, id: int, name: string)
    requires Inv(s) && Handle(s, AttemptTake(id, name)).reply == Valid
    ensures WasRead(s, id) && Handle(s, AttemptTake(id, name)).state == s
  {
  }

  lemma RoomSafeStep(y: Sys, a: Action)
    requires RoomSafe(y)
    ensures RoomSafe(Step(y, a))
  {
    hide Inv, Balanced, Handle, Booked, WasRead, Ends;
    match a
    case Other(call) =>
      if MayReach(y, call) {
        OnRoomSafe(y, call);
      }
    case Attempt(sid, id, name) =>
      OnRoomSafe(y, AttemptTake(id, name));
      if Handle(y.room, AttemptTake(id, name)).reply == Valid {
        ValidMeansCurrent(y.room, id, name);
      }
    case Take(sid) =>
      if PcOf(y, sid).WantTake? {
        OnRoomSafe(y, TakeCard(PcOf(y, sid).id, PcOf(y, sid).name));
      }
    case _ =>
  }

  // ---- Second guard: the judge ----

  predicate Holds(y: Sys, id: int, name: string) {
    IsU32(id) && (y.roomId, id as u32) in y.winners && y.winners[(y.roomId, id as u32)] == name
  }

  /** A socket about to take, and every credit given, is backed by the judge's entry. */
  ghost predicate JudgeSafe(y: Sys) {
    (forall sid | sid in y.pcs && y.pcs[sid].WantTake? :: Holds(y, y.pcs[sid].id, y.pcs[sid].name)) &&
    forall e | e in Ledgers(y) && e.Win? :: Holds(y, e.id, e.name)
  }

  lemma HoldsStays(y: Sys, a: Action, id: int, name: string)
    requires Holds(y, id, name) && a != Reset(y.roomId)
    ensures Holds(Step(y, a), id, name)
  {
  }

  lemma RecordedWins(s: State, c: Call)
    ensures |Recorded(s, c)| <= 1
    ensures forall i | 0 <= i < |Recorded(s, c)| && Recorded(s, c)[i].Win? ::
              c.TakeCard? && Recorded(s, c)[i] == Win(c.name, c.cardId)
  {
  }

  /** What a call adds to the ledgers, ended life or not. */
  lemma LedgersGrow(y: Sys, c: Call)
    ensures forall e :: e in Ledgers(OnRoom(y, c)) <==> e in Ledgers(y) || e in Recorded(y.room, c)
  {
    hide Handle, Recorded;
    if Ends(y.room, c) {
      EndRecordsNothing(y.room, c);
    }
  }

  lemma EndRecordsNothing(s: State, c: Call)
    requires Ends(s, c)
    ensures Recorded(s, c) == []
  {
  }

  lemma JudgeSafeStep(y: Sys, a: Action)
    requires JudgeSafe(y) && a != Reset(y.roomId)
    ensures JudgeSafe(Step(y, a))
  {
    hide Handle, Recorded, Accepts, Booked, Ledgers;
    forall id, name | Holds(y, id, name)
      ensures Holds(Step(y, a), id, name)
    {
      HoldsStays(y, a, id, name);
    }
    match a
    case Other(call) =>
      RecordedWins(y.room, call);
      LedgersGrow(y, call);
    case Attempt(sid, id, name) =>
      RecordedWins(y.room, AttemptTake(id, name));
      LedgersGrow(y, AttemptTake(id, name));
      SameLedgers(OnRoom(y, AttemptTake(id, name)));
    case Take(sid) =>
      if PcOf(y, sid).WantTake? {
        var c := TakeCard(PcOf(y, sid).id, PcOf(y, sid).name);
        RecordedWins(y.room, c);
        LedgersGrow(y, c);
        SameLedgers(OnRoom(y, c));
      }
    case _ => SameLedgers(y);
  }

  lemma SameLedgers(y: Sys)
    ensures forall sid, pc :: Ledgers(Goto(y, sid, pc)) == Ledgers(y)
    ensures forall winners :: Ledgers(y.(winners := winners)) == Ledgers(y)
    ensures forall winners, sid, pc :: Ledgers(Goto(y.(winners := winners), sid, pc)) == Ledgers(y)
  {
  }

  /** A reset of the room's entries keeps this safety exactly if there is nothing to lose: no
      socket about to take, and no credit given. */
  lemma ResetKeepsSafetyExactlyWhen(y: Sys)
    requires JudgeSafe(y) && !Judge.Blank(y.roomId)
    ensures JudgeSafe(Step(y, Reset(y.roomId))) <==>
            (forall sid | sid in y.pcs :: !y.pcs[sid].WantTake?) && forall e | e in Ledgers(y) :: !e.Win?
  {
    hide Ledgers;
    var z := Step(y, Reset(y.roomId));
    assert Ledgers(z) == Ledgers(y) by {
      SameLedgers(y);
    }
    forall id, name
      ensures !Holds(z, id, name)
    {
    }
  }

  // ---- Names ----

  /** Whoever is about to take or has taken has a name the judge accepts. */
  ghost predicate NamesFit(y: Sys) {
    (forall sid | sid in y.pcs && y.pcs[sid].WantTake? :: Judge.NameOk(y.pcs[sid].name)) &&
    forall e | e in Ledgers(y) && e.Win? :: Judge.NameOk(e.name)
  }

  lemma NamesFitStep(y: Sys, a: Action)
    requires NamesFit(y)
    ensures NamesFit(Step(y, a))
  {
    hide Handle, Recorded, Booked, Ledgers, Judge.NameOk;
    match a
    case Other(call) =>
      RecordedWins(y.room, call);
      LedgersGrow(y, call);
    case Attempt(sid, id, name) =>
      RecordedWins(y.room, AttemptTake(id, name));
      LedgersGrow(y, AttemptTake(id, name));
      SameLedgers(OnRoom(y, AttemptTake(id, name)));
    case Take(sid) =>
      if PcOf(y, sid).WantTake? {
        var c := TakeCard(PcOf(y, sid).id, PcOf(y, sid).name);
        RecordedWins(y.room, c);
        LedgersGrow(y, c);
        SameLedgers(OnRoom(y, c));
      }
    case _ => SameLedgers(y);
  }

  lemma {:induction false} NamesFitRun(y: Sys, actions: seq<Action>)
    requires NamesFit(y)
    ensures NamesFit(AfterAll(y, actions))
    decreases |actions|
  {
    hide NamesFit, Step;
    if actions != [] {
      NamesFitStep(y, actions[0]);
      NamesFitRun(Step(y, actions[0]), actions[1..]);
    }
  }

  /** In every interleaving, resets included, nobody whose name takes more than 32 bytes is ever
      credited with a card, though the room admits such names. */
  lemma LongNamesNeverTake(y: Sys, actions: seq<Action>)
    requires Fresh(y)
    ensures forall e | e in Ledgers(AfterAll(y, actions)) && e.Win? :: Judge.ByteLen(e.name) <= 32
  {
    hide AfterAll;
    NamesFitRun(y, actions);
  }

  // ---- Whole runs ----

  predicate NoReset(actions: seq<Action>, roomId: string) {
    forall i | 0 <= i < |actions| :: actions[i] != Reset(roomId)
  }

  lemma {:induction false} RoomSafeRun(y: Sys, actions: seq<Action>)
    requires RoomSafe(y)
    ensures RoomSafe(AfterAll(y, actions))
    decreases |actions|
  {
    hide RoomSafe, Step;
    if actions != [] {
      RoomSafeStep(y, actions[0]);
      RoomSafeRun(Step(y, actions[0]), actions[1..]);
    }
  }

  lemma {:induction false} JudgeSafeRun(y: Sys, actions: seq<Action>)
    requires JudgeSafe(y) && NoReset(actions, y.roomId)
    ensures JudgeSafe(AfterAll(y, actions)) && AfterAll(y, actions).roomId == y.roomId
    decreases |actions|
  {
    hide JudgeSafe, Step;
    if actions != [] {
      JudgeSafeStep(y, actions[0]);
      SameRoom(y, actions[0]);
      assert forall i | 0 <= i < |actions[1..]| :: actions[1..][i] == actions[i + 1];
      JudgeSafeRun(Step(y, actions[0]), actions[1..]);
    }
  }

  lemma SameRoom(y: Sys, a: Action)
    ensures Step(y, a).roomId == y.roomId
  {
  }

  lemma FreshSafe(y: Sys)
    requires Fresh(y)
    ensures RoomSafe(y) && JudgeSafe(y)
  {
    var maxPlayers: nat :| y.room == Init(maxPlayers);
    InitInv(maxPlayers);
    InitBalanced(maxPlayers);
  }

  /** In every interleaving, judge resets and new lives of the room included: a taken id is the id
      of a card read so far and has been credited exactly once in the room's present life; no
      other id has been credited in it. */
  lemma TakenOnceAndRead(y: Sys, actions: seq<Action>)
    requires Fresh(y)
    ensures var z := AfterAll(y, actions);
            (forall id | id in z.room.taken :: WasRead(z.room, id)) &&
            forall id :: Credits(z.log, id) == if id in z.room.taken then 1 else 0
  {
    hide AfterAll, Credits;
    FreshSafe(y);
    RoomSafeRun(y, actions);
  }

  /** In every interleaving without a reset of this room's entries: every credit ever given under
      the room id went to the one player the judge's map holds for that card. */
  lemma CreditedToHolder(y: Sys, actions: seq<Action>)
    requires Fresh(y) && NoReset(actions, y.roomId)
    ensures var z := AfterAll(y, actions);
            z.roomId == y.roomId && forall e | e in Ledgers(z) && e.Win? :: Holds(z, e.id, e.name)
  {
    hide AfterAll;
    FreshSafe(y);
    JudgeSafeRun(y, actions);
  }
}
