/** The judge as it really runs: every handler of services/judge/src/main.rs is a sequence of
    atomic steps on the shared maps, and the steps of any number of calls interleave. A call's
    winning score and its history line are one step, since the handler keeps the score entry
    locked until both are written. */
module JudgeSteps {
  import opened Options
  import opened UInt32
  import opened Judge

  type Tid = int

  /** Where a call is. */
  datatype Pc =
    | Idle
    | Entered(req: Request, won: bool, at: nat)
    | Looked(req: Request, won: bool, at: nat, ms: nat)
    | InBatch(items: seq<Item>)
    | Dropping(room: string, from: nat, left: nat)

  /** What has been done to the maps, in order; at, entered and from are positions in this list. */
  datatype Event =
    | Enter(key: Key, player: string, won: bool)
    | Credit(key: Key, player: string, entered: nat)
    | DropWinners(room: string)
    | DropScores(room: string, from: nat)
    | DropHistory(room: string, from: nat)

  datatype Sys = Sys(state: State, pcs: map<Tid, Pc>, trace: seq<Event>)

  datatype Action =
    | CallJudge(tid: Tid, req: Request, now: int) // validate and enter
    | Look(tid: Tid) // look up when the card was read
    | Finish(tid: Tid) // credit a winner, then answer
    | CallBatch(tid: Tid, items: seq<Item>)
    | NextItem(tid: Tid) // validate and enter one item
    | MarkRead(key: Key, now: int)
    | CallReset(tid: Tid, room: string) // drop the winners
    | DropNext(tid: Tid) // then the scores, the history, the read times

  function PcOf(y: Sys, tid: Tid): Pc {
    if tid in y.pcs then y.pcs[tid] else Idle
  }

  function Goto(y: Sys, tid: Tid, pc: Pc): Sys {
    y.(pcs := y.pcs[tid := pc])
  }

  function Done(y: Sys, state: State, e: Event): Sys {
    y.(state := state, trace := y.trace + [e])
  }

  function EnterKey(y: Sys, req: Request): Sys {
    Done(y, y.state.(winners := FirstWins(y.state.winners, KeyOf(req), req.player)),
         Enter(KeyOf(req), req.player, VerdictOf(y.state.winners, req).won))
  }

  function KeyOf(req: Request): Key {
    (req.room, req.card)
  }

  function DropOne(y: Sys, tid: Tid, room: string, from: nat, left: nat): Sys {
    if left == 3 then
      Goto(Done(y, y.state.(scores := y.state.scores - {room}), DropScores(room, from)), tid, Dropping(room, from, 2))
    else if left == 2 then
      Goto(Done(y, y.state.(history := y.state.history - {room}), DropHistory(room, from)), tid,
           Dropping(room, from, 1))
    else
      Goto(y.(state := y.state.(readAt := OtherRooms(y.state.readAt, room))), tid, Idle)
  }

  function Step(y: Sys, a: Action): Sys {
    match a
    case CallJudge(tid, req, now) =>
      if PcOf(y, tid) != Idle || Check(req, now).Some? then y
      else Goto(EnterKey(y, req), tid, Entered(req, VerdictOf(y.state.winners, req).won, |y.trace|))
    case Look(tid) =>
      (match PcOf(y, tid)
       case Entered(req, won, at) => Goto(y, tid, Looked(req, won, at, ResponseMs(y.state, req)))
       case _ => y)
    case Finish(tid) =>
      (match PcOf(y, tid)
       case Looked(req, won, at, ms) =>
         Goto(if won then Done(y, Credited(y.state, req, ms), Credit(KeyOf(req), req.player, at)) else y, tid, Idle)
       case _ => y)
    case CallBatch(tid, items) =>
      if PcOf(y, tid) != Idle || |items| > 100 then y else Goto(y, tid, InBatch(items))
    case NextItem(tid) =>
      (match PcOf(y, tid)
       case InBatch(items) =>
         if items == [] || Check(items[0].req, items[0].now).Some? then Goto(y, tid, Idle)
         else Goto(EnterKey(y, items[0].req), tid, InBatch(items[1..]))
       case _ => y)
    case MarkRead(key, now) => y.(state := y.state.(readAt := y.state.readAt[key := now]))
    case CallReset(tid, room) =>
      if PcOf(y, tid) != Idle || Blank(room) then y
      else
        Goto(Done(y, y.state.(winners := OtherRooms(y.state.winners, room)), DropWinners(room)), tid,
             Dropping(room, |y.trace|, 3))
    case DropNext(tid) =>
      (match PcOf(y, tid)
       case Dropping(room, from, left) => DropOne(y, tid, room, from, left)
       case _ => y)
  }

  function After(y: Sys, actions: seq<Action>): Sys
    decreases |actions|
  {
    if actions == [] then y else After(Step(y, actions[0]), actions[1..])
  }

  function Empty(): Sys {
    Sys(State(map[], map[], map[], map[]), map[], [])
  }

  predicate Quiet(y: Sys) {
    forall tid | tid in y.pcs :: y.pcs[tid] == Idle
  }

  // ---- The maps as functions of what was done ----

  function Holder(trace: seq<Event>, key: Key): Option<string> {
    if trace == [] then None
    else
      var rest := Holder(trace[..|trace| - 1], key);
      match trace[|trace| - 1]
      case Enter(k, player, _) => if k == key && rest.None? then Some(player) else rest
      case DropWinners(room) => if room == key.0 then None else rest
      case _ => rest
  }

  function ScoreIn(trace: seq<Event>, room: string, player: string): nat {
    if trace == [] then 0
    else
      var rest := ScoreIn(trace[..|trace| - 1], room, player);
      match trace[|trace| - 1]
      case Credit(k, p, _) => if k.0 == room && p == player then rest + 1 else rest
      case DropScores(r, _) => if r == room then 0 else rest
      case _ => rest
  }

  function CountFor(h: seq<Taken>, player: string): nat {
    if h == [] then 0
    else (if h[|h| - 1].player == player then 1 else 0) + CountFor(h[..|h| - 1], player)
  }

  function CountIn(trace: seq<Event>, room: string, player: string): nat {
    if trace == [] then 0
    else
      var rest := CountIn(trace[..|trace| - 1], room, player);
      match trace[|trace| - 1]
      case Credit(k, p, _) => if k.0 == room && p == player then rest + 1 else rest
      case DropHistory(r, _) => if r == room then 0 else rest
      case _ => rest
  }

  predicate IsLine(trace: seq<Event>, room: string, card: u32, player: string) {
    exists i | 0 <= i < |trace| :: Survives(trace, i, room) && trace[i].key.1 == card && trace[i].player == player
  }

  /** A credit of the room whose history line has not been dropped. */
  predicate Survives(trace: seq<Event>, i: nat, room: string)
    requires i < |trace|
  {
    trace[i].Credit? && trace[i].key.0 == room && !HistoryDropped(trace, i, room)
  }

  predicate HistoryDropped(trace: seq<Event>, i: nat, room: string) {
    exists j | i < j < |trace| :: trace[j].DropHistory? && trace[j].room == room
  }

  predicate ScoresDropped(trace: seq<Event>, i: nat, room: string) {
    exists j | i < j < |trace| :: trace[j].DropScores? && trace[j].room == room
  }

  predicate WinnersDropped(trace: seq<Event>, i: nat, room: string) {
    exists j | i < j < |trace| :: trace[j] == DropWinners(room)
  }

  ghost predicate Follows(s: State, trace: seq<Event>) {
    (forall key :: Held(s, key) == Holder(trace, key)) &&
    (forall room, player :: Score(s, room, player) == ScoreIn(trace, room, player)) &&
    (forall room, player :: CountFor(HistoryOf(s, room), player) == CountIn(trace, room, player)) &&
    forall room, card: u32, player :: HasLine(s, room, card, player) <==> IsLine(trace, room, card, player)
  }

  function Held(s: State, key: Key): Option<string> {
    if key in s.winners then Some(s.winners[key]) else None
  }

  predicate HasLine(s: State, room: string, card: u32, player: string) {
    exists i | 0 <= i < |HistoryOf(s, room)| ::
      HistoryOf(s, room)[i].card == card && HistoryOf(s, room)[i].player == player
  }

  // ---- Appending one event ----

  lemma HolderSnoc(trace: seq<Event>, e: Event, key: Key)
    ensures Holder(trace + [e], key) ==
            match e
            case Enter(k, player, _) =>
              if k == key && Holder(trace, key).None? then Some(player) else Holder(trace, key)
            case DropWinners(room) => if room == key.0 then None else Holder(trace, key)
            case _ => Holder(trace, key)
  {
    assert (trace + [e])[..|trace|] == trace;
  }

  lemma ScoreSnoc(trace: seq<Event>, e: Event, room: string, player: string)
    ensures ScoreIn(trace + [e], room, player) ==
            match e
            case Credit(k, p, _) => ScoreIn(trace, room, player) + (if k.0 == room && p == player then 1 else 0)
            case DropScores(r, _) => if r == room then 0 else ScoreIn(trace, room, player)
            case _ => ScoreIn(trace, room, player)
  {
    assert (trace + [e])[..|trace|] == trace;
  }

  lemma CountSnoc(trace: seq<Event>, e: Event, room: string, player: string)
    ensures CountIn(trace + [e], room, player) ==
            match e
            case Credit(k, p, _) => CountIn(trace, room, player) + (if k.0 == room && p == player then 1 else 0)
            case DropHistory(r, _) => if r == room then 0 else CountIn(trace, room, player)
            case _ => CountIn(trace, room, player)
  {
    assert (trace + [e])[..|trace|] == trace;
  }

  /** An old position is cut off by a new event exactly if the event drops the history. */
  lemma SurvivesSnoc(trace: seq<Event>, e: Event, i: nat, room: string)
    requires i < |trace|
    ensures Survives(trace + [e], i, room) <==> Survives(trace, i, room) && !(e.DropHistory? && e.room == room)
  {
    var longer := trace + [e];
    assert longer[i] == trace[i];
    if HistoryDropped(trace, i, room) {
      var j :| i < j < |trace| && trace[j].DropHistory? && trace[j].room == room;
      assert longer[j] == trace[j];
    }
    if HistoryDropped(longer, i, room) {
      var j :| i < j < |longer| && longer[j].DropHistory? && longer[j].room == room;
      if j < |trace| {
        assert trace[j] == longer[j];
      }
    }
    assert longer[|trace|] == e;
  }

  lemma LineSnoc(trace: seq<Event>, e: Event, room: string, card: u32, player: string)
    ensures IsLine(trace + [e], room, card, player) <==>
            (e.Credit? && e.key == (room, card) && e.player == player) ||
            (IsLine(trace, room, card, player) && !(e.DropHistory? && e.room == room))
  {
    hide Survives;
    var longer := trace + [e];
    assert longer[|trace|] == e;
    LastSurvives(trace, e, room);
    forall i: nat | i < |trace|
      ensures longer[i] == trace[i]
      ensures Survives(longer, i, room) <==> Survives(trace, i, room) && !(e.DropHistory? && e.room == room)
    {
      SurvivesSnoc(trace, e, i, room);
    }
  }

  lemma LastSurvives(trace: seq<Event>, e: Event, room: string)
    ensures Survives(trace + [e], |trace|, room) <==> e.Credit? && e.key.0 == room
  {
  }

  // ---- Every step keeps the maps in line with the trace ----

  lemma FollowsEnter(s: State, trace: seq<Event>, req: Request)
    requires Follows(s, trace)
    ensures Follows(s.(winners := FirstWins(s.winners, KeyOf(req), req.player)),
                    trace + [Enter(KeyOf(req), req.player, VerdictOf(s.winners, req).won)])
  {
    hide Holder, ScoreIn, CountIn, IsLine, CountFor;
    SnocAll(trace, Enter(KeyOf(req), req.player, VerdictOf(s.winners, req).won));
    var t := s.(winners := FirstWins(s.winners, KeyOf(req), req.player));
    assert forall key :: Held(s, key) == Holder(trace, key);
    assert forall room, player :: Score(t, room, player) == Score(s, room, player);
    assert forall room :: HistoryOf(t, room) == HistoryOf(s, room);
    assert forall room, card: u32, player :: HasLine(t, room, card, player) <==> HasLine(s, room, card, player);
  }

  /** All four snoc laws at once, for every key, room, card and player. */
  lemma SnocAll(trace: seq<Event>, e: Event)
    ensures forall key :: Holder(trace + [e], key) ==
              match e
              case Enter(k, player, _) =>
                if k == key && Holder(trace, key).None? then Some(player) else Holder(trace, key)
              case DropWinners(room) => if room == key.0 then None else Holder(trace, key)
              case _ => Holder(trace, key)
    ensures forall room, player :: ScoreIn(trace + [e], room, player) ==
              match e
              case Credit(k, p, _) => ScoreIn(trace, room, player) + (if k.0 == room && p == player then 1 else 0)
              case DropScores(r, _) => if r == room then 0 else ScoreIn(trace, room, player)
              case _ => ScoreIn(trace, room, player)
    ensures forall room, player :: CountIn(trace + [e], room, player) ==
              match e
              case Credit(k, p, _) => CountIn(trace, room, player) + (if k.0 == room && p == player then 1 else 0)
              case DropHistory(r, _) => if r == room then 0 else CountIn(trace, room, player)
              case _ => CountIn(trace, room, player)
    ensures forall room, card: u32, player :: IsLine(trace + [e], room, card, player) <==>
              (e.Credit? && e.key == (room, card) && e.player == player) ||
              (IsLine(trace, room, card, player) && !(e.DropHistory? && e.room == room))
  {
    hide Holder, ScoreIn, CountIn, IsLine;
    forall key { HolderSnoc(trace, e, key); }
    forall room, player { ScoreSnoc(trace, e, room, player); }
    forall room, player { CountSnoc(trace, e, room, player); }
    forall room, card: u32, player { LineSnoc(trace, e, room, card, player); }
  }

  lemma FollowsCredit(s: State, trace: seq<Event>, req: Request, ms: nat, at: nat)
    requires Follows(s, trace)
    ensures Follows(Credited(s, req, ms), trace + [Credit(KeyOf(req), req.player, at)])
  {
    hide Holder, ScoreIn, CountIn, IsLine, CountFor;
    SnocAll(trace, Credit(KeyOf(req), req.player, at));
    var t := Credited(s, req, ms);
    var h, line := HistoryOf(s, req.room), Taken(req.card, req.player, ms);
    assert forall key :: Held(t, key) == Held(s, key);
    assert HistoryOf(t, req.room) == h + [line];
    assert forall room | room != req.room :: HistoryOf(t, room) == HistoryOf(s, room);
    forall room, player
      ensures Score(t, room, player) ==
              Score(s, room, player) + if room == req.room && player == req.player then 1 else 0
    {
    }
    forall player
      ensures CountFor(h + [line], player) == CountFor(h, player) + if player == req.player then 1 else 0
    {
      CountOneMore(h, line, player);
    }
    forall room, card: u32, player
      ensures HasLine(t, room, card, player) <==>
              HasLine(s, room, card, player) || ((room, card) == KeyOf(req) && player == req.player)
    {
      LineOneMore(s, t, req, line, room, card, player);
    }
  }

  lemma CountOneMore(h: seq<Taken>, e: Taken, player: string)
    ensures CountFor(h + [e], player) == CountFor(h, player) + if e.player == player then 1 else 0
  {
    assert (h + [e])[..|h|] == h;
  }

  lemma LineOneMore(s: State, t: State, req: Request, line: Taken, room: string, card: u32, player: string)
    requires line.card == req.card && line.player == req.player
    requires HistoryOf(t, room) == HistoryOf(s, room) + if room == req.room then [line] else []
    ensures HasLine(t, room, card, player) <==>
            HasLine(s, room, card, player) || ((room, card) == KeyOf(req) && player == req.player)
  {
    var h, g := HistoryOf(s, room), HistoryOf(t, room);
    assert forall i | 0 <= i < |h| :: g[i] == h[i];
    if room == req.room {
      assert g[|h|] == line;
    }
  }

  lemma FollowsDropWinners(s: State, trace: seq<Event>, room: string)
    requires Follows(s, trace)
    ensures Follows(s.(winners := OtherRooms(s.winners, room)), trace + [DropWinners(room)])
  {
    hide Holder, ScoreIn, CountIn, IsLine, CountFor;
    SnocAll(trace, DropWinners(room));
    var t := s.(winners := OtherRooms(s.winners, room));
    assert forall key :: Held(s, key) == Holder(trace, key);
    assert forall r, player :: Score(t, r, player) == Score(s, r, player);
    assert forall r :: HistoryOf(t, r) == HistoryOf(s, r);
    assert forall r, card: u32, player :: HasLine(t, r, card, player) <==> HasLine(s, r, card, player);
  }

  lemma FollowsDropScores(s: State, trace: seq<Event>, room: string, from: nat)
    requires Follows(s, trace)
    ensures Follows(s.(scores := s.scores - {room}), trace + [DropScores(room, from)])
  {
    hide Holder, ScoreIn, CountIn, IsLine, CountFor;
    SnocAll(trace, DropScores(room, from));
    var t := s.(scores := s.scores - {room});
    assert forall key :: Held(t, key) == Held(s, key);
    assert forall r, player :: Score(t, r, player) == if r == room then 0 else Score(s, r, player);
    assert forall r :: HistoryOf(t, r) == HistoryOf(s, r);
    assert forall r, card: u32, player :: HasLine(t, r, card, player) <==> HasLine(s, r, card, player);
  }

  lemma FollowsDropHistory(s: State, trace: seq<Event>, room: string, from: nat)
    requires Follows(s, trace)
    ensures Follows(s.(history := s.history - {room}), trace + [DropHistory(room, from)])
  {
    hide Holder, ScoreIn, CountIn, IsLine;
    SnocAll(trace, DropHistory(room, from));
    var t := s.(history := s.history - {room});
    assert forall key :: Held(t, key) == Held(s, key);
    assert forall r, player :: Score(t, r, player) == Score(s, r, player);
    assert HistoryOf(t, room) == [];
    assert forall r | r != room :: HistoryOf(t, r) == HistoryOf(s, r);
    forall r, card: u32, player
      ensures HasLine(t, r, card, player) <==> HasLine(s, r, card, player) && r != room
    {
    }
    forall r, player
      ensures CountFor(HistoryOf(t, r), player) == if r == room then 0 else CountFor(HistoryOf(s, r), player)
    {
    }
  }

  lemma FollowsReads(s: State, trace: seq<Event>, readAt: map<Key, int>)
    requires Follows(s, trace)
    ensures Follows(s.(readAt := readAt), trace)
  {
    hide Holder, ScoreIn, CountIn, IsLine, CountFor;
    var t := s.(readAt := readAt);
    assert forall key :: Held(t, key) == Held(s, key);
    assert forall r, player :: Score(t, r, player) == Score(s, r, player);
    assert forall r :: HistoryOf(t, r) == HistoryOf(s, r);
    assert forall r, card: u32, player :: HasLine(t, r, card, player) <==> HasLine(s, r, card, player);
  }

  lemma FollowsStep(y: Sys, a: Action)
    requires Follows(y.state, y.trace)
    ensures Follows(Step(y, a).state, Step(y, a).trace)
  {
    hide Follows, Check, VerdictOf, Credited, FirstWins;
    var s, trace := y.state, y.trace;
    match a
    case CallJudge(_, req, _) => FollowsEnter(s, trace, req);
    case Finish(tid) =>
      if PcOf(y, tid).Looked? {
        var pc := PcOf(y, tid);
        FollowsCredit(s, trace, pc.req, pc.ms, pc.at);
      }
    case NextItem(tid) =>
      if PcOf(y, tid).InBatch? && PcOf(y, tid).items != [] {
        FollowsEnter(s, trace, PcOf(y, tid).items[0].req);
      }
    case MarkRead(key, now) => FollowsReads(s, trace, s.readAt[key := now]);
    case CallReset(_, room) => FollowsDropWinners(s, trace, room);
    case DropNext(tid) =>
      if PcOf(y, tid).Dropping? {
        var pc := PcOf(y, tid);
        FollowsDropScores(s, trace, pc.room, pc.from);
        FollowsDropHistory(s, trace, pc.room, pc.from);
        FollowsReads(s, trace, OtherRooms(s.readAt, pc.room));
      }
    case _ =>
  }

  lemma EmptyFollows()
    ensures Follows(Empty().state, Empty().trace)
  {
  }

  lemma {:induction false} FollowsRun(y: Sys, actions: seq<Action>)
    requires Follows(y.state, y.trace)
    ensures Follows(After(y, actions).state, After(y, actions).trace)
    decreases |actions|
  {
    hide Follows, Step;
    if actions != [] {
      FollowsStep(y, actions[0]);
      FollowsRun(Step(y, actions[0]), actions[1..]);
    }
  }

  // ---- Scores and history apart ----

  /** A credit of which exactly one of score and history line has been dropped. */
  predicate Torn(trace: seq<Event>, i: nat, room: string)
    requires i < |trace|
  {
    trace[i].Credit? && trace[i].key.0 == room && (ScoresDropped(trace, i, room) != HistoryDropped(trace, i, room))
  }

  /** A credit of the room whose score has not been dropped. */
  predicate Scores(trace: seq<Event>, i: nat, room: string)
    requires i < |trace|
  {
    trace[i].Credit? && trace[i].key.0 == room && !ScoresDropped(trace, i, room)
  }

  lemma ScoresSnoc(trace: seq<Event>, e: Event, i: nat, room: string)
    requires i < |trace|
    ensures Scores(trace + [e], i, room) <==> Scores(trace, i, room) && !(e.DropScores? && e.room == room)
  {
    var longer := trace + [e];
    assert longer[i] == trace[i];
    if ScoresDropped(trace, i, room) {
      var j :| i < j < |trace| && trace[j].DropScores? && trace[j].room == room;
      assert longer[j] == trace[j];
    }
    if ScoresDropped(longer, i, room) {
      var j :| i < j < |longer| && longer[j].DropScores? && longer[j].room == room;
      if j < |trace| {
        assert trace[j] == longer[j];
      }
    }
    assert longer[|trace|] == e;
  }

  lemma TornIs(trace: seq<Event>, i: nat, room: string)
    requires i < |trace|
    ensures Torn(trace, i, room) <==> Scores(trace, i, room) != Survives(trace, i, room)
  {
  }

  /** The last credit is never torn; an old one is torn anew as the last event says. */
  lemma TornSnoc(trace: seq<Event>, e: Event, room: string)
    ensures forall i: nat | i < |trace| :: Torn(trace + [e], i, room) <==>
              (Scores(trace, i, room) && !(e.DropScores? && e.room == room)) !=
              (Survives(trace, i, room) && !(e.DropHistory? && e.room == room))
    ensures !Torn(trace + [e], |trace|, room)
  {
    hide Torn, Scores, Survives;
    forall i: nat | i < |trace|
      ensures Torn(trace + [e], i, room) <==>
              (Scores(trace, i, room) && !(e.DropScores? && e.room == room)) !=
              (Survives(trace, i, room) && !(e.DropHistory? && e.room == room))
    {
      TornIs(trace + [e], i, room);
      ScoresSnoc(trace, e, i, room);
      SurvivesSnoc(trace, e, i, room);
    }
    LastNotTorn(trace, e, room);
  }

  lemma LastNotTorn(trace: seq<Event>, e: Event, room: string)
    ensures !Torn(trace + [e], |trace|, room)
    ensures Scores(trace + [e], |trace|, room) <==> e.Credit? && e.key.0 == room
    ensures Survives(trace + [e], |trace|, room) <==> e.Credit? && e.key.0 == room
  {
  }

  lemma {:induction false} CountPositive(trace: seq<Event>, room: string, player: string)
    ensures CountIn(trace, room, player) > 0 <==>
            exists i | 0 <= i < |trace| :: Survives(trace, i, room) && trace[i].player == player
    decreases |trace|
  {
    hide Survives, Scores, Torn, CountIn;
    if trace == [] {
      NoCount(room, player);
    } else {
      var rest, e := trace[..|trace| - 1], trace[|trace| - 1];
      assert trace == rest + [e];
      CountPositive(rest, room, player);
      CountSnoc(rest, e, room, player);
      LastNotTorn(rest, e, room);
      forall i: nat | i < |rest|
        ensures trace[i] == rest[i]
        ensures Survives(trace, i, room) <==> Survives(rest, i, room) && !(e.DropHistory? && e.room == room)
      {
        SurvivesSnoc(rest, e, i, room);
      }
      forall i: nat | i < |rest| && Survives(rest, i, room)
        ensures rest[i].Credit?
      {
        SurvivorIsCredit(rest, i, room);
      }
      assert trace[|rest|] == e;
    }
  }

  lemma SurvivorIsCredit(trace: seq<Event>, i: nat, room: string)
    requires i < |trace| && (Survives(trace, i, room) || Scores(trace, i, room))
    ensures trace[i].Credit?
  {
  }

  lemma NoCount(room: string, player: string)
    ensures CountIn([], room, player) == 0 && ScoreIn([], room, player) == 0
  {
  }

  lemma {:induction false} ScorePositive(trace: seq<Event>, room: string, player: string)
    ensures ScoreIn(trace, room, player) > 0 <==>
            exists i | 0 <= i < |trace| :: Scores(trace, i, room) && trace[i].player == player
    decreases |trace|
  {
    hide Survives, Scores, Torn, ScoreIn;
    if trace == [] {
      NoCount(room, player);
    } else {
      var rest, e := trace[..|trace| - 1], trace[|trace| - 1];
      assert trace == rest + [e];
      ScorePositive(rest, room, player);
      ScoreSnoc(rest, e, room, player);
      LastNotTorn(rest, e, room);
      forall i: nat | i < |rest|
        ensures trace[i] == rest[i]
        ensures Scores(trace, i, room) <==> Scores(rest, i, room) && !(e.DropScores? && e.room == room)
      {
        ScoresSnoc(rest, e, i, room);
      }
      forall i: nat | i < |rest| && Scores(rest, i, room)
        ensures rest[i].Credit?
      {
        SurvivorIsCredit(rest, i, room);
      }
      assert trace[|rest|] == e;
    }
  }

  ghost predicate ScoresAgree(trace: seq<Event>, room: string) {
    forall player :: ScoreIn(trace, room, player) == CountIn(trace, room, player)
  }

  predicate SomeTorn(trace: seq<Event>, room: string) {
    exists i | 0 <= i < |trace| :: Torn(trace, i, room)
  }

  /** All scores of a room equal its counts of history lines exactly if no credit is torn. */
  lemma {:induction false} ScoresAgreeExactlyWhen(trace: seq<Event>, room: string)
    ensures ScoresAgree(trace, room) <==> !SomeTorn(trace, room)
    decreases |trace|
  {
    hide Survives, Scores, Torn, ScoreIn, CountIn;
    if trace == [] {
      forall player { NoCount(room, player); }
    } else {
      var rest, e := trace[..|trace| - 1], trace[|trace| - 1];
      assert trace == rest + [e];
      ScoresAgreeExactlyWhen(rest, room);
      TornSnoc(rest, e, room);
      forall player
        ensures ScoreIn(trace, room, player) ==
                match e
                case Credit(k, p, _) => ScoreIn(rest, room, player) + (if k.0 == room && p == player then 1 else 0)
                case DropScores(r, _) => if r == room then 0 else ScoreIn(rest, room, player)
                case _ => ScoreIn(rest, room, player)
        ensures CountIn(trace, room, player) ==
                match e
                case Credit(k, p, _) => CountIn(rest, room, player) + (if k.0 == room && p == player then 1 else 0)
                case DropHistory(r, _) => if r == room then 0 else CountIn(rest, room, player)
                case _ => CountIn(rest, room, player)
      {
        ScoreSnoc(rest, e, room, player);
        CountSnoc(rest, e, room, player);
      }
      if e.DropScores? && e.room == room {
        AfterDropScores(trace, rest, room);
      } else if e.DropHistory? && e.room == room {
        AfterDropHistory(trace, rest, room);
      } else {
        SameTorn(trace, rest, room);
      }
    }
  }

  lemma SameTorn(trace: seq<Event>, rest: seq<Event>, room: string)
    requires |trace| == |rest| + 1 && !Torn(trace, |rest|, room)
    requires forall i: nat | i < |rest| :: Torn(trace, i, room) <==> Scores(rest, i, room) != Survives(rest, i, room)
    ensures SomeTorn(trace, room) <==> SomeTorn(rest, room)
  {
    hide Torn, Scores, Survives;
    forall i: nat | i < |rest|
      ensures Torn(rest, i, room) <==> Scores(rest, i, room) != Survives(rest, i, room)
    {
      TornIs(rest, i, room);
    }
  }

  lemma AfterDropScores(trace: seq<Event>, rest: seq<Event>, room: string)
    requires |trace| == |rest| + 1 && !Torn(trace, |rest|, room)
    requires forall i: nat | i < |rest| :: Torn(trace, i, room) <==> Survives(rest, i, room)
    requires forall player ::
               ScoreIn(trace, room, player) == 0 && CountIn(trace, room, player) == CountIn(rest, room, player)
    ensures ScoresAgree(trace, room) <==> !SomeTorn(trace, room)
  {
    hide Torn, HistoryDropped, ScoreIn, CountIn;
    forall player
      ensures CountIn(rest, room, player) > 0 <==>
              exists i | 0 <= i < |rest| :: Survives(rest, i, room) && rest[i].player == player
    {
      CountPositive(rest, room, player);
    }
    if i: nat :| i < |rest| && Survives(rest, i, room) {
      SurvivorIsCredit(rest, i, room);
      assert CountIn(rest, room, rest[i].player) > 0;
      assert Torn(trace, i, room);
    }
  }

  lemma AfterDropHistory(trace: seq<Event>, rest: seq<Event>, room: string)
    requires |trace| == |rest| + 1 && !Torn(trace, |rest|, room)
    requires forall i: nat | i < |rest| :: Torn(trace, i, room) <==> Scores(rest, i, room)
    requires forall player ::
               CountIn(trace, room, player) == 0 && ScoreIn(trace, room, player) == ScoreIn(rest, room, player)
    ensures ScoresAgree(trace, room) <==> !SomeTorn(trace, room)
  {
    hide Torn, ScoresDropped, ScoreIn, CountIn;
    forall player
      ensures ScoreIn(rest, room, player) > 0 <==>
              exists i | 0 <= i < |rest| :: Scores(rest, i, room) && rest[i].player == player
    {
      ScorePositive(rest, room, player);
    }
    if i: nat :| i < |rest| && Scores(rest, i, room) {
      SurvivorIsCredit(rest, i, room);
      assert ScoreIn(rest, room, rest[i].player) > 0;
      assert Torn(trace, i, room);
    }
  }

  // ---- Entries and verdicts ----

  /** A caller is told it won exactly if the entry is then its own. */
  predicate VerdictsRight(trace: seq<Event>) {
    forall i | 0 <= i < |trace| && trace[i].Enter? :: VerdictRight(trace, i)
  }

  predicate VerdictRight(trace: seq<Event>, i: nat)
    requires i < |trace| && trace[i].Enter?
  {
    var holder := Holder(trace[..i + 1], trace[i].key);
    holder.Some? && (trace[i].won <==> holder == Some(trace[i].player))
  }

  /** Each credit belongs to an earlier call that won. */
  predicate CreditsWon(trace: seq<Event>) {
    forall i | 0 <= i < |trace| && trace[i].Credit? ::
      trace[i].entered < i && trace[trace[i].entered] == Enter(trace[i].key, trace[i].player, true)
  }

  predicate CallsEntered(y: Sys) {
    forall tid | tid in y.pcs :: CallEntered(y.pcs[tid], y.trace)
  }

  predicate CallEntered(pc: Pc, trace: seq<Event>) {
    pc.Entered? || pc.Looked? ==> pc.at < |trace| && trace[pc.at] == Enter(KeyOf(pc.req), pc.req.player, pc.won)
  }

  ghost predicate EntriesOk(y: Sys) {
    Follows(y.state, y.trace) && VerdictsRight(y.trace) && CreditsWon(y.trace) && CallsEntered(y)
  }

  lemma VerdictsSnoc(trace: seq<Event>, e: Event)
    requires VerdictsRight(trace) && (e.Enter? ==> VerdictRight(trace + [e], |trace|))
    ensures VerdictsRight(trace + [e])
  {
    hide Holder;
    var longer := trace + [e];
    forall i | 0 <= i < |longer| && longer[i].Enter?
      ensures VerdictRight(longer, i)
    {
      if i < |trace| {
        assert VerdictRight(trace, i);
        assert longer[..i + 1] == trace[..i + 1];
      }
    }
  }

  lemma EnterRight(s: State, trace: seq<Event>, req: Request)
    requires Follows(s, trace)
    ensures VerdictRight(trace + [Enter(KeyOf(req), req.player, VerdictOf(s.winners, req).won)], |trace|)
  {
    hide Holder, ScoreIn, CountIn, IsLine, CountFor;
    var e := Enter(KeyOf(req), req.player, VerdictOf(s.winners, req).won);
    assert (trace + [e])[..|trace| + 1] == trace + [e];
    HolderSnoc(trace, e, KeyOf(req));
    assert Held(s, KeyOf(req)) == Holder(trace, KeyOf(req));
  }

  lemma CallsSnoc(y: Sys, e: Event)
    requires CallsEntered(y) && CreditsWon(y.trace)
    requires e.Credit? ==> e.entered < |y.trace| && y.trace[e.entered] == Enter(e.key, e.player, true)
    ensures CreditsWon(y.trace + [e]) && CallsEntered(y.(trace := y.trace + [e]))
  {
    var longer := y.trace + [e];
    assert forall i | 0 <= i < |y.trace| :: longer[i] == y.trace[i];
  }

  /** One call's counter moves to a place in order. */
  lemma GotoOk(y: Sys, tid: Tid, pc: Pc)
    requires EntriesOk(y) && CallEntered(pc, y.trace)
    ensures EntriesOk(Goto(y, tid, pc))
  {
    hide Follows, VerdictsRight, CreditsWon, CallEntered;
  }

  lemma EnterOk(y: Sys, req: Request)
    requires EntriesOk(y)
    ensures EntriesOk(EnterKey(y, req))
    ensures EnterKey(y, req).trace == y.trace + [Enter(KeyOf(req), req.player, VerdictOf(y.state.winners, req).won)]
  {
    hide Follows, VerdictsRight, CreditsWon, CallsEntered, VerdictRight, VerdictOf;
    var e := Enter(KeyOf(req), req.player, VerdictOf(y.state.winners, req).won);
    FollowsEnter(y.state, y.trace, req);
    EnterRight(y.state, y.trace, req);
    VerdictsSnoc(y.trace, e);
    CallsSnoc(y, e);
    SameCalls(EnterKey(y, req), y.(trace := y.trace + [e]));
  }

  lemma SameCalls(y: Sys, z: Sys)
    requires CallsEntered(z) && y.pcs == z.pcs && y.trace == z.trace
    ensures CallsEntered(y)
  {
  }

  /** Any other event, with the maps brought along. */
  lemma DoneOk(y: Sys, state: State, e: Event)
    requires EntriesOk(y) && Follows(state, y.trace + [e]) && !e.Enter?
    requires e.Credit? ==> e.entered < |y.trace| && y.trace[e.entered] == Enter(e.key, e.player, true)
    ensures EntriesOk(Done(y, state, e))
  {
    hide Follows, VerdictsRight, CreditsWon, CallsEntered, VerdictRight;
    VerdictsSnoc(y.trace, e);
    CallsSnoc(y, e);
    SameCalls(Done(y, state, e), y.(trace := y.trace + [e]));
  }

  lemma EntriesStep(y: Sys, a: Action)
    requires EntriesOk(y)
    ensures EntriesOk(Step(y, a))
  {
    hide EntriesOk, Check, VerdictOf, Credited, FirstWins, EnterKey, Follows, CallEntered, Goto, DropOne;
    match a
    case CallJudge(tid, req, now) =>
      EnterOk(y, req);
      FreshCall(y, req);
      GotoOk(EnterKey(y, req), tid, Entered(req, VerdictOf(y.state.winners, req).won, |y.trace|));
    case Look(tid) => LookOk(y, tid);
    case Finish(tid) => FinishOk(y, tid);
    case CallBatch(tid, items) =>
      NoClaim(y.trace);
      GotoOk(y, tid, InBatch(items));
    case NextItem(tid) => ItemOk(y, tid);
    case MarkRead(key, now) => ReadsOk(y, y.state.readAt[key := now]);
    case CallReset(tid, room) => ResetStartOk(y, tid, room);
    case DropNext(tid) => DropOk(y, tid);
  }

  lemma NoClaim(trace: seq<Event>)
    ensures CallEntered(Idle, trace)
    ensures forall items :: CallEntered(InBatch(items), trace)
    ensures forall room, from, left :: CallEntered(Dropping(room, from, left), trace)
  {
  }

  lemma FreshCall(y: Sys, req: Request)
    ensures CallEntered(Entered(req, VerdictOf(y.state.winners, req).won, |y.trace|), EnterKey(y, req).trace)
  {
  }

  lemma LookOk(y: Sys, tid: Tid)
    requires EntriesOk(y)
    ensures EntriesOk(Step(y, Look(tid)))
  {
    hide Follows, VerdictsRight, CreditsWon, ResponseMs;
  }

  lemma FinishOk(y: Sys, tid: Tid)
    requires EntriesOk(y)
    ensures EntriesOk(Step(y, Finish(tid)))
  {
    hide Follows, VerdictsRight, CreditsWon, Credited;
    NoClaim(y.trace);
    if PcOf(y, tid).Looked? {
      var pc := PcOf(y, tid);
      assert CallEntered(pc, y.trace);
      if pc.won {
        var e := Credit(KeyOf(pc.req), pc.req.player, pc.at);
        FollowsCredit(y.state, y.trace, pc.req, pc.ms, pc.at);
        DoneOk(y, Credited(y.state, pc.req, pc.ms), e);
        NoClaim(y.trace + [e]);
        GotoOk(Done(y, Credited(y.state, pc.req, pc.ms), e), tid, Idle);
      } else {
        GotoOk(y, tid, Idle);
      }
    }
  }

  lemma ItemOk(y: Sys, tid: Tid)
    requires EntriesOk(y)
    ensures EntriesOk(Step(y, NextItem(tid)))
  {
    hide EntriesOk, EnterKey, Check, CallEntered;
    NoClaim(y.trace);
    if PcOf(y, tid).InBatch? {
      var items := PcOf(y, tid).items;
      if items == [] || Check(items[0].req, items[0].now).Some? {
        GotoOk(y, tid, Idle);
      } else {
        EnterOk(y, items[0].req);
        NoClaim(EnterKey(y, items[0].req).trace);
        GotoOk(EnterKey(y, items[0].req), tid, InBatch(items[1..]));
      }
    }
  }

  lemma ReadsOk(y: Sys, readAt: map<Key, int>)
    requires EntriesOk(y)
    ensures EntriesOk(y.(state := y.state.(readAt := readAt)))
  {
    hide Follows, VerdictsRight, CreditsWon, CallEntered;
    FollowsReads(y.state, y.trace, readAt);
  }

  lemma ResetStartOk(y: Sys, tid: Tid, room: string)
    requires EntriesOk(y)
    ensures EntriesOk(Step(y, CallReset(tid, room)))
  {
    hide EntriesOk, CallEntered, Follows;
    var t, e := y.state.(winners := OtherRooms(y.state.winners, room)), DropWinners(room);
    EntriesFollow(y);
    FollowsDropWinners(y.state, y.trace, room);
    DoneOk(y, t, e);
    NoClaim(y.trace + [e]);
    GotoOk(Done(y, t, e), tid, Dropping(room, |y.trace|, 3));
  }

  lemma EntriesFollow(y: Sys)
    requires EntriesOk(y)
    ensures Follows(y.state, y.trace)
  {
  }

  lemma DropOk(y: Sys, tid: Tid)
    requires EntriesOk(y)
    ensures EntriesOk(Step(y, DropNext(tid)))
  {
    hide EntriesOk, CallEntered, Follows;
    EntriesFollow(y);
    if PcOf(y, tid).Dropping? {
      var pc := PcOf(y, tid);
      var room, from := pc.room, pc.from;
      if pc.left == 3 {
        var t, e := y.state.(scores := y.state.scores - {room}), DropScores(room, from);
        FollowsDropScores(y.state, y.trace, room, from);
        DoneOk(y, t, e);
        NoClaim(y.trace + [e]);
        GotoOk(Done(y, t, e), tid, Dropping(room, from, 2));
      } else if pc.left == 2 {
        var t, e := y.state.(history := y.state.history - {room}), DropHistory(room, from);
        FollowsDropHistory(y.state, y.trace, room, from);
        DoneOk(y, t, e);
        NoClaim(y.trace + [e]);
        GotoOk(Done(y, t, e), tid, Dropping(room, from, 1));
      } else {
        var kept := OtherRooms(y.state.readAt, room);
        ReadsOk(y, kept);
        NoClaim(y.trace);
        GotoOk(y.(state := y.state.(readAt := kept)), tid, Idle);
      }
    }
  }

  lemma {:induction false} EntriesRun(y: Sys, actions: seq<Action>)
    requires EntriesOk(y)
    ensures EntriesOk(After(y, actions))
    decreases |actions|
  {
    hide EntriesOk, Step;
    if actions != [] {
      EntriesStep(y, actions[0]);
      EntriesRun(Step(y, actions[0]), actions[1..]);
    }
  }

  lemma EmptyEntries()
    ensures EntriesOk(Empty())
  {
    EmptyFollows();
  }

  /** Until its room's winners are dropped, an entry never changes. */
  lemma {:induction false} HeldSince(trace: seq<Event>, i: nat)
    requires VerdictsRight(trace) && i < |trace| && trace[i].Enter? && !WinnersDropped(trace, i, trace[i].key.0)
    ensures Holder(trace, trace[i].key).Some?
    ensures trace[i].won <==> Holder(trace, trace[i].key) == Some(trace[i].player)
    decreases |trace|
  {
    hide Holder;
    if i == |trace| - 1 {
      assert trace[..i + 1] == trace;
      assert VerdictRight(trace, i);
    } else {
      var rest, e := trace[..|trace| - 1], trace[|trace| - 1];
      assert trace == rest + [e];
      forall j | 0 <= j < |rest| && rest[j].Enter?
        ensures VerdictRight(rest, j)
      {
        assert VerdictRight(trace, j) && rest[..j + 1] == trace[..j + 1];
      }
      assert e != DropWinners(trace[i].key.0);
      forall j | i < j < |rest|
        ensures rest[j] != DropWinners(rest[i].key.0)
      {
        assert trace[j] == rest[j];
      }
      HeldSince(rest, i);
      HolderSnoc(rest, e, trace[i].key);
    }
  }

  /** In every interleaving of single and batch calls and resets: as long as the winners of the
      room are not dropped after a call entered a card, the entry stays, and what the caller was
      told is whether the entry is its own. */
  lemma FirstWriterWins(actions: seq<Action>, i: nat)
    requires i < |After(Empty(), actions).trace| && After(Empty(), actions).trace[i].Enter?
    requires var trace := After(Empty(), actions).trace; !WinnersDropped(trace, i, trace[i].key.0)
    ensures var y := After(Empty(), actions);
            var e := y.trace[i];
            e.key in y.state.winners && (e.won <==> y.state.winners[e.key] == e.player)
  {
    hide After, Holder, ScoreIn, CountIn, IsLine, CountFor;
    EmptyEntries();
    EntriesRun(Empty(), actions);
    var y := After(Empty(), actions);
    HeldSince(y.trace, i);
    assert Held(y.state, y.trace[i].key) == Holder(y.trace, y.trace[i].key);
  }

  /** So two players are told they won one card only if the room's winners were dropped between. */
  lemma OneWinnerPerCard(actions: seq<Action>, i: nat, j: nat)
    requires i < j < |After(Empty(), actions).trace|
    requires var trace := After(Empty(), actions).trace;
             trace[i].Enter? && trace[i].won && trace[j].Enter? && trace[j].won && trace[i].key == trace[j].key
    requires var trace := After(Empty(), actions).trace; trace[i].player != trace[j].player
    ensures var trace := After(Empty(), actions).trace;
            exists k | i < k < j :: trace[k] == DropWinners(trace[i].key.0)
  {
    hide After, Holder, Follows;
    EmptyEntries();
    EntriesRun(Empty(), actions);
    var trace := After(Empty(), actions).trace;
    var upto := trace[..j + 1];
    forall k | 0 <= k < |upto| && upto[k].Enter?
      ensures VerdictRight(upto, k)
    {
      assert VerdictRight(trace, k) && upto[..k + 1] == trace[..k + 1];
    }
    if !WinnersDropped(upto, i, trace[i].key.0) {
      HeldSince(upto, i);
      HeldSince(upto, j);
      assert false;
    }
    var k :| i < k < |upto| && upto[k] == DropWinners(trace[i].key.0);
    assert trace[k] == upto[k];
  }

  // ---- A call with nothing in between ----

  /** A judge call that nobody interleaves with does what the handler's specification says. */
  lemma JudgeAlone(y: Sys, tid: Tid, req: Request, now: int)
    requires PcOf(y, tid) == Idle
    ensures var z := After(y, [CallJudge(tid, req, now), Look(tid), Finish(tid)]);
            z.state == (if Check(req, now).Some? then y.state else AfterJudge(y.state, req)) && PcOf(z, tid) == Idle
  {
    hide Check;
    var a, b, c := CallJudge(tid, req, now), Look(tid), Finish(tid);
    AfterThree(y, a, b, c);
  }

  lemma AfterThree(y: Sys, a: Action, b: Action, c: Action)
    ensures After(y, [a, b, c]) == Step(Step(Step(y, a), b), c)
  {
    hide Step;
    assert [a, b, c][1..] == [b, c] && [b, c][1..] == [c] && [c][1..] == [];
    assert After(y, [a, b, c]) == After(Step(y, a), [b, c]);
    assert After(Step(y, a), [b, c]) == After(Step(Step(y, a), b), [c]);
    assert After(Step(Step(y, a), b), [c]) == After(Step(Step(Step(y, a), b), c), []);
  }

  /** The steps that look at n items. */
  function Items(tid: Tid, n: nat): (actions: seq<Action>)
    ensures |actions| == n && forall i | 0 <= i < n :: actions[i] == NextItem(tid)
  {
    seq(n, _ => NextItem(tid))
  }

  lemma {:induction false} IdleStays(y: Sys, tid: Tid, n: nat)
    requires PcOf(y, tid) == Idle
    ensures After(y, Items(tid, n)) == y
    decreases n
  {
    if n > 0 {
      assert Items(tid, n)[1..] == Items(tid, n - 1);
      IdleStays(y, tid, n - 1);
    }
  }

  lemma {:induction false} ItemsAlone(y: Sys, tid: Tid, items: seq<Item>, done: seq<Verdict>)
    requires PcOf(y, tid) == InBatch(items)
    ensures var z := After(y, Items(tid, |items| + 1));
            z.state == y.state.(winners := BatchFrom(y.state.winners, items, done).winners) && PcOf(z, tid) == Idle
    decreases |items|
  {
    hide Check;
    var rest := Items(tid, |items|);
    assert Items(tid, |items| + 1)[1..] == rest;
    var z := Step(y, NextItem(tid));
    if items == [] || Check(items[0].req, items[0].now).Some? {
      IdleStays(z, tid, |items|);
    } else {
      ItemsAlone(z, tid, items[1..], done + [VerdictOf(y.state.winners, items[0].req)]);
    }
  }

  /** So does a batch. */
  lemma BatchAlone(y: Sys, tid: Tid, items: seq<Item>)
    requires PcOf(y, tid) == Idle
    ensures var z := After(y, [CallBatch(tid, items)] + Items(tid, |items| + 1));
            z.state == y.state.(winners := Batch(y.state.winners, items).winners) && PcOf(z, tid) == Idle
  {
    var rest := Items(tid, |items| + 1);
    assert ([CallBatch(tid, items)] + rest)[1..] == rest;
    if |items| > 100 {
      IdleStays(y, tid, |items| + 1);
    } else {
      ItemsAlone(Step(y, CallBatch(tid, items)), tid, items, []);
    }
  }

  /** And a reset. */
  lemma ResetAlone(y: Sys, tid: Tid, room: string)
    requires PcOf(y, tid) == Idle
    ensures var z := After(Step(y, CallReset(tid, room)), [DropNext(tid), DropNext(tid), DropNext(tid)]);
            z.state == AfterReset(y.state, room) && PcOf(z, tid) == Idle
  {
    hide Blank, OtherRooms;
    var d := DropNext(tid);
    AfterThree(Step(y, CallReset(tid, room)), d, d, d);
  }
}
