/** Resets of a room on the judge while other calls are under way: when scores, history and
    entries agree, and how they come apart. */
module JudgeResets {
  import opened Options
  import opened UInt32
  import opened Judge
  import opened JudgeSteps

  // ---- Resets ----

  predicate HasHistoryDrop(trace: seq<Event>, from: nat) {
    exists h | 0 <= h < |trace| :: trace[h].DropHistory? && trace[h].from == from
  }

  predicate HasScoresDrop(trace: seq<Event>, room: string, from: nat) {
    exists s | from < s < |trace| :: trace[s] == DropScores(room, from)
  }

  predicate StartedAt(trace: seq<Event>, from: nat, room: string) {
    from < |trace| && trace[from] == DropWinners(room)
  }

  /** The drops of one reset come in order: winners, scores, history. */
  predicate DropsInOrder(trace: seq<Event>) {
    (forall s | 0 <= s < |trace| && trace[s].DropScores? ::
       trace[s].from < s && StartedAt(trace, trace[s].from, trace[s].room)) &&
    (forall h | 0 <= h < |trace| && trace[h].DropHistory? ::
       trace[h].from < h && StartedAt(trace, trace[h].from, trace[h].room) &&
       HasScoresDrop(trace[..h], trace[h].room, trace[h].from)) &&
    forall s, h | 0 <= s < |trace| && 0 <= h < |trace| && trace[s].DropScores? && trace[h].DropHistory? &&
                  trace[s].from == trace[h].from :: s < h
  }

  predicate ResetOk(pc: Pc, trace: seq<Event>) {
    pc.Dropping? ==>
      1 <= pc.left <= 3 && StartedAt(trace, pc.from, pc.room) &&
      (pc.left >= 2 ==> !HasHistoryDrop(trace, pc.from)) && (pc.left == 2 ==> HasScoresDrop(trace, pc.room, pc.from))
  }

  predicate Owns(pc: Pc, from: nat) {
    pc.Dropping? && pc.from == from && pc.left >= 2
  }

  ghost predicate ResetsOk(y: Sys) {
    DropsInOrder(y.trace) && (forall tid | tid in y.pcs :: ResetOk(y.pcs[tid], y.trace)) &&
    (forall t, u | t in y.pcs && u in y.pcs && t != u && y.pcs[t].Dropping? && y.pcs[u].Dropping? ::
       y.pcs[t].from != y.pcs[u].from) &&
    forall w | 0 <= w < |y.trace| && y.trace[w].DropWinners? ::
      HasHistoryDrop(y.trace, w) || exists tid | tid in y.pcs :: Owns(y.pcs[tid], w)
  }

  /** Facts about drops survive an event, except that a history drop is one. */
  lemma DropsSnoc(trace: seq<Event>, e: Event)
    ensures forall room, from: nat | StartedAt(trace, from, room) :: StartedAt(trace + [e], from, room)
    ensures forall room, from: nat | HasScoresDrop(trace, room, from) :: HasScoresDrop(trace + [e], room, from)
    ensures forall from: nat :: HasHistoryDrop(trace + [e], from) <==>
              HasHistoryDrop(trace, from) || (e.DropHistory? && e.from == from)
  {
    var longer := trace + [e];
    assert forall i | 0 <= i < |trace| :: longer[i] == trace[i];
    assert longer[|trace|] == e;
    forall room, from: nat | HasScoresDrop(trace, room, from)
      ensures HasScoresDrop(longer, room, from)
    {
      var s :| from < s < |trace| && trace[s] == DropScores(room, from);
      assert longer[s] == DropScores(room, from);
    }
    forall from: nat | HasHistoryDrop(trace, from)
      ensures HasHistoryDrop(longer, from)
    {
      var h :| 0 <= h < |trace| && trace[h].DropHistory? && trace[h].from == from;
      assert longer[h].DropHistory?;
    }
  }

  lemma OrderSnoc(trace: seq<Event>, e: Event)
    requires DropsInOrder(trace)
    requires e.DropScores? ==> StartedAt(trace, e.from, e.room) && !HasHistoryDrop(trace, e.from)
    requires e.DropHistory? ==> StartedAt(trace, e.from, e.room) && HasScoresDrop(trace, e.room, e.from)
    ensures DropsInOrder(trace + [e])
  {
    var longer := trace + [e];
    DropsSnoc(trace, e);
    assert forall i | 0 <= i < |trace| :: longer[i] == trace[i];
    forall h | 0 <= h < |longer| && longer[h].DropHistory?
      ensures longer[h].from < h && StartedAt(longer, longer[h].from, longer[h].room)
      ensures HasScoresDrop(longer[..h], longer[h].room, longer[h].from)
    {
      if h < |trace| {
        assert trace[h].DropHistory? && longer[..h] == trace[..h];
      } else {
        assert longer[..h] == trace;
      }
    }
  }

  /** An event that is none of a reset's. */
  lemma ResetsUnmoved(y: Sys, state: State, e: Event)
    requires ResetsOk(y) && (e.Enter? || e.Credit?)
    ensures ResetsOk(Done(y, state, e))
  {
    hide HasHistoryDrop, HasScoresDrop, StartedAt, DropsInOrder;
    var z := Done(y, state, e);
    DropsSnoc(y.trace, e);
    OrderSnoc(y.trace, e);
    assert forall i | 0 <= i < |y.trace| :: z.trace[i] == y.trace[i];
    forall w | 0 <= w < |z.trace| && z.trace[w].DropWinners?
      ensures HasHistoryDrop(z.trace, w) || exists tid | tid in z.pcs :: Owns(z.pcs[tid], w)
    {
      assert y.trace[w].DropWinners?;
    }
  }

  /** A call that is not a reset moves on. */
  lemma ResetsGoto(y: Sys, tid: Tid, pc: Pc)
    requires ResetsOk(y) && !PcOf(y, tid).Dropping? && !pc.Dropping?
    ensures ResetsOk(Goto(y, tid, pc))
  {
    hide HasHistoryDrop, HasScoresDrop, StartedAt, DropsInOrder;
    var z := Goto(y, tid, pc);
    forall w | 0 <= w < |z.trace| && z.trace[w].DropWinners?
      ensures HasHistoryDrop(z.trace, w) || exists t | t in z.pcs :: Owns(z.pcs[t], w)
    {
      assert y.trace[w].DropWinners?;
      if t :| t in y.pcs && Owns(y.pcs[t], w) {
        assert Owns(z.pcs[t], w);
      }
    }
  }

  lemma ResetStarts(y: Sys, tid: Tid, room: string)
    requires ResetsOk(y) && PcOf(y, tid) == Idle
    ensures var t := y.state.(winners := OtherRooms(y.state.winners, room));
            ResetsOk(Goto(Done(y, t, DropWinners(room)), tid, Dropping(room, |y.trace|, 3)))
  {
    hide HasHistoryDrop, HasScoresDrop, DropsInOrder;
    var e := DropWinners(room);
    var state := y.state.(winners := OtherRooms(y.state.winners, room));
    var z := Goto(Done(y, state, e), tid, Dropping(room, |y.trace|, 3));
    DropsSnoc(y.trace, e);
    OrderSnoc(y.trace, e);
    NoDropYet(y.trace);
    assert forall i | 0 <= i < |y.trace| :: z.trace[i] == y.trace[i];
    assert Owns(z.pcs[tid], |y.trace|);
    forall w | 0 <= w < |z.trace| && z.trace[w].DropWinners?
      ensures HasHistoryDrop(z.trace, w) || exists t | t in z.pcs :: Owns(z.pcs[t], w)
    {
      if w < |y.trace| {
        assert y.trace[w].DropWinners?;
        if t :| t in y.pcs && Owns(y.pcs[t], w) {
          assert Owns(z.pcs[t], w);
        }
      }
    }
  }

  lemma NoDropYet(trace: seq<Event>)
    requires DropsInOrder(trace)
    ensures !HasHistoryDrop(trace, |trace|)
  {
  }

  lemma ScoresGo(y: Sys, tid: Tid, state: State)
    requires ResetsOk(y) && PcOf(y, tid).Dropping? && PcOf(y, tid).left == 3
    ensures var pc := PcOf(y, tid);
            ResetsOk(Goto(Done(y, state, DropScores(pc.room, pc.from)), tid, Dropping(pc.room, pc.from, 2)))
  {
    hide DropsInOrder;
    var pc := PcOf(y, tid);
    var e := DropScores(pc.room, pc.from);
    assert ResetOk(pc, y.trace);
    var z := Goto(Done(y, state, e), tid, Dropping(pc.room, pc.from, 2));
    DropsSnoc(y.trace, e);
    OrderSnoc(y.trace, e);
    assert z.trace[|y.trace|] == e;
    assert forall i | 0 <= i < |y.trace| :: z.trace[i] == y.trace[i];
    hide HasHistoryDrop, HasScoresDrop, StartedAt;
    forall w | 0 <= w < |z.trace| && z.trace[w].DropWinners?
      ensures HasHistoryDrop(z.trace, w) || exists t | t in z.pcs :: Owns(z.pcs[t], w)
    {
      assert y.trace[w].DropWinners?;
      if t :| t in y.pcs && Owns(y.pcs[t], w) {
        assert Owns(z.pcs[t], w);
      }
    }
  }

  lemma HistoryGoes(y: Sys, tid: Tid, state: State)
    requires ResetsOk(y) && PcOf(y, tid).Dropping? && PcOf(y, tid).left == 2
    ensures var pc := PcOf(y, tid);
            ResetsOk(Goto(Done(y, state, DropHistory(pc.room, pc.from)), tid, Dropping(pc.room, pc.from, 1)))
  {
    hide HasHistoryDrop, HasScoresDrop, StartedAt, DropsInOrder;
    var pc := PcOf(y, tid);
    var e := DropHistory(pc.room, pc.from);
    assert ResetOk(pc, y.trace);
    var z := Goto(Done(y, state, e), tid, Dropping(pc.room, pc.from, 1));
    DropsSnoc(y.trace, e);
    OrderSnoc(y.trace, e);
    assert forall i | 0 <= i < |y.trace| :: z.trace[i] == y.trace[i];
    forall w | 0 <= w < |z.trace| && z.trace[w].DropWinners?
      ensures HasHistoryDrop(z.trace, w) || exists t | t in z.pcs :: Owns(z.pcs[t], w)
    {
      assert y.trace[w].DropWinners?;
      if t :| t in y.pcs && Owns(y.pcs[t], w) {
        if t != tid {
          assert Owns(z.pcs[t], w);
        }
      }
    }
  }

  lemma ResetEnds(y: Sys, tid: Tid, state: State)
    requires ResetsOk(y) && PcOf(y, tid).Dropping? && PcOf(y, tid).left == 1
    ensures ResetsOk(Goto(y.(state := state), tid, Idle))
  {
    hide HasHistoryDrop, HasScoresDrop, StartedAt, DropsInOrder;
    var z := Goto(y.(state := state), tid, Idle);
    forall w | 0 <= w < |z.trace| && z.trace[w].DropWinners?
      ensures HasHistoryDrop(z.trace, w) || exists t | t in z.pcs :: Owns(z.pcs[t], w)
    {
      assert y.trace[w].DropWinners?;
      if t :| t in y.pcs && Owns(y.pcs[t], w) {
        assert Owns(z.pcs[t], w);
      }
    }
  }

  lemma SameResets(y: Sys, state: State)
    requires ResetsOk(y)
    ensures ResetsOk(y.(state := state))
  {
    hide HasHistoryDrop, HasScoresDrop, StartedAt, DropsInOrder, ResetOk, Owns;
  }

  lemma ResetsStep(y: Sys, a: Action)
    requires ResetsOk(y)
    ensures ResetsOk(Step(y, a))
  {
    hide ResetsOk, Check, VerdictOf, Credited, FirstWins, Goto, Done;
    match a
    case CallJudge(tid, req, now) =>
      EnterResets(y, req);
      if PcOf(y, tid) == Idle {
        ResetsGoto(EnterKey(y, req), tid, Entered(req, VerdictOf(y.state.winners, req).won, |y.trace|));
      }
    case Look(tid) =>
      if PcOf(y, tid).Entered? {
        var pc := PcOf(y, tid);
        ResetsGoto(y, tid, Looked(pc.req, pc.won, pc.at, ResponseMs(y.state, pc.req)));
      }
    case Finish(tid) =>
      if PcOf(y, tid).Looked? {
        var pc := PcOf(y, tid);
        var e := Credit(KeyOf(pc.req), pc.req.player, pc.at);
        ResetsUnmoved(y, Credited(y.state, pc.req, pc.ms), e);
        DonePcs(y, Credited(y.state, pc.req, pc.ms), e);
        ResetsGoto(if pc.won then Done(y, Credited(y.state, pc.req, pc.ms), e) else y, tid, Idle);
      }
    case CallBatch(tid, items) =>
      if PcOf(y, tid) == Idle {
        ResetsGoto(y, tid, InBatch(items));
      }
    case NextItem(tid) =>
      if PcOf(y, tid).InBatch? {
        var items := PcOf(y, tid).items;
        if items == [] || Check(items[0].req, items[0].now).Some? {
          ResetsGoto(y, tid, Idle);
        } else {
          EnterResets(y, items[0].req);
          ResetsGoto(EnterKey(y, items[0].req), tid, InBatch(items[1..]));
        }
      }
    case MarkRead(key, now) => SameResets(y, y.state.(readAt := y.state.readAt[key := now]));
    case CallReset(tid, room) =>
      if PcOf(y, tid) == Idle {
        ResetStarts(y, tid, room);
      }
    case DropNext(tid) =>
      if PcOf(y, tid).Dropping? {
        DropStep(y, tid);
      }
  }

  lemma DropStep(y: Sys, tid: Tid)
    requires ResetsOk(y) && PcOf(y, tid).Dropping?
    ensures ResetsOk(Step(y, DropNext(tid)))
  {
    hide ResetsOk, Goto, Done;
    var pc := PcOf(y, tid);
    DroppingLeft(y, tid);
    if pc.left == 3 {
      ScoresGo(y, tid, y.state.(scores := y.state.scores - {pc.room}));
    } else if pc.left == 2 {
      HistoryGoes(y, tid, y.state.(history := y.state.history - {pc.room}));
    } else {
      ResetEnds(y, tid, y.state.(readAt := OtherRooms(y.state.readAt, pc.room)));
    }
  }

  lemma DroppingLeft(y: Sys, tid: Tid)
    requires ResetsOk(y) && PcOf(y, tid).Dropping?
    ensures 1 <= PcOf(y, tid).left <= 3
  {
    assert ResetOk(y.pcs[tid], y.trace);
  }

  lemma DonePcs(y: Sys, state: State, e: Event)
    ensures Done(y, state, e).pcs == y.pcs
  {
  }

  lemma EnterResets(y: Sys, req: Request)
    requires ResetsOk(y)
    ensures ResetsOk(EnterKey(y, req)) && EnterKey(y, req).pcs == y.pcs
  {
    hide ResetsOk, VerdictOf, FirstWins;
    ResetsUnmoved(y, y.state.(winners := FirstWins(y.state.winners, KeyOf(req), req.player)),
                  Enter(KeyOf(req), req.player, VerdictOf(y.state.winners, req).won));
  }

  lemma {:induction false} ResetsRun(y: Sys, actions: seq<Action>)
    requires ResetsOk(y)
    ensures ResetsOk(After(y, actions))
    decreases |actions|
  {
    hide ResetsOk, Step;
    if actions != [] {
      ResetsStep(y, actions[0]);
      ResetsRun(Step(y, actions[0]), actions[1..]);
    }
  }

  // ---- Consistency of a room ----

  /** Each line of history names the holder of its card, and each score counts the lines. */
  ghost predicate RoomConsistent(s: State, room: string) {
    (forall card: u32, player :: HasLine(s, room, card, player) ==> Held(s, (room, card)) == Some(player)) &&
    forall player :: Score(s, room, player) == CountFor(HistoryOf(s, room), player)
  }

  /** A surviving line whose card's entry was dropped after the call entered it, and is not again
      the same player's. */
  predicate Dangling(trace: seq<Event>, i: nat, room: string)
    requires i < |trace|
  {
    Survives(trace, i, room) && WinnersDropped(trace, trace[i].entered, room) &&
    Holder(trace, trace[i].key) != Some(trace[i].player)
  }

  /** After any interleaving of any calls, at rest or not, a room's maps are consistent exactly if
      no credit is torn and no line dangles. */
  lemma ConsistentExactlyWhen(actions: seq<Action>, room: string)
    ensures var y := After(Empty(), actions);
            RoomConsistent(y.state, room) <==>
            forall i | 0 <= i < |y.trace| :: !Torn(y.trace, i, room) && !Dangling(y.trace, i, room)
  {
    hide After, Torn, Dangling, ScoreIn, CountIn, CountFor, EntriesOk, Follows;
    EmptyEntries();
    EntriesRun(Empty(), actions);
    var y := After(Empty(), actions);
    EntriesFollow(y);
    ScoresAgreeExactlyWhen(y.trace, room);
    LinesHeldExactlyWhen(y, room);
    MapsFollow(y.state, y.trace, room);
  }

  lemma MapsFollow(s: State, trace: seq<Event>, room: string)
    requires Follows(s, trace)
    ensures RoomConsistent(s, room) <==> ScoresAgree(trace, room) && LinesHeld(trace, room)
  {
    hide IsLine, HasLine, Holder, ScoreIn, CountIn, CountFor;
    forall card: u32, player
      ensures HasLine(s, room, card, player) <==> IsLine(trace, room, card, player)
      ensures Held(s, (room, card)) == Holder(trace, (room, card))
    {
    }
    forall player
      ensures Score(s, room, player) == ScoreIn(trace, room, player)
      ensures CountFor(HistoryOf(s, room), player) == CountIn(trace, room, player)
    {
    }
  }

  ghost predicate LinesHeld(trace: seq<Event>, room: string) {
    forall card: u32, player :: IsLine(trace, room, card, player) ==> Holder(trace, (room, card)) == Some(player)
  }

  lemma LinesHeldExactlyWhen(y: Sys, room: string)
    requires EntriesOk(y)
    ensures LinesHeld(y.trace, room) <==> forall i | 0 <= i < |y.trace| :: !Dangling(y.trace, i, room)
  {
    hide Holder, Follows, VerdictsRight, WinnersDropped, HistoryDropped;
    var trace := y.trace;
    forall i: nat | i < |trace| && Survives(trace, i, room) && !WinnersDropped(trace, trace[i].entered, room)
      ensures Holder(trace, trace[i].key) == Some(trace[i].player)
    {
      HeldSince(trace, trace[i].entered);
    }
    if LinesHeld(trace, room) {
      forall i | 0 <= i < |trace|
        ensures !Dangling(trace, i, room)
      {
        if Survives(trace, i, room) {
          assert trace[i].key == (room, trace[i].key.1);
          assert IsLine(trace, room, trace[i].key.1, trace[i].player);
        }
      }
    }
    if forall i | 0 <= i < |trace| :: !Dangling(trace, i, room) {
      forall card: u32, player | IsLine(trace, room, card, player)
        ensures Holder(trace, (room, card)) == Some(player)
      {
        var i :| 0 <= i < |trace| && Survives(trace, i, room) && trace[i].key.1 == card && trace[i].player == player;
        assert trace[i].key == (room, card);
        assert !Dangling(trace, i, room);
      }
    }
  }

  /** The reset that began at w overlaps the winning call credited at i: it began before the
      credit and dropped the history after the call's entry. */
  predicate Overlaps(trace: seq<Event>, i: nat, w: nat, room: string)
    requires i < |trace|
  {
    trace[i].Credit? && w < i && StartedAt(trace, w, room) &&
    exists h | trace[i].entered < h < |trace| :: trace[h] == DropHistory(room, w)
  }

  /** Once no call is under way: if no reset of the room overlapped a winning call of the room,
      its scores count its history, and each line names the holder of its card. */
  lemma QuietIsConsistent(actions: seq<Action>, room: string)
    requires Quiet(After(Empty(), actions))
    requires var trace := After(Empty(), actions).trace;
             forall i, w: nat | 0 <= i < |trace| && trace[i].Credit? && trace[i].key.0 == room ::
               !Overlaps(trace, i, w, room)
    ensures RoomConsistent(After(Empty(), actions).state, room)
  {
    hide After, EntriesOk, RoomConsistent, Torn, Dangling, Overlaps, Quiet, ResetsOk;
    var y := After(Empty(), actions);
    EmptyEntries();
    EntriesRun(Empty(), actions);
    EmptyResets();
    ResetsRun(Empty(), actions);
    ConsistentExactlyWhen(actions, room);
    forall i | 0 <= i < |y.trace|
      ensures !Torn(y.trace, i, room) && !Dangling(y.trace, i, room)
    {
      if y.trace[i].Credit? && y.trace[i].key.0 == room {
        QuietNotTorn(y, i, room);
        QuietNotDangling(y, i, room);
      } else {
        OnlyCredits(y.trace, i, room);
      }
    }
  }

  lemma EmptyResets()
    ensures ResetsOk(Empty())
  {
  }

  lemma OnlyCredits(trace: seq<Event>, i: nat, room: string)
    requires i < |trace| && !(trace[i].Credit? && trace[i].key.0 == room)
    ensures !Torn(trace, i, room) && !Dangling(trace, i, room)
  {
  }

  /** At rest every reset has come to its end. */
  lemma QuietDrop(y: Sys, w: nat, room: string)
    requires ResetsOk(y) && Quiet(y) && StartedAt(y.trace, w, room)
    ensures exists h | w < h < |y.trace| :: y.trace[h] == DropHistory(room, w)
  {
    var h :| 0 <= h < |y.trace| && y.trace[h].DropHistory? && y.trace[h].from == w;
    assert StartedAt(y.trace, w, y.trace[h].room);
  }

  lemma QuietNotTorn(y: Sys, i: nat, room: string)
    requires ResetsOk(y) && EntriesOk(y) && Quiet(y) && i < |y.trace| && y.trace[i].Credit? && y.trace[i].key.0 == room
    requires forall w: nat :: !Overlaps(y.trace, i, w, room)
    ensures !Torn(y.trace, i, room)
  {
    hide EntriesOk, Quiet, Overlaps, ResetsOk;
    var trace := y.trace;
    ResetsInOrder(y);
    EntryBefore(y, i);
    if ScoresDropped(trace, i, room) {
      var s :| i < s < |trace| && trace[s].DropScores? && trace[s].room == room;
      QuietDrop(y, trace[s].from, room);
      var h :| trace[s].from < h < |trace| && trace[h] == DropHistory(room, trace[s].from);
      assert s < h;
    } else if HistoryDropped(trace, i, room) {
      var h :| i < h < |trace| && trace[h].DropHistory? && trace[h].room == room;
      var w := trace[h].from;
      var s :| w < s < h && trace[..h][s] == DropScores(room, w);
      assert trace[s] == DropScores(room, w);
      assert s <= i;
      OverlapHere(trace, i, w, h, room);
      assert false;
    }
  }

  lemma OverlapHere(trace: seq<Event>, i: nat, w: nat, h: nat, room: string)
    requires i < |trace| && trace[i].Credit? && w < i && StartedAt(trace, w, room)
    requires trace[i].entered < h < |trace| && trace[h] == DropHistory(room, w)
    ensures Overlaps(trace, i, w, room)
  {
  }

  lemma ResetsInOrder(y: Sys)
    requires ResetsOk(y)
    ensures DropsInOrder(y.trace)
  {
  }

  lemma EntryBefore(y: Sys, i: nat)
    requires EntriesOk(y) && i < |y.trace| && y.trace[i].Credit?
    ensures y.trace[i].entered < i
  {
  }

  lemma QuietNotDangling(y: Sys, i: nat, room: string)
    requires ResetsOk(y) && EntriesOk(y) && Quiet(y) && i < |y.trace| && y.trace[i].Credit? && y.trace[i].key.0 == room
    requires forall w: nat :: !Overlaps(y.trace, i, w, room)
    ensures !Dangling(y.trace, i, room)
  {
    hide EntriesOk, Quiet, Overlaps, ResetsOk, Holder;
    var trace := y.trace;
    EntryBefore(y, i);
    if Dangling(trace, i, room) {
      var w :| trace[i].entered < w < |trace| && trace[w] == DropWinners(room);
      QuietDrop(y, w, room);
      var h :| w < h < |trace| && trace[h] == DropHistory(room, w);
      assert h <= i;
      OverlapHere(trace, i, w, h, room);
      assert false;
    }
  }

  // ---- What an overlap can leave behind ----

  /** A winning call that has only its credit to give. */
  predicate AboutToCredit(y: Sys, tid: Tid) {
    PcOf(y, tid).Looked? && PcOf(y, tid).won
  }

  /** The credit falls between the drops of scores and history: a score without a line. */
  lemma CreditBetweenDrops(y: Sys, t: Tid, u: Tid)
    requires AboutToCredit(y, t) && PcOf(y, u) == Idle && t != u && !Blank(PcOf(y, t).req.room)
    ensures var req := PcOf(y, t).req;
            var z := Step(Step(Step(Step(y, CallReset(u, req.room)), DropNext(u)), Finish(t)), DropNext(u));
            Score(z.state, req.room, req.player) == 1 && HistoryOf(z.state, req.room) == [] &&
            PcOf(z, t) == Idle && !RoomConsistent(z.state, req.room)
  {
    hide Blank;
    var req := PcOf(y, t).req;
    var a := Step(y, CallReset(u, req.room));
    assert PcOf(a, u) == Dropping(req.room, |y.trace|, 3) && PcOf(a, t) == PcOf(y, t);
    var b := Step(a, DropNext(u));
    assert PcOf(b, u) == Dropping(req.room, |y.trace|, 2) && PcOf(b, t) == PcOf(y, t);
    assert Score(b.state, req.room, req.player) == 0;
    var c := Step(b, Finish(t));
    CreditScores(b.state, req, PcOf(b, t).ms);
    assert PcOf(c, u) == PcOf(b, u) && c.state == Credited(b.state, req, PcOf(b, t).ms);
    var d := Step(c, DropNext(u));
    assert d.state == c.state.(history := c.state.history - {req.room});
    assert CountFor([], req.player) == 0;
  }

  lemma CreditScores(s: State, req: Request, ms: nat)
    ensures Score(Credited(s, req, ms), req.room, req.player) == Score(s, req.room, req.player) + 1
    ensures HasLine(Credited(s, req, ms), req.room, req.card, req.player)
    ensures Credited(s, req, ms).winners == s.winners
  {
    var h := HistoryOf(Credited(s, req, ms), req.room);
    assert h[|h| - 1] == Taken(req.card, req.player, ms);
  }

  /** The whole reset falls between entry and credit: a line whose card has no holder. */
  lemma CreditAfterReset(y: Sys, t: Tid, u: Tid)
    requires AboutToCredit(y, t) && PcOf(y, u) == Idle && t != u && !Blank(PcOf(y, t).req.room)
    ensures var req, d := PcOf(y, t).req, DropNext(u);
            var z := Step(After(Step(y, CallReset(u, req.room)), [d, d, d]), Finish(t));
            HasLine(z.state, req.room, req.card, req.player) && Held(z.state, KeyOf(req)).None? &&
            PcOf(z, t) == Idle && PcOf(z, u) == Idle && !RoomConsistent(z.state, req.room)
  {
    hide Blank, HasLine, Credited, CountFor;
    var req, d := PcOf(y, t).req, DropNext(u);
    ResetAlone(y, u, req.room);
    OthersWait(y, t, u, req.room);
    var x := After(Step(y, CallReset(u, req.room)), [d, d, d]);
    CreditScores(x.state, req, PcOf(x, t).ms);
  }

  lemma OthersWait(y: Sys, t: Tid, u: Tid, room: string)
    requires t != u
    ensures PcOf(After(Step(y, CallReset(u, room)), [DropNext(u), DropNext(u), DropNext(u)]), t) == PcOf(y, t)
  {
    hide Step, PcOf, After;
    var d := DropNext(u);
    var a := Step(y, CallReset(u, room));
    AfterThree(a, d, d, d);
    OneWaits(y, t, CallReset(u, room));
    OneWaits(a, t, d);
    OneWaits(Step(a, d), t, d);
    OneWaits(Step(Step(a, d), d), t, d);
  }

  lemma OneWaits(y: Sys, t: Tid, a: Action)
    requires (a.CallReset? || a.DropNext?) && a.tid != t
    ensures PcOf(Step(y, a), t) == PcOf(y, t)
  {
    hide Blank, OtherRooms;
  }

  /** A call on a free card gets there. */
  lemma AboutToCreditReached(req: Request, now: int, t: Tid)
    requires Check(req, now).None?
    ensures var y := After(Empty(), [CallJudge(t, req, now), Look(t)]);
            AboutToCredit(y, t) && PcOf(y, t).req == req && forall u | u != t :: PcOf(y, u) == Idle
  {
    hide Check;
    var a, b := CallJudge(t, req, now), Look(t);
    assert [a, b][1..] == [b] && [b][1..] == [];
    assert After(Empty(), [a, b]) == After(Step(Empty(), a), [b]);
    assert After(Step(Empty(), a), [b]) == After(Step(Step(Empty(), a), b), []);
  }
}
