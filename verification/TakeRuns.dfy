/** Single cards in the take protocol: when one can still be taken, what a lost socket, a reset
    of the judge and a new life of the room leave behind. */
module TakeRuns {
  import opened Options
  import opened UInt32
  import opened Room
  import opened RoomRuns
  import Judge
  import opened TakeProtocol

  // ---- A card whose holder has gone ----

  /** The judge holds the card for a player, and nobody is on the way to take it. */
  predicate Abandoned(y: Sys, id: int, holder: string) {
    Holds(y, id, holder) && id !in y.room.taken &&
    forall sid | sid in y.pcs ::
      !(y.pcs[sid] == WantJudge(id, holder) && Accepts(y, id, holder)) &&
      !(y.pcs[sid].WantTake? && y.pcs[sid].id == id)
  }

  predicate HolderSilent(actions: seq<Action>, roomId: string, id: int, holder: string) {
    forall i | 0 <= i < |actions| ::
      actions[i] != Reset(roomId) && !(actions[i].Attempt? && actions[i].id == id && actions[i].name == holder)
  }

  lemma AbandonedStep(y: Sys, a: Action, id: int, holder: string)
    requires Abandoned(y, id, holder)
    requires a != Reset(y.roomId) && !(a.Attempt? && a.id == id && a.name == holder)
    ensures Abandoned(Step(y, a), id, holder)
  {
    hide Handle, Booked, Judge.NameOk, Judge.RoomOk;
    HoldsStays(y, a, id, holder);
    match a
    case Other(call) => TakenBy(y.room, call);
    case Attempt(_, i, name) => TakenBy(y.room, AttemptTake(i, name));
    case Take(sid) =>
      if PcOf(y, sid).WantTake? {
        TakenBy(y.room, TakeCard(PcOf(y, sid).id, PcOf(y, sid).name));
      }
    case _ =>
  }

  /** If the socket that won a card at the judge ends before it reports to the room, nobody
      else can ever take the card: it stays open until its holder tries again or the judge's
      room is reset. */
  lemma {:induction false} AbandonedCardStaysOpen(y: Sys, actions: seq<Action>, id: int, holder: string)
    requires Abandoned(y, id, holder) && HolderSilent(actions, y.roomId, id, holder)
    ensures id !in AfterAll(y, actions).room.taken
    decreases |actions|
  {
    hide Abandoned, Step;
    if actions == [] {
      AbandonedNotTaken(y, id, holder);
    } else {
      AbandonedStep(y, actions[0], id, holder);
      SameRoom(y, actions[0]);
      assert forall i | 0 <= i < |actions[1..]| :: actions[1..][i] == actions[i + 1];
      AbandonedCardStaysOpen(Step(y, actions[0]), actions[1..], id, holder);
    }
  }

  lemma AbandonedNotTaken(y: Sys, id: int, holder: string)
    requires Abandoned(y, id, holder)
    ensures id !in y.room.taken
  {
  }

  /** In a game under way, a card the judge holds for a player and the room has not credited can
      be taken without that player trying again, exactly if it is not abandoned. */
  lemma AbandonedExactlyWhen(y: Sys, id: int, holder: string)
    requires Holds(y, id, holder) && y.room.status == Playing && id !in y.room.taken
    ensures (exists actions ::
               HolderSilent(actions, y.roomId, id, holder) && id in AfterAll(y, actions).room.taken) <==>
            !Abandoned(y, id, holder)
  {
    hide AfterAll, HolderSilent, Step, Accepts;
    if Abandoned(y, id, holder) {
      forall actions | HolderSilent(actions, y.roomId, id, holder)
        ensures id !in AfterAll(y, actions).room.taken
      {
        AbandonedCardStaysOpen(y, actions, id, holder);
      }
    } else {
      var sid :| sid in y.pcs && ((y.pcs[sid] == WantJudge(id, holder) && Accepts(y, id, holder)) ||
                                  (y.pcs[sid].WantTake? && y.pcs[sid].id == id));
      if y.pcs[sid].WantTake? {
        TakeCredits(y, sid, id, y.pcs[sid].name);
        OneStep(y, Take(sid));
        Silent([Take(sid)], y.roomId, id, holder);
      } else {
        AskWins(y, sid, id, holder);
        TakeCredits(Step(y, Ask(sid, true)), sid, id, holder);
        TwoSteps(y, Ask(sid, true), Take(sid));
        Silent([Ask(sid, true), Take(sid)], y.roomId, id, holder);
      }
    }
  }

  lemma Silent(actions: seq<Action>, roomId: string, id: int, holder: string)
    requires forall i | 0 <= i < |actions| :: actions[i].Ask? || actions[i].Take?
    ensures HolderSilent(actions, roomId, id, holder)
  {
  }

  lemma OneStep(y: Sys, a: Action)
    ensures AfterAll(y, [a]) == Step(y, a)
  {
    hide Step;
    assert [a][1..] == [];
  }

  lemma TwoSteps(y: Sys, a: Action, b: Action)
    ensures AfterAll(y, [a, b]) == Step(Step(y, a), b)
  {
    hide Step;
    assert [a, b][1..] == [b];
    assert AfterAll(y, [a, b]) == AfterAll(Step(y, a), [b]);
    OneStep(Step(y, a), b);
  }

  /** The judge tells the holder, or the first to ask, that it won. */
  lemma AskWins(y: Sys, sid: Sid, id: int, name: string)
    requires PcOf(y, sid) == WantJudge(id, name) && Accepts(y, id, name)
    requires Holds(y, id, name) || (y.roomId, id as u32) !in y.winners
    ensures var z := Step(y, Ask(sid, true));
            PcOf(z, sid) == WantTake(id, name) && z.room == y.room && z.roomId == y.roomId && Holds(z, id, name)
  {
    hide Accepts;
    AcceptsU32(y, id, name);
  }

  lemma AcceptsU32(y: Sys, id: int, name: string)
    requires Accepts(y, id, name)
    ensures IsU32(id)
  {
  }

  lemma TakeCredits(y: Sys, sid: Sid, id: int, name: string)
    requires PcOf(y, sid) == WantTake(id, name) && y.room.status == Playing && id !in y.room.taken
    ensures var z := Step(y, Take(sid));
            id in z.room.taken && z.log == y.log + [Win(name, id)] && z.past == y.past && z.roomId == y.roomId
  {
    hide Broadcast, EndConditionMet;
  }

  /** A player who may still attempt the card being read, and whose name the judge accepts, takes
      it by the three steps exactly if the judge holds it for nobody or for that player. */
  lemma ThreeStepsTakeExactlyWhen(y: Sys, p: Player, id: int)
    requires Inv(y.room) && y.room.status == Playing && CurrentCardId(y.room) == Some(id) && id !in y.room.taken
    requires p in y.room.players && p.name !in y.room.foul && PcOf(y, p.pid) == Idle && Accepts(y, id, p.name)
    ensures var z := AfterAll(y, [Attempt(p.pid, id, p.name), Ask(p.pid, true), Take(p.pid)]);
            id in z.room.taken <==> ((y.roomId, id as u32) !in y.winners || Holds(y, id, p.name))
  {
    hide Accepts, CurrentCardId, Inv;
    AcceptsU32(y, id, p.name);
    var sid := p.pid;
    var y1 := Step(y, Attempt(sid, id, p.name));
    AttemptPasses(y, p, id);
    AfterThree(y, [Attempt(sid, id, p.name), Ask(sid, true), Take(sid)]);
    var y2 := Step(y1, Ask(sid, true));
    if (y.roomId, id as u32) !in y.winners || Holds(y, id, p.name) {
      AskWins(y1, sid, id, p.name);
      TakeCredits(y2, sid, id, p.name);
    } else {
      AskLoses(y1, sid, id, p.name);
    }
  }

  lemma AttemptPasses(y: Sys, p: Player, id: int)
    requires y.room.status == Playing && CurrentCardId(y.room) == Some(id)
    requires p in y.room.players && p.name !in y.room.foul && PcOf(y, p.pid) == Idle
    ensures var z := Step(y, Attempt(p.pid, id, p.name));
            PcOf(z, p.pid) == WantJudge(id, p.name) && z.room == y.room && z.winners == y.winners &&
            z.roomId == y.roomId && (Accepts(z, id, p.name) <==> Accepts(y, id, p.name))
  {
    hide Booked, CurrentCardId;
  }

  lemma AskLoses(y: Sys, sid: Sid, id: int, name: string)
    requires PcOf(y, sid) == WantJudge(id, name) && IsU32(id)
    requires (y.roomId, id as u32) in y.winners && y.winners[(y.roomId, id as u32)] != name
    ensures Step(Step(y, Ask(sid, true)), Take(sid)).room == y.room
  {
    hide Accepts;
  }

  /** The last leave starts the room afresh while the judge keeps its entries: every card it
      holds for the room id is abandoned from the start. */
  lemma NewLifeAbandons(y: Sys, c: Call, id: int, holder: string)
    requires RoomSafe(y) && Ends(y.room, c) && PcOf(y, c.pid) == Idle && Holds(y, id, holder)
    ensures Abandoned(Step(y, Other(c)), id, holder) && Step(y, Other(c)).room == Init(y.room.maxPlayers)
  {
    hide Inv, Balanced, WasRead, Accepts, Booked;
    EndsInInit(y.room, c);
    forall sid | sid in y.pcs
      ensures y.pcs[sid] == Idle
    {
      if y.pcs[sid] != Idle {
        MembersStay(y.room, c, Player(sid, y.pcs[sid].name));
        assert false;
      }
    }
  }

  // ---- What a reset and a lost socket can do, on concrete runs ----

  function Deck2(): Deck {
    [Some(Card(7, "", Some(""), "", None)), Some(Card(8, "", Some(""), "", None))]
  }

  function Opening(): Sys {
    Sys("R", Init(2), map[], map[], [], [])
  }

  /** Two players, two cards, and player "a" told by the judge that card 7 is theirs. */
  function Prelude(): seq<Action> {
    [Other(Join(1, "a")), Other(Join(2, "b")), Other(StartGame(Settings("ai", "a", "count", Some(5)), Deck2())),
     Attempt(1, 7, "a"), Ask(1, true)]
  }

  lemma {:induction false} AfterConcat(y: Sys, a: seq<Action>, b: seq<Action>)
    ensures AfterAll(y, a + b) == AfterAll(AfterAll(y, a), b)
    decreases |a|
  {
    hide Step;
    if a == [] {
      assert a + b == b;
    } else {
      assert (a + b)[1..] == a[1..] + b;
      AfterConcat(Step(y, a[0]), a[1..], b);
    }
  }

  function Members2(): seq<Player> {
    [Player(1, "a"), Player(2, "b")]
  }

  function Waiting2(): State {
    Init(2).(players := Members2(), host := Some("a"))
  }

  function Playing2(): State {
    Waiting2().(status := Playing, settings := Some(Settings("ai", "a", "count", Some(5))), cards := Deck2(), idx := 0,
                scores := ZeroScores(Members2()))
  }

  lemma TwoJoin()
    ensures Step(Step(Opening(), Prelude()[0]), Prelude()[1]) == Opening().(room := Waiting2())
  {
    hide Broadcast, Names;
    var y := Step(Opening(), Prelude()[0]);
    assert y.log == [];
    assert y.room == Init(2).(players := [Player(1, "a")], host := Some("a"));
  }

  lemma Starts()
    ensures Step(Opening().(room := Waiting2()), Prelude()[2]) == Opening().(room := Playing2())
  {
    hide Broadcast, Names, Reading, ZeroScores;
  }

  lemma Attempts()
    ensures var y := Opening().(room := Playing2()); Step(y, Prelude()[3]) == Goto(y, 1, WantJudge(7, "a"))
  {
    hide Broadcast, ZeroScores;
    assert CurrentCardId(Playing2()) == Some(7);
  }

  lemma ShortNames()
    ensures Judge.RoomOk("R") && Judge.NameOk("a")
    ensures forall y: Sys | y.roomId == "R" :: Accepts(y, 7, "a")
  {
    assert !Judge.IsSpace("R"[0]) && !Judge.IsSpace("a"[0]);
    assert "R"[1..] == "" && "a"[1..] == "";
    assert Judge.ByteLen("R") == 1 + Judge.ByteLen("") && Judge.ByteLen("a") == 1 + Judge.ByteLen("");
  }

  lemma PreludeReaches()
    ensures AfterAll(Opening(), Prelude()) ==
            Sys("R", Playing2(), map[("R", 7 as u32) := "a"], map[1 := WantTake(7, "a")], [], [])
  {
    hide Playing2, Waiting2, Step, PcOf;
    PreludeUnrolled(Opening(), Prelude());
    TwoJoin();
    Starts();
    Attempts();
    AsksAndWins(Opening().(room := Playing2()));
  }

  lemma AsksAndWins(y: Sys)
    requires y.roomId == "R" && y.winners == map[] && y.pcs == map[]
    ensures Step(Goto(y, 1, WantJudge(7, "a")), Prelude()[4]) ==
            y.(winners := map[("R", 7 as u32) := "a"], pcs := map[1 := WantTake(7, "a")])
  {
    hide Accepts, Deck2;
    ShortNames();
    assert map[1 := WantJudge(7, "a")][1 := WantTake(7, "a")] == map[1 := WantTake(7, "a")];
  }

  lemma LastStep(y: Sys, t: seq<Action>)
    requires |t| == 1
    ensures AfterAll(y, t) == Step(y, t[0])
  {
    assert t[1..] == [];
  }

  lemma PreludeUnrolled(y: Sys, p: seq<Action>)
    requires |p| == 5
    ensures AfterAll(y, p) == Step(Step(Step(Step(Step(y, p[0]), p[1]), p[2]), p[3]), p[4])
  {
    hide Step;
    var y1 := Step(y, p[0]);
    var y2 := Step(y1, p[1]);
    var y3 := Step(y2, p[2]);
    var y4 := Step(y3, p[3]);
    assert AfterAll(y, p) == AfterAll(y1, p[1..]);
    assert p[1..][1..] == p[2..];
    assert AfterAll(y1, p[1..]) == AfterAll(y2, p[2..]);
    assert p[2..][1..] == p[3..];
    assert AfterAll(y2, p[2..]) == AfterAll(y3, p[3..]);
    assert p[3..][1..] == p[4..];
    assert AfterAll(y3, p[3..]) == AfterAll(y4, p[4..]);
    LastStep(y4, p[4..]);
  }

  /** From any state with a socket about to take: the room credits it, and after a reset the
      judge can give the same card to somebody else. */
  lemma ResetThenOther(y: Sys, sid: Sid, id: int, name: string, other: string)
    requires PcOf(y, sid) == WantTake(id, name) && IsU32(id) && y.room.status == Playing
    requires id !in y.room.taken && !Judge.Blank(y.roomId)
    ensures var z := AfterAll(y, [Take(sid), Reset(y.roomId), OtherJudge((y.roomId, id as u32), other)]);
            Win(name, id) in z.log && Holds(z, id, other)
  {
    var tail := [Take(sid), Reset(y.roomId), OtherJudge((y.roomId, id as u32), other)];
    assert tail[1..] == [tail[1], tail[2]] && tail[1..][1..] == [tail[2]];
    var y1 := Step(y, tail[0]);
    TakeCredits(y, sid, id, name);
    ResetClears(y1, id);
    AfterThree(y, tail);
  }

  lemma ResetClears(y: Sys, id: int)
    requires IsU32(id) && !Judge.Blank(y.roomId)
    ensures var z := Step(y, Reset(y.roomId));
            (y.roomId, id as u32) !in z.winners && z.log == y.log && z.roomId == y.roomId
  {
  }

  lemma AfterThree(y: Sys, t: seq<Action>)
    requires |t| == 3
    ensures AfterAll(y, t) == Step(Step(Step(y, t[0]), t[1]), t[2])
  {
    hide Step;
    var y1 := Step(y, t[0]);
    assert AfterAll(y, t) == AfterAll(y1, t[1..]);
    assert t[1..][1..] == t[2..];
    assert AfterAll(y1, t[1..]) == AfterAll(Step(y1, t[1]), t[2..]);
    LastStep(Step(y1, t[1]), t[2..]);
  }

  /** So the condition of CreditedToHolder cannot be dropped. (The room still credits the card once.) */
  lemma ResetBreaksHolder()
    ensures Fresh(Opening())
    ensures exists actions :: var z := AfterAll(Opening(), actions); Win("a", 7) in z.log && Holds(z, 7, "b")
  {
    hide AfterAll, Step, Holds, Deck2;
    PreludeReaches();
    var tail := [Take(1), Reset("R"), OtherJudge(("R", 7 as u32), "b")];
    assert !Judge.IsSpace("R"[0]);
    ResetThenOther(AfterAll(Opening(), Prelude()), 1, 7, "a", "b");
    AfterConcat(Opening(), Prelude(), tail);
    assert Opening().room == Init(2);
    assert Win("a", 7) in AfterAll(Opening(), Prelude() + tail).log;
  }

  lemma NothingTakenYet()
    ensures Playing2().taken == {}
  {
  }

  /** A socket lost between its two calls leaves such a card behind. */
  lemma AbandonmentHappens()
    ensures Abandoned(AfterAll(Opening(), Prelude() + [Die(1)]), 7, "a") && Fresh(Opening())
  {
    hide AfterAll, Playing2;
    PreludeReaches();
    var y := AfterAll(Opening(), Prelude());
    AfterConcat(Opening(), Prelude(), [Die(1)]);
    LastStep(y, [Die(1)]);
    assert Opening().room == Init(2);
    NothingTakenYet();
  }
}
