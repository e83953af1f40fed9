/** When each request to a room is granted, what a grant changes, and how games end. */
module RoomAnswers {
  import opened MapSum
  import opened Options
  import opened Room
  import opened RoomRuns

  // ---- Granted exactly when ----

  /** Somebody gets in exactly if there is room and neither the process nor the name is there. */
  lemma JoinExactlyWhen(s: State, pid: Pid, name: string)
    ensures var out := Handle(s, Join(pid, name));
            (out.reply.Joined? <==>
               |s.players| < s.maxPlayers && forall p | p in s.players :: p.pid != pid && p.name != name) &&
            (out.reply.Joined? ==>
               out.state.players == s.players + [Player(pid, name)] && out.state.custom == s.custom &&
               out.state.status == s.status && out.state.scores == s.scores && out.state.foul == s.foul) &&
            (!out.reply.Joined? ==> out.state == s && out.sent == [])
  {
    hide Broadcast, Names;
    if HasPid(s.players, pid) {
      var i :| 0 <= i < |s.players| && s.players[i].pid == pid;
      assert s.players[i] in s.players;
    }
    if HasName(s.players, name) {
      var i :| 0 <= i < |s.players| && s.players[i].name == name;
      assert s.players[i] in s.players;
    }
  }

  /** A process that is not there leaves without effect. Of one that is, the player is taken out of the
      list and the rest keep their order; a new room stands in when nobody is left, and otherwise the
      first who stays is host and everything else is as before. */
  lemma LeaveExactlyWhen(s: State, k: nat, pid: Pid)
    requires Members(s)
    ensures (forall p | p in s.players :: p.pid != pid) ==>
              Handle(s, Leave(pid)).state == s && Handle(s, Leave(pid)).sent == []
    ensures k < |s.players| && s.players[k].pid == pid ==>
              var rest := s.players[..k] + s.players[k + 1..];
              var t := Handle(s, Leave(pid)).state;
              if rest == [] then t == Init(s.maxPlayers)
              else t == s.(players := rest, host := Some(rest[0].name))
  {
    hide Broadcast, Without;
    if HasPid(s.players, pid) {
      var i :| 0 <= i < |s.players| && s.players[i].pid == pid;
      assert s.players[i] in s.players;
    }
    if k < |s.players| && s.players[k].pid == pid {
      assert HasPid(s.players, pid);
      WithoutAt(s.players, k, pid);
      LeaveKeepsMembers(s, pid);
    }
  }

  lemma {:induction false} WithoutAt(players: seq<Player>, k: nat, pid: Pid)
    requires Distinct(players) && k < |players| && players[k].pid == pid
    ensures Without(players, pid) == players[..k] + players[k + 1..]
    decreases k
  {
    var rest := players[1..];
    if k == 0 {
      WithoutSub(rest, pid);
      assert forall j | 0 <= j < |rest| :: rest[j] == players[j + 1];
    } else {
      assert players[0].pid != pid;
      WithoutAt(rest, k - 1, pid);
      assert players[..k] + players[k + 1..] == [players[0]] + (rest[..k - 1] + rest[k..]);
    }
  }

  /** A game starts exactly from a waiting room with two players and two cards, on the first card,
      with everybody at 0, nobody barred and nothing taken. */
  lemma StartExactlyWhen(s: State, settings: Settings, cards: Deck)
    requires Inv(s)
    ensures var out := Handle(s, StartGame(settings, cards));
            var t := out.state;
            (out.reply == Done <==> s.status == Waiting && |s.players| >= 2 && |cards| >= 2) &&
            (out.reply == Done ==>
               t.status == Playing && t.cards == cards && t.settings == Some(settings) &&
               CardAt(t.cards, t.idx) == cards[0] &&
               t.taken == {} && t.foul == {} && !t.resolved && t.players == s.players &&
               forall name :: (name in t.scores <==> exists p | p in s.players :: p.name == name) &&
                              Get(t.scores, name) == 0) &&
            (out.reply != Done ==> t == s && out.sent == [])
  {
    hide Broadcast, Reading, Names;
  }

  /** A custom card is added exactly while the room waits and holds fewer than ten; it carries what
      was sent, its uploader and the next id, and everybody is told. */
  lemma AddExactlyWhen(s: State, name: string, fuda: string, yomi: string, image: string)
    ensures var out := Handle(s, AddCustom(name, fuda, yomi, image));
            (out.reply.CardAdded? <==> s.status == Waiting && |s.custom| < 10) &&
            (out.reply.CardAdded? ==>
               var card := out.reply.card;
               card.fuda == fuda && card.yomi == Some(yomi) && card.image == image && card.uploadedBy == Some(name) &&
               card.id == s.nextId && out.state == s.(custom := s.custom + [card], nextId := s.nextId + 1) &&
               |out.sent| == |s.players| &&
               forall i | 0 <= i < |s.players| :: out.sent[i] == Message(s.players[i].pid, CustomCardAdded(card))) &&
            (!out.reply.CardAdded? ==> out.state == s && out.sent == [])
  {
  }

  /** An attempt is passed on to the judge exactly if the card is the one being read and its
      player has not fouled on it; any other attempt in a game by such a player costs a point. */
  lemma AttemptExactlyWhen(s: State, id: int, name: string)
    requires Inv(s)
    ensures var out := Handle(s, AttemptTake(id, name));
            var current := s.status == Playing && s.cards[s.idx].Some? && s.cards[s.idx].value.id == id;
            (out.reply == Valid <==> current && name !in s.foul) &&
            (out.reply.Fouled? <==> s.status == Playing && !current && name !in s.foul) &&
            (out.reply.Fouled? ==>
               Get(out.state.scores, name) == Get(s.scores, name) - 1 && out.state.foul == s.foul + {name} &&
               out.state.taken == s.taken && out.state.idx == s.idx &&
               forall other | other != name :: Get(out.state.scores, other) == Get(s.scores, other)) &&
            (!out.reply.Fouled? ==> out.state == s && out.sent == [])
  {
    hide Broadcast;
  }

  /** The current card is read out exactly if a game is on and the card has a text. */
  lemma SpeakExactlyWhen(s: State)
    requires Inv(s)
    ensures var out := Handle(s, SpeakCard);
            (out.reply == Done <==>
               s.status == Playing && s.cards[s.idx].Some? && s.cards[s.idx].value.yomi.Some?) &&
            (out.reply == Done ==>
               |out.sent| == |s.players| &&
               forall i | 0 <= i < |s.players| ::
                 out.sent[i] == Message(s.players[i].pid,
                                        CardSpeak(s.cards[s.idx].value.id, s.cards[s.idx].value.yomi.value))) &&
            (out.reply != Done ==> out.sent == []) && out.state == s
  {
  }

  /** The clock ends a game under way, tells everybody the scores, and does nothing else. */
  lemma TimeUpExactlyWhen(s: State)
    ensures var out := Handle(s, TimeUp);
            out.state == (if s.status == Playing then s.(status := Finished) else s) &&
            (s.status != Playing ==> out.sent == []) &&
            (s.status == Playing ==>
               |out.sent| == |s.players| &&
               forall i | 0 <= i < |s.players| :: out.sent[i] == Message(s.players[i].pid, GameEnded(s.scores)))
  {
  }

  /** The number at which a game in count mode ends, if it is one. */
  function CountOf(s: State): Option<int> {
    if s.settings.Some? && s.settings.value.endMode == "count" then s.settings.value.endValue else None
  }

  /** A card not yet taken is credited in any game under way. The take ends the game exactly if
      it is the n-th or a later one in count mode with value n, and otherwise play goes on. */
  lemma TakeEndsExactlyWhen(s: State, id: int, name: string)
    requires Inv(s) && s.status == Playing && id !in s.taken
    ensures var out := Handle(s, TakeCard(id, name));
            var scores := s.scores[name := Get(s.scores, name) + 1];
            out.state.taken == s.taken + {id} && out.state.scores == scores && out.state.resolved &&
            (if s.settings.value.endMode == "count" && s.settings.value.endValue.Some? &&
                |s.taken| + 1 >= s.settings.value.endValue.value
             then out.reply == GameOver(scores) && out.state.status == Finished
             else out.reply == Took(scores) && out.state.status == Playing)
  {
    hide Broadcast;
  }

  lemma TakeRefusedExactlyWhen(s: State, id: int, name: string)
    ensures var out := Handle(s, TakeCard(id, name));
            (out.reply.Error? <==> s.status != Playing || id in s.taken) &&
            (out.reply.Error? ==> out.state == s && out.sent == [])
  {
    hide Broadcast;
  }

  // ---- How games end ----

  /** The three ends: the clock, a card asked for when all later ones are taken, the n-th take. */
  predicate EndsGame(s: State, c: Call) {
    s.status == Playing &&
    match c
    case TimeUp => true
    case NextCard => s.resolved && forall i | 0 <= i < |s.cards| && s.idx < i :: IsTaken(s.cards[i], s.taken)
    case TakeCard(id, _) => id !in s.taken && CountOf(s).Some? && |s.taken| + 1 >= CountOf(s).value
    case _ => false
  }

  lemma FinishesExactlyWhen(s: State, c: Call)
    requires Inv(s) && s.status != Finished
    ensures Handle(s, c).state.status == Finished <==> EndsGame(s, c)
  {
    hide Broadcast, HandleTake, HandleNext, IsTaken, Members, Customs;
    match c
    case TakeCard(id, name) =>
      if s.status == Playing && id !in s.taken {
        TakeEndsExactlyWhen(s, id, name);
      } else {
        TakeRefusedExactlyWhen(s, id, name);
      }
    case NextCard =>
      if s.resolved {
        NextFinishesExactlyWhen(s);
      } else {
        OpenStays(s);
      }
    case _ => OthersDoNotFinish(s, c);
  }

  lemma NextFinishesExactlyWhen(s: State)
    requires Inv(s) && s.resolved && s.status != Finished
    ensures s.status == Playing
    ensures Handle(s, NextCard).state.status == Finished <==>
            forall i | 0 <= i < |s.cards| && s.idx < i :: IsTaken(s.cards[i], s.taken)
  {
    hide Broadcast, IsTaken;
    var next := FindNext(s);
    if next.Some? {
      assert !IsTaken(s.cards[next.value], s.taken);
    }
  }

  lemma OpenStays(s: State)
    requires !s.resolved
    ensures Handle(s, NextCard).state == s
  {
  }

  lemma OthersDoNotFinish(s: State, c: Call)
    requires !c.TakeCard? && !c.NextCard? && s.status != Finished
    ensures Handle(s, c).state.status == Finished <==> c.TimeUp? && s.status == Playing
  {
    hide Broadcast, Without, NextHost, CurrentCardId, DropCard, FindCard, ZeroScores, Reading;
  }

  /** In one life, a finished game was ended by one of the three, and nothing was taken after. */
  lemma {:induction false} HowGamesEnd(s: State, calls: seq<Call>)
    requires Inv(s) && OneLife(s, calls) && s.status != Finished && After(s, calls).status == Finished
    ensures exists k | 0 <= k < |calls| ::
              EndsGame(After(s, calls[..k]), calls[k]) && After(s, calls[..k + 1]).taken == After(s, calls).taken
    decreases |calls|
  {
    hide Handle, Inv, EndsGame, Ends;
    var t, rest := Handle(s, calls[0]).state, calls[1..];
    InvStep(s, calls[0]);
    FinishesExactlyWhen(s, calls[0]);
    assert After(s, calls[..0]) == s && calls[..1][1..] == [] && After(s, calls[..1]) == t;
    if t.status == Finished {
      OnwardRun(t, rest);
      assert EndsGame(After(s, calls[..0]), calls[0]) && After(s, calls[..0 + 1]).taken == After(s, calls).taken;
    } else {
      HowGamesEnd(t, rest);
      var k :| 0 <= k < |rest| && EndsGame(After(t, rest[..k]), rest[k]) &&
               After(t, rest[..k + 1]).taken == After(t, rest).taken;
      assert calls[..k + 1][1..] == rest[..k] && calls[..k + 2][1..] == rest[..k + 1];
      assert EndsGame(After(s, calls[..k + 1]), calls[k + 1]) &&
             After(s, calls[..k + 1 + 1]).taken == After(s, calls).taken;
    }
  }

  /** A room in count mode that is finished with fewer than n cards taken was ended by the clock or
      by asking for a card when all later ones were taken. */
  lemma FinishedBelowCount(maxPlayers: nat, calls: seq<Call>)
    requires var s := After(Init(maxPlayers), calls);
             s.status == Finished && CountOf(s).Some? && |s.taken| < CountOf(s).value
    ensures var life := calls[LastLife(Init(maxPlayers), calls)..];
            exists k | 0 <= k < |life| ::
              (life[k].TimeUp? || life[k].NextCard?) && EndsGame(After(Init(maxPlayers), life[..k]), life[k])
  {
    hide After, EndsGame, CountOf, OneLife, Inv;
    var start := Init(maxPlayers);
    var life := calls[LastLife(start, calls)..];
    ReachedInOneLife(maxPlayers, calls);
    InitInv(maxPlayers);
    HowGamesEnd(start, life);
    var k :| 0 <= k < |life| && EndsGame(After(start, life[..k]), life[k]) &&
             After(start, life[..k + 1]).taken == After(start, life).taken;
    OneLifeSplits(start, life, k);
    InvRun(start, life[..k]);
    NotByTake(After(start, life[..k]), life[k], After(start, life));
  }

  lemma {:induction false} OneLifeSplits(s: State, calls: seq<Call>, k: nat)
    requires OneLife(s, calls) && k < |calls|
    ensures After(s, calls[..k + 1]) == Handle(After(s, calls[..k]), calls[k]).state
    ensures Onward(After(s, calls[..k + 1]), After(s, calls))
    decreases k
  {
    hide Handle, Ends, Onward;
    var t, rest := Handle(s, calls[0]).state, calls[1..];
    if k == 0 {
      assert calls[..0] == [] && calls[..1][1..] == [];
      assert After(s, calls[..0]) == s && After(s, calls[..1]) == After(t, calls[..1][1..]) == t;
      OnwardRun(t, rest);
    } else {
      assert calls[..k][1..] == rest[..k - 1] && calls[..k + 1][1..] == rest[..k];
      OneLifeSplits(t, rest, k - 1);
    }
  }

  lemma NotByTake(a: State, c: Call, s: State)
    requires Inv(a) && EndsGame(a, c) && Onward(Handle(a, c).state, s) && Handle(a, c).state.taken == s.taken
    requires CountOf(s).Some? && |s.taken| < CountOf(s).value
    ensures c.TimeUp? || c.NextCard?
  {
    hide Handle;
    if c.TakeCard? {
      TakeReachesCount(a, c);
    }
  }

  lemma TakeReachesCount(s: State, c: Call)
    requires Inv(s) && EndsGame(s, c) && c.TakeCard?
    ensures var t := Handle(s, c).state;
            t.status == Finished && t.settings == s.settings && CountOf(t).Some? && |t.taken| >= CountOf(t).value
  {
    hide Broadcast;
    TakeEndsExactlyWhen(s, c.cardId, c.name);
    assert |s.taken + {c.cardId}| == |s.taken| + 1;
  }
}
