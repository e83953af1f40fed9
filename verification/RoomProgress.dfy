/** Can somebody in the room still act on the card being read? Exactly until a leave after which
    everybody left has fouled. And what a settled card and an all-fouled one really mean. */
module RoomProgress {
  import opened Options
  import opened Room
  import opened RoomRuns

  /** A card is being read and nobody has settled it. */
  predicate Open(s: State) {
    s.status == Playing && !s.resolved
  }

  predicate SomeoneFree(s: State) {
    exists i | 0 <= i < |s.players| :: s.players[i].name !in s.foul
  }

  /** The card is open, and everybody in the room is barred from it. */
  predicate Stranded(s: State) {
    Open(s) && !SomeoneFree(s)
  }

  // ---- Without leaves ----

  predicate NoLeave(calls: seq<Call>) {
    forall i | 0 <= i < |calls| :: !calls[i].Leave?
  }

  /** An open card has fewer fouls than the room has players. */
  predicate FewFouls(s: State) {
    Open(s) ==> |s.foul| < |s.players|
  }

  lemma FewFoulsStep(s: State, c: Call)
    requires Inv(s) && FewFouls(s) && !c.Leave?
    ensures FewFouls(Handle(s, c).state)
  {
    hide Broadcast, FindFrom, CurrentCardId, DropCard, FindCard, ZeroScores, EndConditionMet;
  }

  lemma {:induction false} FewFoulsRun(s: State, calls: seq<Call>)
    requires Inv(s) && FewFouls(s) && NoLeave(calls)
    ensures FewFouls(After(s, calls))
    decreases |calls|
  {
    hide Inv, Handle, FewFouls;
    if calls != [] {
      InvStep(s, calls[0]);
      FewFoulsStep(s, calls[0]);
      assert forall i | 0 <= i < |calls[1..]| :: calls[1..][i] == calls[i + 1];
      FewFoulsRun(Handle(s, calls[0]).state, calls[1..]);
    }
  }

  function NameSet(players: seq<Player>): set<string> {
    set p | p in players :: p.name
  }

  lemma {:induction false} DistinctNames(players: seq<Player>)
    requires Distinct(players)
    ensures |NameSet(players)| == |players|
  {
    if players != [] {
      var rest := players[1..];
      assert forall i | 0 <= i < |rest| :: rest[i] == players[i + 1];
      DistinctNames(rest);
      NamesCons(players);
    }
  }

  lemma NamesCons(players: seq<Player>)
    requires Distinct(players) && players != []
    ensures NameSet(players) == NameSet(players[1..]) + {players[0].name} && players[0].name !in NameSet(players[1..])
  {
    assert players == [players[0]] + players[1..];
    forall p | p in players[1..]
      ensures p.name != players[0].name
    {
      var i :| 0 <= i < |players[1..]| && players[1..][i] == p;
      assert players[i + 1] == p;
    }
  }

  lemma {:induction false} SubsetSize<T>(a: set<T>, b: set<T>)
    requires a <= b
    ensures |a| <= |b|
    decreases a
  {
    if a != {} {
      var x :| x in a;
      SubsetSize(a - {x}, b - {x});
    }
  }

  /** In every run without a leave, an open card leaves at least one player in the room free to
      attempt it, whoever fouled. */
  lemma SomeoneCanAct(maxPlayers: nat, calls: seq<Call>)
    requires NoLeave(calls)
    ensures var s := After(Init(maxPlayers), calls); Open(s) ==> SomeoneFree(s)
  {
    hide After, NameSet;
    InitInv(maxPlayers);
    InvRun(Init(maxPlayers), calls);
    FewFoulsRun(Init(maxPlayers), calls);
    var s := After(Init(maxPlayers), calls);
    if Open(s) {
      FewFoulsFree(s);
    }
  }

  lemma NamesWithin(players: seq<Player>, foul: set<string>)
    requires forall i | 0 <= i < |players| :: players[i].name in foul
    ensures NameSet(players) <= foul
  {
  }

  // ---- With leaves ----

  /** What the people in a room can send about the game; nobody joins or leaves, and no take
      is on its way. */
  predicate FromInside(s: State, c: Call) {
    c.NextCard? || c.SpeakCard? || c.StartGame? || (c.AttemptTake? && HasName(s.players, c.name))
  }

  /** In a stranded room nothing the people in it can do changes anything. */
  lemma {:induction false} StrandedStays(s: State, calls: seq<Call>)
    requires Stranded(s) && forall i | 0 <= i < |calls| :: FromInside(s, calls[i])
    ensures After(s, calls) == s
    decreases |calls|
  {
    hide Broadcast, CurrentCardId, FindFrom;
    if calls != [] {
      assert FromInside(s, calls[0]);
      assert Handle(s, calls[0]).state == s;
      assert forall i | 0 <= i < |calls[1..]| :: calls[1..][i] == calls[i + 1];
      StrandedStays(s, calls[1..]);
    }
  }

  /** The only calls that strand a room: somebody leaves while a card is open, others stay, and
      every one of them has fouled. */
  predicate StrandingLeave(s: State, c: Call) {
    c.Leave? && Open(s) && HasPid(s.players, c.pid) && (exists p | p in s.players :: p.pid != c.pid) &&
    forall p | p in s.players && p.pid != c.pid :: p.name in s.foul
  }

  lemma LeaveStrandsExactlyWhen(s: State, pid: Pid)
    requires Inv(s) && !Stranded(s)
    ensures Stranded(HandleLeave(s, pid).state) <==> StrandingLeave(s, Leave(pid))
  {
    hide Broadcast, NextHost, Without;
    WithoutKeeps(s.players, pid);
    var rest := Without(s.players, pid);
    if HasPid(s.players, pid) && rest != [] {
      assert rest[0] in rest;
      forall i | 0 <= i < |rest|
        ensures rest[i] in s.players && rest[i].pid != pid
      {
        assert rest[i] in rest;
      }
    }
  }

  lemma StrandsExactlyWhen(s: State, c: Call)
    requires Inv(s) && !Stranded(s)
    ensures Stranded(Handle(s, c).state) <==> StrandingLeave(s, c)
  {
    hide Broadcast, FindFrom, CurrentCardId, DropCard, FindCard, ZeroScores, EndConditionMet;
    if c.Leave? {
      LeaveStrandsExactlyWhen(s, c.pid);
    } else {
      OthersDoNotStrand(s, c);
    }
  }

  lemma OthersDoNotStrand(s: State, c: Call)
    requires Inv(s) && !Stranded(s) && !c.Leave?
    ensures !Stranded(Handle(s, c).state)
  {
    hide Broadcast, FindFrom, CurrentCardId, DropCard, FindCard, ZeroScores, EndConditionMet;
    var t := Handle(s, c).state;
    match c
    case AttemptTake(_, name) =>
      if Open(t) && t != s {
        FewFoulsFree(t);
      }
    case Join(_, _) =>
      if SomeoneFree(s) {
        var i :| 0 <= i < |s.players| && s.players[i].name !in s.foul;
        assert t.players[i] == s.players[i];
      }
    case NextCard =>
      if t.foul == {} && t.players != [] {
        assert t.players[0].name !in t.foul;
      }
    case StartGame(_, _) =>
      if t != s {
        assert t.players[0].name !in t.foul;
      }
    case _ =>
  }

  lemma FewFoulsFree(s: State)
    requires Distinct(s.players) && |s.foul| < |s.players|
    ensures SomeoneFree(s)
  {
    if !SomeoneFree(s) {
      DistinctNames(s.players);
      NamesWithin(s.players, s.foul);
      SubsetSize(NameSet(s.players), s.foul);
      assert false;
    }
  }

  /** A run is ever stranded exactly if it ever has such a leave. */
  lemma {:induction false} StrandedRunExactlyWhen(s: State, calls: seq<Call>)
    requires Inv(s) && !Stranded(s)
    ensures (exists k | 0 <= k <= |calls| :: Stranded(After(s, calls[..k]))) <==>
            exists k | 0 <= k < |calls| :: StrandingLeave(After(s, calls[..k]), calls[k])
    decreases |calls|
  {
    hide Inv, Handle, Stranded, StrandingLeave;
    if calls == [] {
      assert forall k | 0 <= k <= |calls| :: calls[..k] == [];
    } else {
      var t, rest := Handle(s, calls[0]).state, calls[1..];
      InvStep(s, calls[0]);
      StrandsExactlyWhen(s, calls[0]);
      forall k | 0 < k <= |calls|
        ensures After(s, calls[..k]) == After(t, rest[..k - 1])
      {
        assert calls[..k][1..] == rest[..k - 1];
      }
      assert After(s, calls[..0]) == s;
      assert After(s, calls[..1]) == t;
      if StrandingLeave(s, calls[0]) {
        assert Stranded(After(s, calls[..1])) && StrandingLeave(After(s, calls[..0]), calls[0]);
      } else {
        StrandedRunExactlyWhen(t, rest);
        RunShifts(s, t, calls);
      }
    }
  }

  /** Both sides speak of the same moments, one call later. */
  lemma RunShifts(s: State, t: State, calls: seq<Call>)
    requires calls != [] && t == Handle(s, calls[0]).state && !Stranded(s) && !StrandingLeave(s, calls[0])
    ensures (exists k | 0 <= k <= |calls| :: Stranded(After(s, calls[..k]))) <==>
            exists k | 0 <= k <= |calls| - 1 :: Stranded(After(t, calls[1..][..k]))
    ensures (exists k | 0 <= k < |calls| :: StrandingLeave(After(s, calls[..k]), calls[k])) <==>
            exists k | 0 <= k < |calls| - 1 :: StrandingLeave(After(t, calls[1..][..k]), calls[1..][k])
  {
    hide Handle, Stranded, StrandingLeave;
    var rest := calls[1..];
    forall k | 0 < k <= |calls|
      ensures After(s, calls[..k]) == After(t, rest[..k - 1])
    {
      assert calls[..k][1..] == rest[..k - 1];
    }
    assert After(s, calls[..0]) == s;
    if k :| 0 <= k <= |calls| - 1 && Stranded(After(t, rest[..k])) {
      assert Stranded(After(s, calls[..k + 1]));
    }
    if k :| 0 <= k < |calls| - 1 && StrandingLeave(After(t, rest[..k]), rest[k]) {
      assert StrandingLeave(After(s, calls[..k + 1]), calls[k + 1]);
    }
    if k :| 0 <= k <= |calls| && Stranded(After(s, calls[..k])) {
      assert Stranded(After(t, rest[..k - 1]));
    }
    if k :| 0 <= k < |calls| && StrandingLeave(After(s, calls[..k]), calls[k]) {
      assert StrandingLeave(After(t, rest[..k - 1]), rest[k - 1]);
    }
  }

  /** Two players, one foul, and the other leaves: the card stays open with nobody to take it,
      because a leave does not ask again whether everybody left has fouled. */
  lemma FoulThenLeaveStrands(s: State, settings: Settings, cards: Deck, wrong: int)
    requires Inv(s) && s.status == Waiting && |s.players| == 2 && |cards| >= 2
    requires cards[0].Some? ==> cards[0].value.id != wrong
    ensures var foul, leave := AttemptTake(wrong, s.players[0].name), Leave(s.players[1].pid);
            Stranded(After(s, [StartGame(settings, cards), foul, leave]))
  {
    hide Broadcast, Reading, ZeroScores, Names;
    var a, b := s.players[0], s.players[1];
    var calls := [StartGame(settings, cards), AttemptTake(wrong, a.name), Leave(b.pid)];
    var s1 := Handle(s, calls[0]).state;
    var s2 := Handle(s1, calls[1]).state;
    assert s1.players == [a, b] && s2.players == [a, b] && s2.foul == {a.name};
    assert Without([a, b], b.pid) == [a] by {
      OtherStays(a, b);
    }
    assert calls[1..] == [calls[1], calls[2]] && calls[1..][1..] == [calls[2]];
    assert calls[2..][1..] == [];
    assert After(s, calls) == After(s1, calls[1..]);
    assert After(s1, calls[1..]) == After(s2, [calls[2]]);
    LastCall(s2, calls[2]);
    assert HasPid([a, b], b.pid) by {
      assert [a, b][1].pid == b.pid;
    }
  }

  lemma OtherStays(a: Player, b: Player)
    requires a.pid != b.pid
    ensures Without([a, b], b.pid) == [a]
  {
    assert [a, b][1..] == [b] && [b][1..] == [];
    assert Without([b], b.pid) == [];
  }

  lemma LastCall(s: State, c: Call)
    ensures After(s, [c]) == Handle(s, c).state
  {
    assert [c][1..] == [];
  }

  // ---- A settled card can become open again ----

  /** A settled card gives way to an open one by exactly two things: going on to the next card,
      and a first foul by somebody that still leaves fewer fouls than players. */
  lemma ReopensExactlyWhen(s: State, c: Call)
    requires Inv(s) && s.status == Playing && s.resolved
    ensures Open(Handle(s, c).state) <==>
            (c.NextCard? && exists i | s.idx < i < |s.cards| :: !IsTaken(s.cards[i], s.taken)) ||
            (c.AttemptTake? && c.name !in s.foul && CurrentCardId(s) != Some(c.cardId) && |s.foul| + 1 < |s.players|)
  {
    hide Broadcast, CurrentCardId, DropCard, FindCard, ZeroScores, EndConditionMet, IsTaken, Without;
    if c.NextCard? && FindNext(s).Some? {
      assert !IsTaken(s.cards[FindNext(s).value], s.taken);
    }
  }

  /** If that card was taken, it cannot be taken again: until somebody leaves or joins, only a
      foul of everybody, another card's late take or the clock moves the game on. */
  lemma ReopenedCardStaysOpen(s: State, c: Call)
    requires Inv(s) && Open(s) && IsTaken(CardAt(s.cards, s.idx), s.taken)
    requires !c.Join? && !c.Leave? && !c.TimeUp? && (c.TakeCard? ==> Some(c.cardId) == CurrentCardId(s))
    requires c.AttemptTake? ==> c.name in s.foul || |s.foul| + 1 < |s.players|
    ensures var t := Handle(s, c).state;
            Open(t) && t.idx == s.idx && t.taken == s.taken && t.players == s.players
  {
    hide Broadcast, DropCard, FindCard, ZeroScores, EndConditionMet, Without;
  }

  // ---- What all_fouled means ----

  predicate AllBarred(s: State) {
    forall p | p in s.players :: p.name in s.foul
  }

  /** The fouls of people who are not in the room. */
  function Strangers(s: State): set<string> {
    s.foul - NameSet(s.players)
  }

  /** all_fouled compares two numbers. Everybody present is barred exactly if the fouls of people
      who are gone are not needed to reach the number of players. */
  lemma AllFouledMeansAllBarredExactlyWhen(s: State, id: int, name: string)
    requires Inv(s) && s.status == Playing && HandleAttempt(s, id, name).reply.Fouled?
    ensures var t := HandleAttempt(s, id, name).state;
            (t.resolved <==> |t.foul| >= |t.players|) &&
            (AllBarred(t) <==> |t.foul| >= |t.players| + |Strangers(t)|) &&
            (AllBarred(t) ==> t.resolved)
  {
    hide Broadcast, CurrentCardId, Strangers, AllBarred, Distinct;
    var t := HandleAttempt(s, id, name).state;
    BarredByCounting(t);
  }

  lemma BarredByCounting(s: State)
    requires Distinct(s.players)
    ensures AllBarred(s) <==> |s.foul| >= |s.players| + |Strangers(s)|
    ensures AllBarred(s) ==> |s.foul| >= |s.players|
  {
    var names := NameSet(s.players);
    DistinctNames(s.players);
    assert s.foul == (s.foul * names) + Strangers(s) && (s.foul * names) !! Strangers(s);
    if AllBarred(s) {
      assert s.foul * names == names;
    } else {
      var p :| p in s.players && p.name !in s.foul;
      assert p.name in names && p.name !in s.foul * names;
      SubsetSize(s.foul * names, names - {p.name});
    }
  }

  /** Three players: one fouls and leaves, another fouls, and the card is settled although the
      third could still take it. */
  lemma DepartedFoulSettles(s: State, wrong: int)
    requires Inv(s) && s.status == Playing && s.foul == {} && |s.players| == 3 && CurrentCardId(s) != Some(wrong)
    ensures var calls := [AttemptTake(wrong, s.players[0].name), Leave(s.players[0].pid),
                          AttemptTake(wrong, s.players[1].name)];
            var t := After(s, calls);
            t.status == Playing && t.resolved && s.players[2] in t.players && s.players[2].name !in t.foul
  {
    hide Handle, CurrentCardId;
    var a, b, c := s.players[0], s.players[1], s.players[2];
    var calls := [AttemptTake(wrong, a.name), Leave(a.pid), AttemptTake(wrong, b.name)];
    var s1 := Handle(s, calls[0]).state;
    FoulStep(s, wrong, a.name);
    assert s1.players == [a, b, c];
    FirstGone(a, b, c);
    LeaveStep(s1, a.pid);
    var s2 := Handle(s1, calls[1]).state;
    FoulStep(s2, wrong, b.name);
    var s3 := Handle(s2, calls[2]).state;
    assert calls[1..] == [calls[1], calls[2]] && calls[1..][1..] == [calls[2]];
    assert After(s, calls) == After(s1, calls[1..]);
    assert After(s1, calls[1..]) == After(s2, [calls[2]]);
    LastCall(s2, calls[2]);
    assert s3.foul == {a.name, b.name} && s3.players[1] == c;
  }

  lemma FoulStep(s: State, id: int, name: string)
    requires s.status == Playing && name !in s.foul && CurrentCardId(s) != Some(id)
    ensures var t := Handle(s, AttemptTake(id, name)).state;
            t.status == Playing && t.players == s.players && t.foul == s.foul + {name} &&
            t.resolved == (|t.foul| >= |t.players|) && CurrentCardId(t) == CurrentCardId(s)
  {
    hide Broadcast;
  }

  lemma LeaveStep(s: State, pid: Pid)
    requires HasPid(s.players, pid) && Without(s.players, pid) != []
    ensures var t := Handle(s, Leave(pid)).state;
            t.status == s.status && t.players == Without(s.players, pid) && t.foul == s.foul &&
            CurrentCardId(t) == CurrentCardId(s)
  {
    hide Broadcast, NextHost, Without;
  }

  lemma FirstGone(a: Player, b: Player, c: Player)
    requires Distinct([a, b, c])
    ensures HasPid([a, b, c], a.pid) && NameOf([a, b, c], a.pid) == Some(a.name)
    ensures Without([a, b, c], a.pid) == [b, c]
  {
    var all := [a, b, c];
    assert all[0].pid == a.pid;
    assert all[0].pid != all[1].pid && all[0].pid != all[2].pid;
    assert all[1..] == [b, c] && [b, c][1..] == [c] && [c][1..] == [];
    assert Without([], a.pid) == [];
    assert Without([c], a.pid) == [c];
    assert Without([b, c], a.pid) == [b, c];
  }
}
