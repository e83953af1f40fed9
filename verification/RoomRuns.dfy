/** What every run of a room keeps: membership and host, the life cycle, the score ledger,
    custom card ids. */
module RoomRuns {
  import opened MapSum
  import opened Options
  import opened Room

  // ---- The invariant ----

  predicate Distinct(players: seq<Player>) {
    forall i, j | 0 <= i < j < |players| :: players[i].pid != players[j].pid && players[i].name != players[j].name
  }

  /** The host is the player who has been in the room longest. */
  predicate HostIsFirst(s: State) {
    s.host == if s.players == [] then None else Some(s.players[0].name)
  }

  predicate Members(s: State) {
    Distinct(s.players) && |s.players| <= s.maxPlayers && HostIsFirst(s)
  }

  /** Ids increase along the list and stay below the next one to be given out. */
  predicate CustomsIn(cards: seq<Card>, nextId: int) {
    (forall i | 0 <= i < |cards| :: CUSTOM_ID_BASE <= cards[i].id < nextId) &&
    (forall i, j | 0 <= i < j < |cards| :: cards[i].id < cards[j].id)
  }

  predicate Customs(s: State) {
    CUSTOM_ID_BASE <= s.nextId && |s.custom| <= CUSTOM_CARD_MAX && CustomsIn(s.custom, s.nextId)
  }

  predicate Unstarted(s: State) {
    s.idx == -1 && s.cards == [] && s.taken == {} && s.scores == map[] && s.foul == {} && !s.resolved &&
    s.settings.None?
  }

  /** In count mode at most max(n, 1) cards are ever taken, and fewer while play goes on. */
  predicate WithinCount(s: State) {
    match s.settings
    case Some(Settings(_, _, "count", Some(n))) =>
      |s.taken| <= (if n < 1 then 1 else n) && (s.status == Playing ==> |s.taken| == 0 || |s.taken| < n)
    case _ => true
  }

  predicate Play(s: State) {
    if s.status == Waiting then Unstarted(s)
    else s.players != [] && 0 <= s.idx < |s.cards| && s.settings.Some? && WithinCount(s)
  }

  predicate Inv(s: State) {
    Members(s) && Customs(s) && Play(s)
  }

  lemma InitInv(maxPlayers: nat)
    ensures Inv(Init(maxPlayers))
  {
  }

  // ---- Membership ----

  lemma {:induction false} WithoutKeeps(players: seq<Player>, pid: Pid)
    ensures |Without(players, pid)| <= |players|
    ensures forall p :: p in Without(players, pid) <==> p in players && p.pid != pid
  {
    if players != [] {
      WithoutKeeps(players[1..], pid);
      assert players == [players[0]] + players[1..];
    }
  }

  lemma {:induction false} WithoutNobody(players: seq<Player>, pid: Pid)
    requires !HasPid(players, pid)
    ensures Without(players, pid) == players
  {
    if players != [] {
      assert players[0].pid != pid;
      assert forall i | 0 <= i < |players[1..]| :: players[1..][i] == players[i + 1];
      WithoutNobody(players[1..], pid);
    }
  }

  lemma {:induction false} WithoutDistinct(players: seq<Player>, pid: Pid)
    requires Distinct(players)
    ensures Distinct(Without(players, pid))
  {
    if players != [] {
      var rest := players[1..];
      assert forall i | 0 <= i < |rest| :: rest[i] == players[i + 1];
      WithoutDistinct(rest, pid);
      WithoutKeeps(rest, pid);
      var w := Without(rest, pid);
      forall j | 0 <= j < |w|
        ensures players[0].pid != w[j].pid && players[0].name != w[j].name
      {
        assert w[j] in rest;
      }
    }
  }

  lemma WithoutSub(players: seq<Player>, pid: Pid)
    ensures |Without(players, pid)| <= |players|
    ensures forall p :: p in Without(players, pid) <==> p in players && p.pid != pid
    ensures !HasPid(players, pid) ==> Without(players, pid) == players
    ensures Distinct(players) ==> Distinct(Without(players, pid))
  {
    hide Without, Distinct, HasPid;
    WithoutKeeps(players, pid);
    if !HasPid(players, pid) {
      WithoutNobody(players, pid);
    }
    if Distinct(players) {
      WithoutDistinct(players, pid);
    }
  }

  /** Removing somebody else keeps the first player first. */
  lemma WithoutFirst(players: seq<Player>, pid: Pid)
    requires players != [] && players[0].pid != pid
    ensures Without(players, pid) != [] && Without(players, pid)[0] == players[0]
  {
  }

  lemma WhoLeaves(players: seq<Player>, pid: Pid)
    requires HasPid(players, pid) && Distinct(players)
    ensures players[0].pid == pid <==> players[0].name == NameOf(players, pid).value
  {
  }

  lemma LeaveKeepsMembers(s: State, pid: Pid)
    requires Members(s)
    ensures Members(HandleLeave(s, pid).state)
  {
    if HasPid(s.players, pid) {
      WithoutSub(s.players, pid);
      WhoLeaves(s.players, pid);
      if s.players[0].pid != pid {
        WithoutFirst(s.players, pid);
      }
    }
  }

  lemma JoinKeepsMembers(s: State, pid: Pid, name: string)
    requires Members(s)
    ensures Members(HandleJoin(s, pid, name).state)
  {
  }

  // ---- Custom cards ----

  lemma {:induction false} DropFilters(cards: seq<Card>, id: int)
    ensures |DropCard(cards, id)| <= |cards|
    ensures forall c :: c in DropCard(cards, id) <==> c in cards && c.id != id
  {
    if cards != [] {
      DropFilters(cards[1..], id);
      assert cards == [cards[0]] + cards[1..];
    }
  }

  lemma CustomsCons(c: Card, cards: seq<Card>, nextId: int)
    requires CustomsIn(cards, nextId) && CUSTOM_ID_BASE <= c.id < nextId && forall x | x in cards :: c.id < x.id
    ensures CustomsIn([c] + cards, nextId)
  {
    forall j | 0 <= j < |cards|
      ensures c.id < cards[j].id
    {
      assert cards[j] in cards;
    }
  }

  lemma CustomsTail(cards: seq<Card>, nextId: int)
    requires CustomsIn(cards, nextId) && cards != []
    ensures CustomsIn(cards[1..], nextId) && forall x | x in cards[1..] :: cards[0].id < x.id
  {
    assert forall i | 0 <= i < |cards[1..]| :: cards[1..][i] == cards[i + 1];
  }

  lemma {:induction false} DropKeeps(cards: seq<Card>, id: int, nextId: int)
    requires CustomsIn(cards, nextId)
    ensures CustomsIn(DropCard(cards, id), nextId) && |DropCard(cards, id)| <= |cards|
  {
    DropFilters(cards, id);
    if cards != [] {
      var first := cards[0];
      assert CUSTOM_ID_BASE <= first.id < nextId;
      hide CustomsIn;
      CustomsTail(cards, nextId);
      DropKeeps(cards[1..], id, nextId);
      DropFilters(cards[1..], id);
      if first.id != id {
        CustomsCons(first, DropCard(cards[1..], id), nextId);
      }
    }
  }

  lemma CustomsKept(s: State, c: Call)
    requires Customs(s)
    ensures Customs(Handle(s, c).state)
  {
    match c
    case RemoveCustom(_, id) => DropKeeps(s.custom, id, s.nextId);
    case _ =>
  }

  lemma {:induction false} DropAbsent(cards: seq<Card>, id: int)
    requires forall i | 0 <= i < |cards| :: cards[i].id != id
    ensures DropCard(cards, id) == cards
  {
    if cards != [] {
      assert forall i | 0 <= i < |cards[1..]| :: cards[1..][i] == cards[i + 1];
      DropAbsent(cards[1..], id);
    }
  }

  lemma {:induction false} DropLast(cards: seq<Card>, card: Card)
    requires forall i | 0 <= i < |cards| :: cards[i].id != card.id
    ensures DropCard(cards + [card], card.id) == cards
  {
    if cards == [] {
      assert (cards + [card])[1..] == [];
    } else {
      assert forall i | 0 <= i < |cards[1..]| :: cards[1..][i] == cards[i + 1];
      assert (cards + [card])[1..] == cards[1..] + [card];
      DropLast(cards[1..], card);
    }
  }

  /** The player who added a card can take it back, and all that remains is the used id. */
  lemma AddThenRemove(s: State, name: string, fuda: string, yomi: string, image: string)
    requires Inv(s) && Handle(s, AddCustom(name, fuda, yomi, image)).reply.CardAdded?
    ensures var out := Handle(s, AddCustom(name, fuda, yomi, image));
            var back := Handle(out.state, RemoveCustom(name, out.reply.card.id));
            back.reply == Done && back.state == s.(nextId := s.nextId + 1)
  {
    hide Broadcast, DropCard;
    var out := Handle(s, AddCustom(name, fuda, yomi, image));
    var card := out.reply.card;
    DropLast(s.custom, card);
    var found := FindCard(out.state.custom, card.id);
    assert out.state.custom[|s.custom|] == card;
  }

  /** A card is removed exactly if it is there, the game has not started, and its uploader or
      the host asks; then that card and no other goes. */
  lemma RemoveExactlyWhen(s: State, name: string, id: int)
    requires Inv(s)
    ensures var out := Handle(s, RemoveCustom(name, id));
            (out.reply == Done <==>
               s.status == Waiting &&
               exists c | c in s.custom :: c.id == id && (c.uploadedBy == Some(name) || s.host == Some(name))) &&
            (out.reply == Done ==> forall c :: c in out.state.custom <==> c in s.custom && c.id != id) &&
            (out.reply != Done ==> out.state == s)
  {
    hide Broadcast, DropCard;
    DropFilters(s.custom, id);
    var found := FindCard(s.custom, id);
    forall c | c in s.custom && c.id == id
      ensures found == Some(c)
    {
      var i :| 0 <= i < |s.custom| && s.custom[i] == c;
      var j :| 0 <= j < |s.custom| && s.custom[j] == found.value;
    }
  }

  // ---- Every handler keeps the invariant ----

  lemma MembersKept(s: State, c: Call)
    requires Members(s)
    ensures Members(Handle(s, c).state)
  {
    match c
    case Join(pid, name) => JoinKeepsMembers(s, pid, name);
    case Leave(pid) => LeaveKeepsMembers(s, pid);
    case _ =>
  }

  lemma TakeKeepsPlay(s: State, id: int, name: string)
    requires Play(s)
    ensures Play(HandleTake(s, id, name).state)
  {
    hide Broadcast;
  }

  lemma PlayKept(s: State, c: Call)
    requires Play(s)
    ensures Play(Handle(s, c).state)
  {
    hide Broadcast, EndConditionMet, Reading, ZeroScores, Without, NextHost;
    match c
    case TakeCard(id, name) => TakeKeepsPlay(s, id, name);
    case _ =>
  }

  lemma InvStep(s: State, c: Call)
    requires Inv(s)
    ensures Inv(Handle(s, c).state)
  {
    MembersKept(s, c);
    CustomsKept(s, c);
    PlayKept(s, c);
  }

  lemma {:induction false} InvRun(s: State, calls: seq<Call>)
    requires Inv(s)
    ensures Inv(After(s, calls))
    decreases |calls|
  {
    hide Inv, Handle;
    if calls != [] {
      InvStep(s, calls[0]);
      InvRun(Handle(s, calls[0]).state, calls[1..]);
    }
  }

  // ---- The life cycle ----

  function Rank(status: Status): nat {
    match status
    case Waiting => 0
    case Playing => 1
    case Finished => 2
  }

  /** t may follow s: the status never goes back; the deck and the settings are fixed by the
      start; the index and the taken set only grow; scores and taken cards freeze at the end. */
  predicate Onward(s: State, t: State) {
    Rank(s.status) <= Rank(t.status) && s.nextId <= t.nextId &&
    (s.status != Waiting ==> t.cards == s.cards && t.settings == s.settings && s.idx <= t.idx && s.taken <= t.taken) &&
    (s.status == Finished ==> t.scores == s.scores && t.taken == s.taken)
  }

  lemma OnwardStep(s: State, c: Call)
    requires !Ends(s, c)
    ensures Onward(s, Handle(s, c).state)
  {
    hide Broadcast, EndConditionMet, Without, NextHost, CurrentCardId, DropCard, FindCard, ZeroScores, Reading;
  }

  /** The calls up to the end of a run reach one and the same room process. */
  predicate OneLife(s: State, calls: seq<Call>)
    decreases |calls|
  {
    calls == [] || (!Ends(s, calls[0]) && OneLife(Handle(s, calls[0]).state, calls[1..]))
  }

  /** Where the last life of a run begins. */
  function LastLife(s: State, calls: seq<Call>): (k: nat)
    ensures k <= |calls|
    decreases |calls|
  {
    if calls == [] || OneLife(s, calls) then 0 else 1 + LastLife(Handle(s, calls[0]).state, calls[1..])
  }

  lemma EndsInInit(s: State, c: Call)
    requires Ends(s, c)
    ensures Handle(s, c).state == Init(s.maxPlayers)
  {
  }

  lemma MaxKept(s: State, c: Call)
    ensures Handle(s, c).state.maxPlayers == s.maxPlayers
  {
    hide Broadcast, EndConditionMet, Without, NextHost, CurrentCardId, DropCard, FindCard, ZeroScores, Reading;
  }

  lemma {:induction false} LastLifeReaches(s: State, calls: seq<Call>)
    requires !OneLife(s, calls)
    ensures var rest := calls[LastLife(s, calls)..];
            OneLife(Init(s.maxPlayers), rest) && After(s, calls) == After(Init(s.maxPlayers), rest)
    decreases |calls|
  {
    hide Handle, Ends;
    var t := Handle(s, calls[0]).state;
    MaxKept(s, calls[0]);
    if OneLife(t, calls[1..]) {
      EndsInInit(s, calls[0]);
      assert LastLife(t, calls[1..]) == 0;
    } else {
      LastLifeReaches(t, calls[1..]);
      assert calls[1..][LastLife(t, calls[1..])..] == calls[LastLife(s, calls)..];
    }
  }

  /** Every reachable state is reached from a new room within one life of it: what holds of one
      life holds of every reachable state. */
  lemma ReachedInOneLife(maxPlayers: nat, calls: seq<Call>)
    ensures var rest := calls[LastLife(Init(maxPlayers), calls)..];
            OneLife(Init(maxPlayers), rest) && After(Init(maxPlayers), calls) == After(Init(maxPlayers), rest)
  {
    hide After, OneLife;
    if OneLife(Init(maxPlayers), calls) {
      assert calls[0..] == calls;
    } else {
      LastLifeReaches(Init(maxPlayers), calls);
    }
  }

  lemma {:induction false} OnwardRun(s: State, calls: seq<Call>)
    requires OneLife(s, calls)
    ensures Onward(s, After(s, calls))
    decreases |calls|
  {
    hide Handle;
    if calls != [] {
      OnwardStep(s, calls[0]);
      OnwardRun(Handle(s, calls[0]).state, calls[1..]);
    }
  }

  /** Only start_game leaves waiting, and only with two players and two cards. */
  lemma StartsByStartGame(s: State, c: Call)
    requires Inv(s) && s.status == Waiting && Handle(s, c).state.status != Waiting
    ensures c.StartGame? && Handle(s, c).reply == Done && |s.players| >= 2 && |c.cards| >= 2
    ensures Handle(s, c).state.status == Playing
  {
  }

  /** next_card checks no status, yet it cannot act in any reachable state before the start. */
  lemma NoNextBeforeStart(maxPlayers: nat, calls: seq<Call>)
    requires After(Init(maxPlayers), calls).status == Waiting
    ensures var s := After(Init(maxPlayers), calls); Handle(s, NextCard).reply.Error? && Handle(s, NextCard).state == s
  {
    hide After;
    InitInv(maxPlayers);
    InvRun(Init(maxPlayers), calls);
  }

  /** A successful next_card steps over taken cards only, to the first card not taken; it ends
      the game exactly when every later card is taken. */
  lemma NextSkipsTaken(s: State)
    requires Inv(s) && s.resolved
    ensures var t := Handle(s, NextCard);
            if forall i | s.idx < i < |s.cards| :: IsTaken(s.cards[i], s.taken) then
              t.reply == GameOver(s.scores) && t.state == s.(status := Finished)
            else
              t.reply == Done && s.idx < t.state.idx < |s.cards| && !IsTaken(s.cards[t.state.idx], s.taken) &&
              !t.state.resolved && t.state.foul == {} &&
              forall i | s.idx < i < t.state.idx :: IsTaken(s.cards[i], s.taken)
  {
    assert s.status != Waiting;
    var next := FindNext(s);
    if next.Some? {
      assert !IsTaken(s.cards[next.value], s.taken);
      assert HandleNext(s).reply == Done;
    } else {
      assert HandleNext(s) == Finish(s);
    }
  }

  function Max0(n: int): nat {
    if n < 0 then 0 else n
  }

  /** How many next_card calls of a run succeeded. */
  function Nexts(s: State, calls: seq<Call>): nat
    decreases |calls|
  {
    if calls == [] then 0
    else
      var out := Handle(s, calls[0]);
      (if calls[0].NextCard? && out.reply == Done then 1 else 0) + Nexts(out.state, calls[1..])
  }

  lemma {:induction false} NextsRaiseIndex(s: State, calls: seq<Call>)
    requires Inv(s) && OneLife(s, calls)
    ensures Max0(s.idx) + Nexts(s, calls) <= Max0(After(s, calls).idx)
    decreases |calls|
  {
    hide Inv, Handle;
    if calls != [] {
      InvStep(s, calls[0]);
      NextRaises(s, calls[0]);
      NextsRaiseIndex(Handle(s, calls[0]).state, calls[1..]);
    }
  }

  lemma NextRaises(s: State, c: Call)
    requires Inv(s) && !Ends(s, c)
    ensures var out := Handle(s, c);
            Max0(s.idx) + (if c.NextCard? && out.reply == Done then 1 else 0) <= Max0(out.state.idx)
  {
  }

  /** So in one life next_card succeeds fewer times than there are cards, whatever else happens. */
  lemma NextsBounded(maxPlayers: nat, calls: seq<Call>)
    requires OneLife(Init(maxPlayers), calls)
    ensures var s := Init(maxPlayers); Nexts(s, calls) <= Max0(|After(s, calls).cards| - 1)
  {
    hide After, Nexts;
    InitInv(maxPlayers);
    InvRun(Init(maxPlayers), calls);
    NextsRaiseIndex(Init(maxPlayers), calls);
  }

  // ---- The score ledger ----

  /** What the room's replies say happened: a card credited, or a foul called. */
  datatype Entry = Win(name: string, id: int) | Slip(name: string)
  type Ledger = seq<Entry>

  function Recorded(s: State, c: Call): Ledger {
    RecordedOf(c, Handle(s, c).reply)
  }

  function RecordedOf(c: Call, reply: Reply): Ledger {
    match c
    case TakeCard(id, name) => if reply.Took? || reply.GameOver? then [Win(name, id)] else []
    case AttemptTake(_, name) => if reply.Fouled? then [Slip(name)] else []
    case _ => []
  }

  /** The ledger of the present life. */
  function Booked(log: Ledger, s: State, c: Call): Ledger {
    if Ends(s, c) then [] else log + Recorded(s, c)
  }

  function LedgerOf(log: Ledger, s: State, calls: seq<Call>): Ledger
    decreases |calls|
  {
    if calls == [] then log else LedgerOf(Booked(log, s, calls[0]), Handle(s, calls[0]).state, calls[1..])
  }

  function Is(b: bool): nat {
    if b then 1 else 0
  }

  function Wins(log: Ledger, name: string): nat {
    if log == [] then 0
    else var e := log[|log| - 1]; Is(e.Win? && e.name == name) + Wins(log[..|log| - 1], name)
  }

  function Slips(log: Ledger, name: string): nat {
    if log == [] then 0
    else var e := log[|log| - 1]; Is(e.Slip? && e.name == name) + Slips(log[..|log| - 1], name)
  }

  function SlipTotal(log: Ledger): nat {
    if log == [] then 0 else Is(log[|log| - 1].Slip?) + SlipTotal(log[..|log| - 1])
  }

  /** How often a card id has been credited. */
  function Credits(log: Ledger, id: int): nat {
    if log == [] then 0
    else var e := log[|log| - 1]; Is(e.Win? && e.id == id) + Credits(log[..|log| - 1], id)
  }

  lemma Extend(log: Ledger, e: Entry)
    ensures SlipTotal(log + [e]) == SlipTotal(log) + Is(e.Slip?)
    ensures forall name :: Wins(log + [e], name) == Wins(log, name) + Is(e.Win? && e.name == name)
    ensures forall name :: Slips(log + [e], name) == Slips(log, name) + Is(e.Slip? && e.name == name)
    ensures forall id :: Credits(log + [e], id) == Credits(log, id) + Is(e.Win? && e.id == id)
  {
    assert (log + [e])[..|log|] == log;
  }

  /** Scores are wins minus fouls; every taken id has been credited once and no other at all;
      a name fouls at most once per reading. */
  ghost predicate Balanced(s: State, log: Ledger) {
    (s.status == Waiting ==> log == []) &&
    (forall name :: Get(s.scores, name) == Wins(log, name) - Slips(log, name)) &&
    (forall name :: Slips(log, name) <= Max0(s.idx) + Is(name in s.foul)) &&
    (forall name :: Wins(log, name) <= |s.taken|) &&
    (forall id :: Credits(log, id) == Is(id in s.taken)) &&
    Sum(s.scores) == |s.taken| - SlipTotal(log)
  }

  lemma CreditBalanced(s: State, id: int, name: string, log: Ledger, t: State)
    requires s.status == Playing && id !in s.taken && Balanced(s, log)
    requires t == s.(taken := s.taken + {id}, scores := s.scores[name := Get(s.scores, name) + 1], resolved := true)
    ensures Balanced(t, log + [Win(name, id)])
  {
    hide Wins, Slips, SlipTotal, Credits, Sum;
    Extend(log, Win(name, id));
    SumUpdate(s.scores, name, Get(s.scores, name) + 1);
  }

  lemma FinishBalanced(s: State, log: Ledger)
    requires s.status != Waiting && Balanced(s, log)
    ensures Balanced(s.(status := Finished), log)
  {
    hide Wins, Slips, SlipTotal, Credits, Sum;
  }

  lemma TakeBalanced(s: State, id: int, name: string, log: Ledger)
    requires Play(s) && Balanced(s, log)
    ensures Balanced(HandleTake(s, id, name).state, log + RecordedOf(TakeCard(id, name), HandleTake(s, id, name).reply))
  {
    hide Wins, Slips, SlipTotal, Credits, Play, EndConditionMet, Broadcast, Balanced, Sum;
    assert log + [] == log;
    if s.status == Playing && id !in s.taken {
      var scores := s.scores[name := Get(s.scores, name) + 1];
      var after := s.(taken := s.taken + {id}, scores := scores, resolved := true);
      CreditBalanced(s, id, name, log, after);
      FinishBalanced(after, log + [Win(name, id)]);
    }
  }

  lemma SlipBalanced(s: State, id: int, name: string, log: Ledger)
    requires Play(s) && Balanced(s, log)
    ensures var out := HandleAttempt(s, id, name);
            Balanced(out.state, log + RecordedOf(AttemptTake(id, name), out.reply))
  {
    hide Wins, Slips, SlipTotal, Credits, Balanced, CurrentCardId, Broadcast;
    assert log + [] == log;
    var t := HandleAttempt(s, id, name).state;
    if HandleAttempt(s, id, name).reply.Fouled? {
      PenaltyBalanced(s, name, log, t);
    }
  }

  lemma PenaltyBalanced(s: State, name: string, log: Ledger, t: State)
    requires s.status == Playing && name !in s.foul && Balanced(s, log)
    requires t == s.(scores := s.scores[name := Get(s.scores, name) - 1], foul := s.foul + {name},
                     resolved := t.resolved)
    ensures Balanced(t, log + [Slip(name)])
  {
    hide Wins, Slips, SlipTotal, Credits, Sum;
    Extend(log, Slip(name));
    SumUpdate(s.scores, name, Get(s.scores, name) - 1);
  }

  lemma StartBalanced(s: State, settings: Settings, cards: Deck, log: Ledger)
    requires Play(s) && Balanced(s, log)
    ensures Balanced(HandleStart(s, settings, cards).state, log)
  {
    hide Broadcast;
    SumOfZeros(ZeroScores(s.players));
  }

  /** The other handlers change neither scores nor taken cards; a move of the index clears the fouls. */
  predicate LedgerSame(s: State, t: State) {
    t.scores == s.scores && t.taken == s.taken && (s.status == Waiting <==> t.status == Waiting) &&
    ((t.idx == s.idx && t.foul == s.foul) || (0 <= s.idx < t.idx && t.foul == {}))
  }

  lemma OthersSame(s: State, c: Call)
    requires Play(s) && !c.TakeCard? && !c.AttemptTake? && !c.StartGame? && !Ends(s, c)
    ensures LedgerSame(s, Handle(s, c).state)
  {
    hide Broadcast, EndConditionMet, Without, NextHost, CurrentCardId, DropCard, FindCard, ZeroScores, Reading;
  }

  lemma SameBalanced(s: State, t: State, log: Ledger)
    requires Balanced(s, log) && LedgerSame(s, t)
    ensures Balanced(t, log)
  {
    hide Wins, Slips, SlipTotal, Credits;
    forall name
      ensures Slips(log, name) <= Max0(t.idx) + Is(name in t.foul)
    {
      assert Slips(log, name) <= Max0(s.idx) + Is(name in s.foul);
    }
  }

  lemma BalancedStep(s: State, c: Call, log: Ledger)
    requires Inv(s) && Balanced(s, log)
    ensures Balanced(Handle(s, c).state, Booked(log, s, c))
  {
    hide Balanced, HandleTake, HandleAttempt, HandleStart, Play, LedgerSame;
    assert log + [] == log;
    if Ends(s, c) {
      EndsInInit(s, c);
      InitBalanced(s.maxPlayers);
    } else {
      match c
      case TakeCard(id, name) => TakeBalanced(s, id, name, log);
      case AttemptTake(id, name) => SlipBalanced(s, id, name, log);
      case StartGame(settings, cards) => StartBalanced(s, settings, cards, log);
      case _ =>
        OthersSame(s, c);
        SameBalanced(s, Handle(s, c).state, log);
    }
  }

  lemma {:induction false} BalancedRun(s: State, calls: seq<Call>, log: Ledger)
    requires Inv(s) && Balanced(s, log)
    ensures Balanced(After(s, calls), LedgerOf(log, s, calls))
    decreases |calls|
  {
    hide Inv, Handle, Balanced, Booked;
    if calls != [] {
      InvStep(s, calls[0]);
      BalancedStep(s, calls[0], log);
      BalancedRun(Handle(s, calls[0]).state, calls[1..], Booked(log, s, calls[0]));
    }
  }

  lemma InitBalanced(maxPlayers: nat)
    ensures Balanced(Init(maxPlayers), [])
  {
    SumOfZeros<string>(map[]);
  }

  /** In every reachable state, by the ledger of the room's present life, the scores add up to the
      cards taken less the fouls called, and each score lies between -(index + 1) and the number of cards taken. */
  lemma ScoresAddUp(maxPlayers: nat, calls: seq<Call>)
    ensures var s, log := After(Init(maxPlayers), calls), LedgerOf([], Init(maxPlayers), calls);
            Sum(s.scores) == |s.taken| - SlipTotal(log) &&
            (forall name :: -(Max0(s.idx) + 1) <= Get(s.scores, name) <= |s.taken|) &&
            (forall name :: Get(s.scores, name) == Wins(log, name) - Slips(log, name)) &&
            forall id :: Credits(log, id) == if id in s.taken then 1 else 0
  {
    hide After, LedgerOf, Wins, Slips, SlipTotal, Credits;
    InitInv(maxPlayers);
    InitBalanced(maxPlayers);
    BalancedRun(Init(maxPlayers), calls, []);
  }

  // ---- Custom card ids over a run ----

  /** The ids given out by the successful add_custom_card calls of a run, in order. */
  function Issued(s: State, calls: seq<Call>): seq<int>
    decreases |calls|
  {
    if calls == [] then []
    else
      var out := Handle(s, calls[0]);
      (if out.reply.CardAdded? then [out.reply.card.id] else []) + Issued(out.state, calls[1..])
  }

  /** In one life strictly increasing, hence never reused, whatever is removed in between. */
  lemma {:induction false} IdsNeverReused(s: State, calls: seq<Call>)
    requires Inv(s) && OneLife(s, calls)
    ensures RisesWithin(Issued(s, calls), s.nextId, After(s, calls).nextId)
    decreases |calls|
  {
    hide Inv, Handle;
    if calls != [] {
      var t := Handle(s, calls[0]).state;
      InvStep(s, calls[0]);
      IssueOne(s, calls[0]);
      IdsNeverReused(t, calls[1..]);
      OnwardRun(t, calls[1..]);
      var first := if Handle(s, calls[0]).reply.CardAdded? then [s.nextId] else [];
      assert Issued(s, calls) == first + Issued(t, calls[1..]);
      Prepended(first, Issued(t, calls[1..]), s.nextId, t.nextId, After(t, calls[1..]).nextId);
    }
  }

  predicate RisesWithin(ids: seq<int>, lo: int, hi: int) {
    (forall i | 0 <= i < |ids| :: lo <= ids[i] < hi) && forall i, j | 0 <= i < j < |ids| :: ids[i] < ids[j]
  }

  lemma Prepended(first: seq<int>, rest: seq<int>, lo: int, mid: int, hi: int)
    requires RisesWithin(first, lo, mid) && RisesWithin(rest, mid, hi) && lo <= mid <= hi
    ensures RisesWithin(first + rest, lo, hi)
  {
  }

  lemma IssueOne(s: State, c: Call)
    requires !Ends(s, c)
    ensures var out := Handle(s, c);
            s.nextId <= out.state.nextId &&
            (out.reply.CardAdded? ==> out.reply.card.id == s.nextId && out.state.nextId == s.nextId + 1)
  {
    hide Broadcast, FindFrom, EndConditionMet, Without, NextHost, CurrentCardId, DropCard, FindCard, ZeroScores;
  }
}
