/** services/judge/src/main.rs: who was first at a card. Times are in nanoseconds. */
module Judge {

  import opened Options
  import opened UInt32

  type Key = (string, u32)

  datatype Request = Request(room: string, card: u32, player: string, timestamp: int)
  datatype Fault = EmptyRoom | LongRoom | EmptyPlayer | LongPlayer | TooOld | InFuture
  datatype Verdict = Verdict(key: Key, player: string, won: bool)
  datatype Reply = BadRequest(fault: Fault) | Judged(verdict: Verdict)
  datatype BatchReply = BatchTooLong | BadItem(card: u32, fault: Fault) | Results(results: seq<Verdict>)

  /** One line of a room's history. */
  datatype Taken = Taken(card: u32, player: string, responseMs: nat)

  datatype State = State(
    winners: map<Key, string>,
    scores: map<string, map<string, nat>>,
    history: map<string, seq<Taken>>,
    readAt: map<Key, int>)

  // ---- Validation ----

  /** The bytes of a character in UTF-8. */
  function Utf8Len(c: char): nat {
    if c as int < 0x80 then 1 else if c as int < 0x800 then 2 else if c as int < 0x1_0000 then 3 else 4
  }

  function ByteLen(s: string): nat {
    if s == "" then 0 else Utf8Len(s[0]) + ByteLen(s[1..])
  }

  predicate IsSpace(c: char) {
    var n := c as int;
    9 <= n <= 13 || n == 0x20 || n == 0x85 || n == 0xA0 || n == 0x1680 || 0x2000 <= n <= 0x200A ||
    n == 0x2028 || n == 0x2029 || n == 0x202F || n == 0x205F || n == 0x3000
  }

  predicate Blank(s: string) {
    forall i | 0 <= i < |s| :: IsSpace(s[i])
  }

  const SECOND := 1_000_000_000

  function Check(req: Request, now: int): Option<Fault> {
    if Blank(req.room) then Some(EmptyRoom)
    else if ByteLen(req.room) > 64 then Some(LongRoom)
    else if Blank(req.player) then Some(EmptyPlayer)
    else if ByteLen(req.player) > 32 then Some(LongPlayer)
    else if now - req.timestamp > 300 * SECOND then Some(TooOld)
    else if now - req.timestamp < -30 * SECOND then Some(InFuture)
    else None
  }

  predicate RoomOk(room: string) {
    !Blank(room) && ByteLen(room) <= 64
  }

  predicate NameOk(player: string) {
    !Blank(player) && ByteLen(player) <= 32
  }

  /** What the judge accepts: a room id and a name, neither blank nor too long in bytes, at most
      five minutes old and at most thirty seconds ahead. */
  lemma AcceptsExactlyWhen(req: Request, now: int)
    ensures Check(req, now).None? <==>
            RoomOk(req.room) && NameOk(req.player) && -30 * SECOND <= now - req.timestamp <= 300 * SECOND
  {
  }

  // ---- The handlers as functions of the state ----

  function Find<K, V>(m: map<K, V>, k: K, default: V): V {
    if k in m then m[k] else default
  }

  function Score(s: State, room: string, player: string): nat {
    Find(Find(s.scores, room, map[]), player, 0)
  }

  function HistoryOf(s: State, room: string): seq<Taken> {
    Find(s.history, room, [])
  }

  /** entry(key).or_insert(player). */
  function FirstWins(winners: map<Key, string>, key: Key, player: string): map<Key, string> {
    if key in winners then winners else winners[key := player]
  }

  function ResponseMs(s: State, req: Request): nat {
    var key := (req.room, req.card);
    if key in s.readAt then
      var ms := (req.timestamp - s.readAt[key]) / 1_000_000;
      if ms < 0 then 0 else ms
    else 0
  }

  /** One more for the player, and one more line of history. */
  function Credited(s: State, req: Request, ms: nat): State {
    var room := Find(s.scores, req.room, map[]);
    s.(scores := s.scores[req.room := room[req.player := Find(room, req.player, 0) + 1]],
       history := s.history[req.room := HistoryOf(s, req.room) + [Taken(req.card, req.player, ms)]])
  }

  function AfterJudge(s: State, req: Request): State {
    var winners := FirstWins(s.winners, (req.room, req.card), req.player);
    var t := s.(winners := winners);
    if winners[(req.room, req.card)] == req.player then Credited(t, req, ResponseMs(s, req)) else t
  }

  function VerdictOf(winners: map<Key, string>, req: Request): Verdict {
    var key := (req.room, req.card);
    Verdict(key, req.player, FirstWins(winners, key, req.player)[key] == req.player)
  }

  function JudgeReply(s: State, req: Request, now: int): Reply {
    match Check(req, now)
    case Some(fault) => BadRequest(fault)
    case None => Judged(VerdictOf(s.winners, req))
  }

  /** The items of a batch with the time at which each is looked at. */
  datatype Item = Item(req: Request, now: int)

  datatype Batched = Batched(winners: map<Key, string>, reply: BatchReply)

  /** Items in order, up to the first invalid one, after which the entries already made stay. */
  function BatchFrom(winners: map<Key, string>, items: seq<Item>, done: seq<Verdict>): Batched
    decreases |items|
  {
    if items == [] then Batched(winners, Results(done))
    else
      var req := items[0].req;
      match Check(req, items[0].now)
      case Some(fault) => Batched(winners, BadItem(req.card, fault))
      case None =>
        BatchFrom(FirstWins(winners, (req.room, req.card), req.player), items[1..], done + [VerdictOf(winners, req)])
  }

  function Batch(winners: map<Key, string>, items: seq<Item>): Batched {
    if |items| > 100 then Batched(winners, BatchTooLong) else BatchFrom(winners, items, [])
  }

  function OtherRooms<V>(m: map<Key, V>, room: string): map<Key, V> {
    map k | k in m && k.0 != room :: m[k]
  }

  function AfterReset(s: State, room: string): State {
    if Blank(room) then s
    else
      State(OtherRooms(s.winners, room), s.scores - {room}, s.history - {room}, OtherRooms(s.readAt, room))
  }

  /** What anybody can ask about a room is the same in two states. */
  ghost predicate SameRoom(s: State, t: State, room: string) {
    (forall card: u32 ::
       ((room, card) in s.winners <==> (room, card) in t.winners) &&
       ((room, card) in s.winners ==> s.winners[(room, card)] == t.winners[(room, card)]) &&
       ((room, card) in s.readAt <==> (room, card) in t.readAt) &&
       ((room, card) in s.readAt ==> s.readAt[(room, card)] == t.readAt[(room, card)])) &&
    (forall player :: Score(s, room, player) == Score(t, room, player)) && HistoryOf(s, room) == HistoryOf(t, room)
  }

  /** A reset makes a room like one never heard of and leaves every other room as it was. */
  lemma ResetForgetsOneRoom(s: State, room: string)
    requires !Blank(room)
    ensures SameRoom(AfterReset(s, room), State(map[], map[], map[], map[]), room)
    ensures forall r | r != room :: SameRoom(AfterReset(s, room), s, r)
  {
  }

  /** A winner's history line measures from the moment the card was last marked as read, in whole
      milliseconds, and never less than 0. */
  lemma LineMeasuresFromMark(s: State, req: Request, read: int)
    requires FirstWins(s.winners, (req.room, req.card), req.player)[(req.room, req.card)] == req.player
    ensures var marked := s.(readAt := s.readAt[(req.room, req.card) := read]);
            var h := HistoryOf(AfterJudge(marked, req), req.room);
            |h| == |HistoryOf(s, req.room)| + 1 && h[..|h| - 1] == HistoryOf(s, req.room) &&
            var line := h[|h| - 1];
            line.card == req.card && line.player == req.player &&
            if req.timestamp <= read then line.responseMs == 0
            else line.responseMs * 1_000_000 <= req.timestamp - read < (line.responseMs + 1) * 1_000_000
  {
  }

  // ---- The shared maps and the handlers that update them ----

  class Service {
    var winners: map<Key, string>
    var scores: map<string, map<string, nat>>
    var history: map<string, seq<Taken>>
    var readAt: map<Key, int>

    constructor ()
      ensures Contents() == State(map[], map[], map[], map[])
    {
      winners, scores, history, readAt := map[], map[], map[], map[];
    }

    function Contents(): State
      reads this
    {
      State(winners, scores, history, readAt)
    }

    method Judge(req: Request, now: int) returns (reply: Reply)
      modifies this
      ensures reply == JudgeReply(old(Contents()), req, now)
      ensures Contents() == if reply.BadRequest? then old(Contents()) else AfterJudge(old(Contents()), req)
    {
      var fault := Check(req, now);
      if fault.Some? {
        return BadRequest(fault.value);
      }
      var key := (req.room, req.card);
      if key !in winners {
        winners := winners[key := req.player];
      }
      var isWinner := winners[key] == req.player;
      var ms := 0;
      if key in readAt {
        ms := (req.timestamp - readAt[key]) / 1_000_000;
        if ms < 0 {
          ms := 0;
        }
      }
      if isWinner {
        Credit(req, ms);
      }
      return Judged(Verdict(key, req.player, isWinner));
    }

    method Credit(req: Request, ms: nat)
      modifies this`scores, this`history
      ensures Contents() == Credited(old(Contents()), req, ms)
    {
      CountWin(req);
      AddLine(req, ms);
    }

    method CountWin(req: Request)
      modifies this`scores
      ensures var room := Find(old(scores), req.room, map[]);
              scores == old(scores)[req.room := room[req.player := Find(room, req.player, 0) + 1]]
    {
      ghost var before := scores;
      if req.room !in scores {
        scores := scores[req.room := map[]];
      }
      var room := scores[req.room];
      if req.player !in room {
        room := room[req.player := 0];
      }
      room := room[req.player := room[req.player] + 1];
      scores := scores[req.room := room];
      ghost var was := Find(before, req.room, map[]);
      assert room == was[req.player := Find(was, req.player, 0) + 1];
      assert scores == before[req.room := room];
    }

    method AddLine(req: Request, ms: nat)
      modifies this`history
      ensures history ==
              old(history)[req.room := Find(old(history), req.room, []) + [Taken(req.card, req.player, ms)]]
    {
      ghost var before := history;
      if req.room !in history {
        history := history[req.room := []];
      }
      history := history[req.room := history[req.room] + [Taken(req.card, req.player, ms)]];
      assert history == before[req.room := Find(before, req.room, []) + [Taken(req.card, req.player, ms)]];
    }

    method BatchJudge(items: seq<Item>) returns (reply: BatchReply)
      modifies this`winners
      ensures Batched(winners, reply) == Batch(old(winners), items)
    {
      if |items| > 100 {
        return BatchTooLong;
      }
      var results := [];
      for i := 0 to |items|
        invariant |results| == i
        invariant BatchFrom(old(winners), items, []) == BatchFrom(winners, items[i..], results)
      {
        var req := items[i].req;
        var fault := Check(req, items[i].now);
        if fault.Some? {
          return BadItem(req.card, fault.value);
        }
        var key := (req.room, req.card);
        var before := winners;
        if key !in winners {
          winners := winners[key := req.player];
        }
        results := results + [Verdict(key, req.player, winners[key] == req.player)];
        assert items[i..][1..] == items[i + 1..];
        assert BatchFrom(before, items[i..], results[..i]) == BatchFrom(winners, items[i + 1..], results);
      }
      return Results(results);
    }

    method MarkCardRead(room: string, card: u32, now: int)
      modifies this`readAt
      ensures readAt == old(readAt)[(room, card) := now]
    {
      readAt := readAt[(room, card) := now];
    }

    method ResetRoom(room: string) returns (ok: bool)
      modifies this
      ensures ok == !Blank(room)
      ensures Contents() == AfterReset(old(Contents()), room)
    {
      if Blank(room) {
        return false;
      }
      winners := Retain(winners, room);
      scores := scores - {room};
      history := history - {room};
      readAt := Retain(readAt, room);
      return true;
    }
  }

  /** retain: the entries of other rooms, visited one by one. */
  method Retain<V>(m: map<Key, V>, room: string) returns (r: map<Key, V>)
    ensures r == OtherRooms(m, room)
  {
    r := m;
    var pending := m.Keys;
    while pending != {}
      invariant pending <= m.Keys
      invariant forall k :: k in r <==> k in m && (k in pending || k.0 != room)
      invariant forall k | k in r :: r[k] == m[k]
      decreases |pending|
    {
      var k :| k in pending;
      if k.0 == room {
        r := r - {k};
      }
      pending := pending - {k};
    }
  }
}
