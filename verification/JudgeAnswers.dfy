/** What a caller of services/judge/src/main.rs is told, and what a call leaves behind. */
module JudgeAnswers {
  import opened Options
  import opened UInt32
  import opened Judge

  predicate Valid(req: Request, now: int) {
    RoomOk(req.room) && NameOk(req.player) && -30_000_000_000 <= now - req.timestamp <= 300_000_000_000
  }

  /** A valid request wins exactly if nobody holds the card or the player already does. A win is one
      more point and one more line; the card is then held by the player, and otherwise by whoever held
      it. Nothing else changes, and nothing at all for a request that is not valid. */
  lemma WonExactlyWhen(s: State, req: Request, now: int)
    ensures var reply := JudgeReply(s, req, now);
            var key := (req.room, req.card);
            (reply.Judged? <==> Valid(req, now)) &&
            (reply.Judged? ==>
               var v := reply.verdict;
               var n := AfterJudge(s, req);
               v.key == key && v.player == req.player &&
               (v.won <==> key !in s.winners || s.winners[key] == req.player) &&
               n.winners == (if v.won then s.winners[key := req.player] else s.winners) && n.readAt == s.readAt &&
               Score(n, req.room, req.player) == Score(s, req.room, req.player) + (if v.won then 1 else 0) &&
               |HistoryOf(n, req.room)| == |HistoryOf(s, req.room)| + (if v.won then 1 else 0) &&
               forall room, player | room != req.room || player != req.player ::
                 Score(n, room, player) == Score(s, room, player) &&
                 (room != req.room ==> HistoryOf(n, room) == HistoryOf(s, room)))
  {
    hide Blank, ByteLen, ResponseMs;
    AcceptsExactlyWhen(req, now);
    var key := (req.room, req.card);
    if key in s.winners && s.winners[key] == req.player {
      assert s.winners[key := req.player] == s.winners;
    }
  }

  // ---- A batch ----

  function KeyOf(item: Item): Key {
    (item.req.room, item.req.card)
  }

  /** Nobody held the card before the batch, and the item is the batch's first for it. */
  predicate FirstFor(winners: map<Key, string>, items: seq<Item>, i: nat)
    requires i < |items|
  {
    KeyOf(items[i]) !in winners && forall j | 0 <= j < i :: KeyOf(items[j]) != KeyOf(items[i])
  }

  /** The player holds the card after item i: from before, or by being first in the batch. */
  predicate Holds(winners: map<Key, string>, items: seq<Item>, i: nat, key: Key, player: string)
    requires i <= |items|
  {
    (key in winners && winners[key] == player) ||
    exists j | 0 <= j < i :: FirstFor(winners, items, j) && KeyOf(items[j]) == key && items[j].req.player == player
  }

  predicate ItemValid(item: Item) {
    Valid(item.req, item.now)
  }

  /** The entries after the first n items of a batch of valid ones. */
  function Entries(winners: map<Key, string>, items: seq<Item>, n: nat): map<Key, string>
    requires n <= |items|
  {
    if n == 0 then winners
    else FirstWins(Entries(winners, items, n - 1), KeyOf(items[n - 1]), items[n - 1].req.player)
  }

  lemma {:induction false} EntriesHold(winners: map<Key, string>, items: seq<Item>, n: nat, key: Key, player: string)
    requires n <= |items|
    ensures key in Entries(winners, items, n) && Entries(winners, items, n)[key] == player <==>
            Holds(winners, items, n, key, player)
    ensures key in Entries(winners, items, n) <==> key in winners || exists j | 0 <= j < n :: KeyOf(items[j]) == key
    decreases n
  {
    if n > 0 {
      EntriesHold(winners, items, n - 1, key, player);
      EntriesHold(winners, items, n - 1, KeyOf(items[n - 1]), player);
      var e := Entries(winners, items, n - 1);
      assert KeyOf(items[n - 1]) !in e <==> FirstFor(winners, items, n - 1);
    }
  }

  function VerdictAt(winners: map<Key, string>, items: seq<Item>, i: nat): Verdict
    requires i < |items|
  {
    VerdictOf(Entries(winners, items, i), items[i].req)
  }

  /** The batch from item i on, the ones before it being valid. */
  lemma {:induction false} BatchFromIs(winners: map<Key, string>, items: seq<Item>, i: nat, done: seq<Verdict>)
    requires i <= |items|
    requires |done| == i && forall k: nat | k < i :: done[k] == VerdictAt(winners, items, k)
    ensures var b := BatchFrom(Entries(winners, items, i), items[i..], done);
            match b.reply
            case BatchTooLong => false
            case Results(rs) =>
              (forall k | i <= k < |items| :: ItemValid(items[k])) && |rs| == |items| &&
              (forall k: nat | k < |items| :: rs[k] == VerdictAt(winners, items, k)) &&
              b.winners == Entries(winners, items, |items|)
            case BadItem(card, fault) =>
              exists k | i <= k < |items| :: BadFirst(items, i, k) && card == items[k].req.card &&
                Check(items[k].req, items[k].now) == Some(fault) && b.winners == Entries(winners, items, k)
    decreases |items| - i
  {
    hide VerdictAt, Check, Entries;
    if i < |items| {
      var req := items[i].req;
      AcceptsExactlyWhen(req, items[i].now);
      if Check(req, items[i].now).Some? {
        assert BadFirst(items, i, i);
      } else {
        NextEntry(winners, items, i);
        assert items[i..][1..] == items[i + 1..];
        BatchFromIs(winners, items, i + 1, done + [VerdictAt(winners, items, i)]);
        forall k | i + 1 <= k < |items|
          ensures BadFirst(items, i + 1, k) ==> BadFirst(items, i, k)
        {
        }
      }
    }
  }

  lemma NextEntry(winners: map<Key, string>, items: seq<Item>, i: nat)
    requires i < |items|
    ensures Entries(winners, items, i + 1) ==
            FirstWins(Entries(winners, items, i), (items[i].req.room, items[i].req.card), items[i].req.player)
    ensures VerdictAt(winners, items, i) == VerdictOf(Entries(winners, items, i), items[i].req)
    ensures i == 0 ==> Entries(winners, items, i) == winners
  {
  }

  /** Item k is the first from item i on that is not valid. */
  predicate BadFirst(items: seq<Item>, i: nat, k: int) {
    i <= k < |items| && !ItemValid(items[k]) && forall j | i <= j < k :: ItemValid(items[j])
  }

  /** Item i of a batch wins exactly if its player holds the card after it. */
  predicate ItemAnswer(winners: map<Key, string>, items: seq<Item>, i: nat, v: Verdict)
    requires i < |items|
  {
    v.key == KeyOf(items[i]) && v.player == items[i].req.player &&
    (v.won <==> Holds(winners, items, i + 1, KeyOf(items[i]), items[i].req.player))
  }

  lemma VerdictAnswers(winners: map<Key, string>, items: seq<Item>, i: nat)
    requires i < |items|
    ensures ItemAnswer(winners, items, i, VerdictAt(winners, items, i))
  {
    hide Holds;
    EntriesHold(winners, items, i + 1, KeyOf(items[i]), items[i].req.player);
  }

  /** A batch of more than a hundred items does nothing. Otherwise all items are answered exactly if
      all are valid; and whether or not they are, a card is held afterwards by whoever held it before,
      or by the first player to name it among the items before the first that is not valid. */
  lemma BatchAnswers(winners: map<Key, string>, items: seq<Item>)
    ensures var b := Batch(winners, items);
            match b.reply
            case BatchTooLong => |items| > 100 && b.winners == winners
            case Results(rs) =>
              |items| <= 100 && (forall i | 0 <= i < |items| :: ItemValid(items[i])) && |rs| == |items| &&
              (forall i: nat | i < |items| :: ItemAnswer(winners, items, i, rs[i])) &&
              Held(b.winners, winners, items, |items|)
            case BadItem(card, fault) =>
              |items| <= 100 &&
              exists k: nat | k < |items| :: BadFirst(items, 0, k) && card == items[k].req.card &&
                Check(items[k].req, items[k].now) == Some(fault) && Held(b.winners, winners, items, k)
  {
    hide Check, VerdictAt, ItemAnswer, Held, BadFirst, ItemValid, Entries;
    if |items| <= 100 {
      assert items[0..] == items;
      if |items| > 0 {
        NextEntry(winners, items, 0);
      }
      NoEntries(winners, items);
      BatchFromIs(winners, items, 0, []);
      forall i: nat | i < |items|
        ensures ItemAnswer(winners, items, i, VerdictAt(winners, items, i))
      {
        VerdictAnswers(winners, items, i);
      }
      forall k: nat | k <= |items|
        ensures Held(Entries(winners, items, k), winners, items, k)
      {
        EntriesHeld(winners, items, k);
      }
    }
  }

  lemma NoEntries(winners: map<Key, string>, items: seq<Item>)
    ensures Entries(winners, items, 0) == winners
  {
  }

  /** The entries after some items, by who holds what. */
  ghost predicate Held(after: map<Key, string>, winners: map<Key, string>, items: seq<Item>, n: nat)
    requires n <= |items|
  {
    forall key, player :: key in after && after[key] == player <==> Holds(winners, items, n, key, player)
  }

  lemma EntriesHeld(winners: map<Key, string>, items: seq<Item>, n: nat)
    requires n <= |items|
    ensures Held(Entries(winners, items, n), winners, items, n)
  {
    hide Holds, Entries;
    forall key, player
      ensures key in Entries(winners, items, n) && Entries(winners, items, n)[key] == player <==>
              Holds(winners, items, n, key, player)
    {
      EntriesHold(winners, items, n, key, player);
    }
  }
}
