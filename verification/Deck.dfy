/** services/realtime/lib/realtime/socket_handler.ex: how start_game puts its deck together. */
module Deck {
  import opened Options
  import opened Room
  import opened RoomRuns
  import Shuffle

  /** The shuffle service's answer: a list of ids, or a failure, after which the cards are
      shuffled in place (the shuffled list is given here). */
  datatype ShuffleReply = Ids(ids: seq<int>) | Failed(shuffled: seq<Card>)

  datatype Assembled = NotFetched | NoCards | OneCard | Ready(deck: Deck)

  function IdsOf(cards: seq<Card>): (ids: seq<int>) {
    seq(|cards|, i requires 0 <= i < |cards| => cards[i].id)
  }

  /** Map.new by id: a later card replaces an earlier one. */
  function CardMap(cards: seq<Card>): (m: map<int, Card>)
    ensures forall id | id in m :: m[id].id == id && m[id] in cards
  {
    if cards == [] then map[]
    else CardMap(cards[..|cards| - 1])[cards[|cards| - 1].id := cards[|cards| - 1]]
  }

  /** card_map[id], nil when there is none. */
  function Lookup(m: map<int, Card>): int -> Option<Card> {
    id => if id in m then Some(m[id]) else None
  }

  function Map<S, T>(f: S -> T, s: seq<S>): (r: seq<T>)
    ensures |r| == |s| && forall i | 0 <= i < |s| :: r[i] == f(s[i])
  {
    seq(|s|, i requires 0 <= i < |s| => f(s[i]))
  }

  function Somes(cards: seq<Card>): Deck {
    Map(c => Some(c), cards)
  }

  function ShuffleCards(cards: seq<Card>, reply: ShuffleReply): Deck {
    match reply
    case Ids(ids) => Map(Lookup(CardMap(cards)), ids)
    case Failed(shuffled) => Somes(shuffled)
  }

  /** fetch_cards: no selection plus custom cards means no official cards at all; otherwise the
      card service is asked, and may fail. */
  function Official(selectedSets: seq<string>, customs: seq<Card>, fetched: Option<seq<Card>>): Option<seq<Card>> {
    if selectedSets == [] && customs != [] then Some([]) else fetched
  }

  /** The whole chain before the room is asked to start. */
  function Assemble(selectedSets: seq<string>, customs: seq<Card>, fetched: Option<seq<Card>>,
                    reply: ShuffleReply): Assembled
  {
    match Official(selectedSets, customs, fetched)
    case None => NotFetched
    case Some(official) =>
      var merged := official + customs;
      if merged == [] then NoCards else if |merged| == 1 then OneCard else Ready(ShuffleCards(merged, reply))
  }

  // ---- Maps and permutations ----

  function Drop<T>(s: seq<T>, j: nat): seq<T>
    requires j < |s|
  {
    s[..j] + s[j + 1..]
  }

  lemma MultisetDrop<T>(s: seq<T>, j: nat)
    requires j < |s|
    ensures multiset(s) == multiset(Drop(s, j)) + multiset{s[j]}
    ensures multiset(Drop(s, j)) == multiset(s) - multiset{s[j]}
  {
    assert s == s[..j] + [s[j]] + s[j + 1..];
  }

  lemma MapDrop<S, T>(f: S -> T, s: seq<S>, j: nat)
    requires j < |s|
    ensures Map(f, Drop(s, j)) == Drop(Map(f, s), j)
  {
  }

  lemma {:induction false} MapPermutes<S, T>(f: S -> T, a: seq<S>, b: seq<S>)
    requires multiset(a) == multiset(b)
    ensures multiset(Map(f, a)) == multiset(Map(f, b))
    decreases |a|
  {
    hide Drop, Map;
    if a == [] {
      assert |b| == |multiset(b)| == |multiset(a)| == 0;
    } else {
      assert a[0] in multiset(b);
      var j :| 0 <= j < |b| && b[j] == a[0];
      MultisetDrop(a, 0);
      MultisetDrop(b, j);
      DropShorter(a, 0);
      MapPermutes(f, Drop(a, 0), Drop(b, j));
      MapDrop(f, a, 0);
      MapDrop(f, b, j);
      MultisetDrop(Map(f, a), 0);
      MultisetDrop(Map(f, b), j);
    }
  }

  lemma DropShorter<T>(s: seq<T>, j: nat)
    requires j < |s|
    ensures |Drop(s, j)| == |s| - 1
  {
  }

  predicate DistinctIds(cards: seq<Card>) {
    forall i, j | 0 <= i < j < |cards| :: cards[i].id != cards[j].id
  }

  lemma {:induction false} CardMapFinds(cards: seq<Card>, i: nat)
    requires DistinctIds(cards) && i < |cards|
    ensures cards[i].id in CardMap(cards) && CardMap(cards)[cards[i].id] == cards[i]
  {
    if i < |cards| - 1 {
      CardMapFinds(cards[..|cards| - 1], i);
    }
  }

  /** With distinct ids, the deck has exactly the given cards (and no hole) exactly when the
      reply is a permutation of the ids sent. */
  lemma DeckIsPermutationExactlyWhen(cards: seq<Card>, ids: seq<int>)
    requires DistinctIds(cards)
    ensures multiset(ShuffleCards(cards, Ids(ids))) == multiset(Somes(cards)) <==>
            multiset(ids) == multiset(IdsOf(cards))
  {
    var f := Lookup(CardMap(cards));
    var deck := Map(f, ids);
    forall i | 0 <= i < |cards|
      ensures f(IdsOf(cards)[i]) == Some(cards[i])
    {
      CardMapFinds(cards, i);
    }
    assert Map(f, IdsOf(cards)) == Somes(cards);
    if multiset(ids) == multiset(IdsOf(cards)) {
      MapPermutes(f, ids, IdsOf(cards));
    }
    if multiset(deck) == multiset(Somes(cards)) {
      IdsBack(cards, ids);
    }
  }

  lemma IdsBack(cards: seq<Card>, ids: seq<int>)
    requires multiset(ShuffleCards(cards, Ids(ids))) == multiset(Somes(cards))
    ensures multiset(ids) == multiset(IdsOf(cards))
  {
    var deck := ShuffleCards(cards, Ids(ids));
    var g := (c: Option<Card>) => if c.Some? then c.value.id else 0;
    forall k | 0 <= k < |ids|
      ensures g(deck[k]) == ids[k]
    {
      assert deck[k] in multiset(Somes(cards));
    }
    assert Map(g, deck) == ids;
    assert Map(g, Somes(cards)) == IdsOf(cards);
    MapPermutes(g, deck, Somes(cards));
  }

  /** Official ids are distinct and below the custom base; the loader refuses a repeated id. */
  predicate OfficialIds(official: seq<Card>) {
    DistinctIds(official) && forall i | 0 <= i < |official| :: official[i].id < CUSTOM_ID_BASE
  }

  lemma MergedDistinct(official: seq<Card>, s: State)
    requires OfficialIds(official) && Customs(s)
    ensures DistinctIds(official + s.custom)
  {
  }

  // ---- What the host gets ----

  /** What comes of given cards: too few, or a deck that follows the reply position by position. A
      reply that permutes what it was asked to shuffle gives a deck of exactly these cards, without
      holes; for an answer of ids there is no other way. */
  predicate DeckOf(cards: seq<Card>, reply: ShuffleReply, r: Assembled) {
    (r.NoCards? <==> cards == []) && (r.OneCard? <==> |cards| == 1) && (r.Ready? <==> |cards| >= 2) &&
    match reply
    case Ids(ids) =>
      r.Ready? ==>
        (DistinctIds(cards) ==>
           (multiset(r.deck) == multiset(Somes(cards)) <==> multiset(ids) == multiset(IdsOf(cards)))) &&
        |r.deck| == |ids| && forall k | 0 <= k < |ids| :: NthIs(r.deck[k], cards, ids[k])
    case Failed(shuffled) =>
      r.Ready? ==>
        (multiset(r.deck) == multiset(Somes(cards)) <==> multiset(shuffled) == multiset(cards)) &&
        |r.deck| == |shuffled| && forall k | 0 <= k < |shuffled| :: r.deck[k] == Some(shuffled[k])
  }

  /** The last card with the id, or a hole if there is none. */
  predicate NthIs(entry: Option<Card>, cards: seq<Card>, id: int) {
    match entry
    case Some(c) => exists i | 0 <= i < |cards| :: LastWith(cards, id, i) && cards[i] == c
    case None => forall i | 0 <= i < |cards| :: cards[i].id != id
  }

  predicate LastWith(cards: seq<Card>, id: int, i: nat)
    requires i < |cards|
  {
    cards[i].id == id && forall j | i < j < |cards| :: cards[j].id != id
  }

  /** With a selection, or without custom cards, the deck is the fetched cards with the custom ones
      after them, and nothing can be assembled when the fetch fails. */
  lemma DeckWithFetched(selectedSets: seq<string>, customs: seq<Card>, fetched: Option<seq<Card>>,
                        reply: ShuffleReply)
    requires selectedSets != [] || customs == []
    ensures fetched == None <==> Assemble(selectedSets, customs, fetched, reply) == NotFetched
    ensures fetched.Some? ==> DeckOf(fetched.value + customs, reply, Assemble(selectedSets, customs, fetched, reply))
  {
    if fetched.Some? && |fetched.value + customs| >= 2 {
      ShuffledIsDeck(fetched.value + customs, reply);
    }
  }

  /** With custom cards and no selection, the deck is the custom cards, whatever a fetch would give. */
  lemma DeckOfCustoms(selectedSets: seq<string>, customs: seq<Card>, fetched: Option<seq<Card>>,
                      reply: ShuffleReply)
    requires selectedSets == [] && customs != []
    ensures DeckOf(customs, reply, Assemble(selectedSets, customs, fetched, reply))
  {
    assert [] + customs == customs;
    if |customs| >= 2 {
      ShuffledIsDeck(customs, reply);
    }
  }

  lemma ShuffledIsDeck(cards: seq<Card>, reply: ShuffleReply)
    requires |cards| >= 2
    ensures DeckOf(cards, reply, Ready(ShuffleCards(cards, reply)))
  {
    match reply {
      case Ids(ids) =>
        if DistinctIds(cards) {
          DeckIsPermutationExactlyWhen(cards, ids);
        }
        forall k | 0 <= k < |ids|
          ensures NthIs(ShuffleCards(cards, reply)[k], cards, ids[k])
        {
          EntryFound(cards, ids[k]);
        }
      case Failed(shuffled) => SomesPermute(shuffled, cards);
    }
  }

  lemma {:induction false} EntryFound(cards: seq<Card>, id: int)
    ensures NthIs(Lookup(CardMap(cards))(id), cards, id)
  {
    if cards != [] {
      var init, last := cards[..|cards| - 1], cards[|cards| - 1];
      EntryFound(init, id);
      if last.id == id {
        assert LastWith(cards, id, |cards| - 1);
      } else if i: nat :| i < |init| && LastWith(init, id, i) && Some(init[i]) == Lookup(CardMap(init))(id) {
        assert LastWith(cards, id, i);
      }
    }
  }

  lemma SomesPermute(a: seq<Card>, b: seq<Card>)
    ensures multiset(Somes(a)) == multiset(Somes(b)) <==> multiset(a) == multiset(b)
  {
    if multiset(a) == multiset(b) {
      MapPermutes(c => Some(c), a, b);
    }
    if multiset(Somes(a)) == multiset(Somes(b)) {
      SomesBack(a, b);
    }
  }

  lemma SomesBack(a: seq<Card>, b: seq<Card>)
    requires multiset(Somes(a)) == multiset(Somes(b))
    ensures multiset(a) == multiset(b)
  {
    if a == [] {
      assert |Somes(b)| == |multiset(Somes(b))| == |multiset(Somes(a))| == 0;
    } else {
      var value := (c: Option<Card>) => if c.Some? then c.value else a[0];
      assert Map(value, Somes(a)) == a && Map(value, Somes(b)) == b;
      MapPermutes(value, Somes(a), Somes(b));
    }
  }

  /** In every reachable room, the deck built from the shuffle service's own Fisher-Yates answer
      is a permutation of the custom cards alone (no selection) or of the fetched and the custom
      cards, without holes or repeated ids. */
  lemma DeckOfService(maxPlayers: nat, calls: seq<Call>, selectedSets: seq<string>, fetched: Option<seq<Card>>,
                      cards: seq<Card>, draws: seq<nat>)
    requires fetched.Some? ==> OfficialIds(fetched.value)
    requires var customs := After(Init(maxPlayers), calls).custom;
             if selectedSets == [] && customs != [] then cards == customs
             else fetched.Some? && cards == fetched.value + customs
    requires Shuffle.DrawsFit(|IdsOf(cards)| - 1, draws, false)
    ensures var customs := After(Init(maxPlayers), calls).custom;
            var r := Assemble(selectedSets, customs, fetched, Ids(Shuffle.FisherYates(IdsOf(cards), draws)));
            (r.Ready? <==> |cards| >= 2) &&
            (r.Ready? ==> multiset(r.deck) == multiset(Somes(cards)) && HasDistinctIds(r.deck))
  {
    hide After, Shuffle.FisherYates, ShuffleCards, Assemble, Map, DeckOf;
    var s := After(Init(maxPlayers), calls);
    InitInv(maxPlayers);
    InvRun(Init(maxPlayers), calls);
    var ids := Shuffle.FisherYates(IdsOf(cards), draws);
    Shuffle.FisherYatesPermutes(IdsOf(cards), draws);
    if selectedSets == [] && s.custom != [] {
      assert [] + s.custom == s.custom;
      MergedDistinct([], s);
      DeckOfCustoms(selectedSets, s.custom, fetched, Ids(ids));
    } else {
      MergedDistinct(fetched.value, s);
      DeckWithFetched(selectedSets, s.custom, fetched, Ids(ids));
    }
    PermutedIdsDistinct(cards, ids, Assemble(selectedSets, s.custom, fetched, Ids(ids)));
  }

  /** No hole, and no id at two positions. */
  predicate HasDistinctIds(deck: Deck) {
    (forall i | 0 <= i < |deck| :: deck[i].Some?) &&
    forall i, j | 0 <= i < j < |deck| :: deck[i].value.id != deck[j].value.id
  }

  lemma PermutedIdsDistinct(cards: seq<Card>, ids: seq<int>, r: Assembled)
    requires DistinctIds(cards) && multiset(ids) == multiset(IdsOf(cards)) && DeckOf(cards, Ids(ids), r)
    ensures r.Ready? <==> |cards| >= 2
    ensures r.Ready? ==> multiset(r.deck) == multiset(Somes(cards)) && HasDistinctIds(r.deck)
  {
    hide Somes;
    forall k | 0 <= k < |ids| && r.Ready?
      ensures r.deck[k].Some? && r.deck[k].value.id == ids[k]
    {
      assert ids[k] in multiset(IdsOf(cards));
      var i :| 0 <= i < |cards| && IdsOf(cards)[i] == ids[k];
      assert NthIs(r.deck[k], cards, ids[k]) && cards[i].id == ids[k];
    }
    DistinctPermutes(IdsOf(cards), ids);
  }

  lemma DistinctPermutes(s: seq<int>, t: seq<int>)
    requires multiset(s) == multiset(t) && Shuffle.Distinct(s)
    ensures Shuffle.Distinct(t)
  {
    forall i, j | 0 <= i < j < |t|
      ensures t[i] != t[j]
    {
      Shuffle.DistinctOnce(s, t[i]);
      assert t == t[..i] + [t[i]] + t[i + 1..j] + [t[j]] + t[j + 1..];
      assert multiset(t) ==
             multiset(t[..i]) + multiset{t[i]} + multiset(t[i + 1..j]) + multiset{t[j]} + multiset(t[j + 1..]);
    }
  }
}
