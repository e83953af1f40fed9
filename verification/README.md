# Verified models of the card game's services

The repository is a multi-language karuta game: browsers talk to an Elixir realtime service, which
asks a Rust judge who was first at a card, a Haskell service to shuffle, a Go gateway to limit
requests, a Scala queue to buffer and replay events, and a C service to serialize cards. This
project models the parts whose correctness is not visible from one function body and proves what
they are for. The main results are for-all statements: over every input, every list of random draws,
every run of calls, or every interleaving of threads, sockets, service calls and browsers. Where a
condition cannot be dropped, a short run shows why.

| File | Models | Main results |
|---|---|---|
| `Room.dfy`, `RoomRuns.dfy` | the room state machine, each handler giving reply, state and messages | life cycle, host, score ledger, custom ids, bounded `next_card` |
| `RoomAnswers.dfy` | the same room | exactly when each request is granted and what it then changes; the three ways a game ends |
| `RoomLives.dfy` | runs past the last leave, after which the supervisor starts the room again | custom ids repeat exactly when two lives give some out |
| `RoomProgress.dfy` | the same room | exactly which leave strands a card, when a settled card opens again, what `all_fouled` means |
| `TakeProtocol.dfy`, `TakeRuns.dfy` | attempt, judge, take as separate steps of many sockets | one credit per card, to the judge's holder; exactly when a card can still be taken |
| `Judge.dfy` | the judge's shared maps and handlers | what each undisturbed call does |
| `JudgeAnswers.dfy` | the same handlers | exactly who wins a request or an item of a batch, and what is held afterwards |
| `JudgeSteps.dfy`, `JudgeResets.dfy` | the same handlers as interleaving atomic steps | first writer wins; exactly when scores, history and entries agree |
| `PlayerNames.dfy` | the two services' limits on a player name | exactly which admitted names the judge refuses |
| `Replica.dfy` | the browser's event reducer behind a queue per connection | a drained client agrees with the server, and exactly when it knows the host |
| `Deck.dfy` | deck assembly at `start_game` | which cards the deck is made of, which answers give none, and that it is a permutation exactly when the shuffle reply is |
| `Shuffle.dfy` | the Fisher-Yates forms and Sattolo | bijections: draws and permutations, strict draws and n-cycles |
| `Seed.dfy`, `UInt32.dfy` | FNV-1a, seed mixing | bijections modulo 2^32, published values |
| `Words.dfy`, `Crc32.dfy`, `CrcTable.dfy`, `CrcResidue.dfy` | the table-driven CRC-32, both copies | equals the bit-serial register; detects every burst of 32 bits; the residue law |
| `Base64.dfy`, `Base64Bits.dfy` | encoder and decoder loops | round trip, exact acceptance, exact sizes; every character spells six bits of the data |
| `BitWriter.dfy`, `BitBytes.dfy` | the bit-packed writer and reader | read-back of every run of writes and alignments; what aligned values are in bytes |
| `PacketCodec.dfy`, `PacketLoops.dfy`, `PacketLayout.dfy`, `BigEndian.dfy`, `Bytes.dfy`, `Buffers.dfy` | the card packet | exact success condition and codes, both round trips, the bytes position by position, which damage is noticed, no read or write outside the buffers |
| `Backpressure.dfy` | the lock-free gate as atomic steps of many threads | never sticks shut, exactly when the low mark is at least 0 |
| `BackpressureBounds.dfy`, `BackpressureOverlap.dfy` | the same gate | exactly when it is shut for calls that do not overlap; how far overlapping ones carry it above the high mark |
| `Replay.dfy`, `ReplayLedger.dfy` | the event fold | replaying the accepted events changes nothing; the final state and every rejection said by the events accepted |
| `RateLimiter.dfy`, `RateBursts.dfy` | the token bucket and its sweep | window bound; bursts answered to the token; sweeping is harmless exactly when a bucket refills within its time to live |
| `MapSum.dfy`, `Modular.dfy`, `Options.dfy` | | shared arithmetic and a shared datatype |

Where the source updates in place (C buffers and tables, the mutable vectors, the judge's maps, the
limiter's buckets, the gate's fields, the replay loop) there is a class or a method with loops, proved
against a function of the old state; the properties are then proved about that function. The Elixir
handlers, the browser's reducer and the Haskell seed code are expressions and stay functions.

Where a member is proved against a specification function, another statement says what that function
means without going through it: in bits and bytes, accepted events, published values, or the condition
written out.

Conventions: a random draw, a clock reading, another service's answer and the moment at which a
message arrives are parameters, and the theorems hold for all of them. `After` is the state a list of
calls, operations or actions leads to (`AfterAll` in the take protocol). A life of a room is what one
process of it lives through, from its start to the leave of its last player. Signed and unbounded
integers are Dafny's; 32-bit wrap-around is written out wherever the source relies on it.

## What turned out false, and the exact condition

- A room does not end with its last player: its child specification is permanent, so the supervisor
  starts it again under the same id (`services/realtime/lib/realtime/room.ex:2`,
  `services/realtime/lib/realtime/room_supervisor.ex:12-15`). Custom card ids repeat exactly when two
  lives of the room each give one out (`RoomLives.IdsRepeatExactlyWhen`); the judge keeps the entries of
  the earlier life, and every card it holds can then be taken by nobody but its holder
  (`TakeRuns.NewLifeAbandons`); and the first to come back is the host on the server and told
  otherwise. A drained client knows whether it is the host exactly if it did not enter an empty room by
  `room_joined` (`Replica.DrainedClientsAgree`, `Replica.FirstBackIsMisled`).
- Somebody in the room can act on an open card until, and only until, a leave after which everybody
  left has fouled (`RoomProgress.StrandsExactlyWhen`, over whole runs
  `RoomProgress.StrandedRunExactlyWhen`); then nothing the people in it can do changes anything
  (`RoomProgress.StrandedStays`).
- `all_fouled` compares two numbers: everybody present is barred exactly if the fouls reach the number
  of players without those of people who have left (`RoomProgress.AllFouledMeansAllBarredExactlyWhen`).
- A resolved card does not stay resolved: a foul after a take opens it again, exactly if the fouls are
  still fewer than the players (`RoomProgress.ReopensExactlyWhen`), and a card so reopened cannot be
  taken (`RoomProgress.ReopenedCardStaysOpen`).
- A card the judge holds for a player and the room has not credited can be taken without that player
  trying again exactly if some socket is on its way to take it (`TakeRuns.AbandonedExactlyWhen`); a
  socket that ends between the judge's answer and `take_card` leaves one behind
  (`TakeRuns.AbandonmentHappens`).
- Credits and the judge's entries agree in every run without a reset of the room; a reset keeps them
  so exactly if no socket is about to take and nothing has been credited
  (`TakeProtocol.ResetKeepsSafetyExactlyWhen`).
- The judge's scores count its history, and its history names the holders, exactly if no credit fell
  between the drops of scores and history, and no line outlived its card's entry
  (`JudgeResets.ConsistentExactlyWhen`). Once no call is under way this holds if no reset of a room
  overlapped a winning call of the room (`JudgeResets.QuietIsConsistent`); an overlap can break it for
  good (`JudgeResets.CreditBetweenDrops`, `JudgeResets.CreditAfterReset`).
- The realtime service admits names of up to twelve grapheme clusters, the judge names of up to 32
  bytes. An admitted name is refused exactly if it takes more than 32 bytes
  (`PlayerNames.AdmittedButRefusedExactlyWhen`), which can happen at every admitted length
  (`PlayerNames.NoLengthIsSafe`), and whoever bears one is never credited with a card
  (`TakeProtocol.LongNamesNeverTake`).
- `validate_packet_buffer` puts the magic number together with the first byte lowest, while packets have
  it highest: it accepts exactly the buffers that start with the letters backwards and version 1
  (`PacketLayout.PrecheckAcceptsExactlyWhen`), so it refuses every packet `card_pack` makes, and
  `card_unpack` refuses everything it accepts (`PacketLayout.PrecheckRefusesPackets`,
  `PacketLayout.PassedIsNotUnpacked`).
- The high mark bounds the depth for calls that do not overlap
  (`BackpressureBounds.NeverOverfull`). It does not for two threads: a release that saw a low depth may
  open the gate late, when it is full again (`BackpressureOverlap.LateOpenOverfills`). With n threads
  the depth stays within n * n - 1 of it (`BackpressureOverlap.DepthBound`).
- The points in a replay are the cards taken exactly if nobody who took a card left later
  (`ReplayLedger.PointsAreCardsExactlyWhen`).
- The gate can stick shut if the low mark is negative; it never does exactly when it is at least 0
  (`Backpressure.NeverSticksExactlyWhen`).
- `base64_decoded_size` is called an upper bound in its comment; it is one short for an unpadded text
  of length 3 modulo 4 and large enough otherwise (`Base64.DecodedSizeSuffices`).
- The sweep changes an answer of the limiter exactly when at least one token fits into a bucket and
  an empty bucket does not refill within ten minutes (`RateLimiter.SweepsHarmlessExactlyWhen`).
- `fisherYatesWithSeed` fails on the empty vector, where the other two forms return it.
- The comment at `services/shuffle/src/Main.hs:60` calls Sattolo's result free of cycles; it is
  always exactly one cycle through all positions (`Shuffle.SattoloSingleCycle`).
- Re-packing a received packet reproduces its bytes exactly when the reserved bytes are 0 and no
  string holds a NUL (`PacketCodec.RepackExactlyWhen`).

## Model

| member | source | states |
|---|---|---|
| RoomRuns.InvStep | services/realtime/lib/realtime/room.ex:40-249 | every handler keeps: distinct processes and names, at most max_players, host is the longest-standing player (none if empty), at most 10 custom cards with increasing ids in [1000000, next id), nothing played while waiting, the index inside the deck afterwards, and the count limit on taken cards |
| RoomRuns.InvRun | services/realtime/lib/realtime/room.ex:32-249 | the same over every list of calls, past the last leave and the restart it brings |
| RoomRuns.ReachedInOneLife | services/realtime/lib/realtime/room_supervisor.ex:9-15 | every reachable state is reached from a new room within one life, so what holds of one life holds of every reachable state |
| RoomRuns.LeaveKeepsMembers | services/realtime/lib/realtime/room.ex:233-249 | leave and DOWN hand the host role to the next longest-standing player |
| RoomRuns.JoinKeepsMembers | services/realtime/lib/realtime/room.ex:41-55 | join keeps processes and names distinct, the size bound, and the longest-standing player as host |
| RoomRuns.CustomsKept | services/realtime/lib/realtime/room.ex:63-100 | adding and removing custom cards keeps ids distinct, increasing and in range |
| RoomRuns.PlayKept | services/realtime/lib/realtime/room.ex:102-196 | play happens only inside a started deck, and in count mode with value n at most max(n, 1) cards are ever taken |
| RoomRuns.OnwardRun | services/realtime/lib/realtime/room.ex:40-249 | within one life of the room: status only moves waiting, playing, finished; deck and settings are fixed once started; index and taken cards only grow; scores and taken cards freeze once finished |
| RoomRuns.StartsByStartGame | services/realtime/lib/realtime/room.ex:102-120 | only a successful start_game, with two players and two cards, leaves waiting |
| RoomRuns.NoNextBeforeStart | services/realtime/lib/realtime/room.ex:137-148 | next_card, which checks no status, is refused in every reachable waiting state |
| RoomRuns.NextSkipsTaken | services/realtime/lib/realtime/room.ex:137-148 | next_card moves to the first later card not taken, clears fouls and resolution, and ends the game exactly when all later cards are taken |
| Room.FindFrom | services/realtime/lib/realtime/room.ex:217-223 | the position found is in range and not taken, and everything skipped is taken |
| RoomRuns.NextsRaiseIndex | services/realtime/lib/realtime/room.ex:137-148 | within one life the index rises by at least the number of successful next_card calls |
| RoomRuns.NextsBounded | services/realtime/lib/realtime/room.ex:137-148 | within one life next_card succeeds at most one time less than there are cards, and never before the start |
| RoomRuns.BalancedStep | services/realtime/lib/realtime/room.ex:150-179 | one call keeps the ledger of the room's present life: score is wins less fouls, a name fouls at most once per reading, each taken id is credited once; a last leave starts a new one |
| RoomRuns.ScoresAddUp | services/realtime/lib/realtime/room.ex:102-179 | in every reachable state, by the ledger of the room's present life: scores sum to taken cards less fouls, each lies in [-(index+1), taken], and every id is credited exactly as often as it is in the taken set |
| RoomRuns.IdsNeverReused | services/realtime/lib/realtime/room.ex:63-100 | the ids issued in one life, removals included, strictly increase from the start id |
| RoomLives.FirstIsBase | services/realtime/lib/realtime/room.ex:32-38 | the first id a new room gives out is 1000000 |
| RoomLives.IdsRepeatExactlyWhen | services/realtime/lib/realtime/room.ex:233-243 | over any run, restarts included, an id is given out twice exactly when two lives each give one out |
| RoomRuns.AddThenRemove | services/realtime/lib/realtime/room.ex:63-100 | a player can take back the card just added, and only the used id remains of it |
| RoomRuns.RemoveExactlyWhen | services/realtime/lib/realtime/room.ex:85-100 | a card goes exactly if it is there, the room waits, and its uploader or the host asks; then that card and no other; otherwise nothing changes |
| RoomAnswers.JoinExactlyWhen | services/realtime/lib/realtime/room.ex:41-55 | granted exactly if the room is not full and neither the process nor the name is there; then the player is appended, and a refusal changes and sends nothing |
| RoomAnswers.LeaveExactlyWhen | services/realtime/lib/realtime/room.ex:233-249 | a stranger's leave does nothing; a player's takes out that player only, keeps the order, makes the first who stays host, and starts a new room if nobody stays |
| RoomAnswers.AddExactlyWhen | services/realtime/lib/realtime/room.ex:63-83 | granted exactly if the room waits and has fewer than ten; the card carries each field as sent, the uploader and the next id |
| RoomAnswers.StartExactlyWhen | services/realtime/lib/realtime/room.ex:102-120 | a game starts exactly from a waiting room with two players and two cards, on the first card, everybody at 0, nobody barred, nothing taken |
| RoomAnswers.SpeakExactlyWhen | services/realtime/lib/realtime/room.ex:122-135 | the current card's text is sent to everybody exactly if a game is on and the card has one |
| RoomAnswers.AttemptExactlyWhen | services/realtime/lib/realtime/room.ex:150-166 | an attempt is valid exactly on the card being read by a player who has not fouled; another by such a player in a game costs that player, and nobody else, one point |
| RoomAnswers.TakeEndsExactlyWhen | services/realtime/lib/realtime/room.ex:168-179 | a card not taken is credited with one point, and the take ends the game exactly if the mode is count, the value an integer n, and it is the n-th or a later one |
| RoomAnswers.TakeRefusedExactlyWhen | services/realtime/lib/realtime/room.ex:168-171 | refused, without effect, exactly outside a game or for a card already taken |
| RoomAnswers.TimeUpExactlyWhen | services/realtime/lib/realtime/room.ex:186-193 | the clock ends a game under way and tells everybody the scores, and does nothing at any other time |
| RoomAnswers.FinishesExactlyWhen | services/realtime/lib/realtime/room.ex:137-193 | a call ends the game exactly if it is time_up, a next card with all later ones taken, or the n-th take in count mode |
| RoomAnswers.HowGamesEnd | services/realtime/lib/realtime/room.ex:137-193 | in every life that finishes, one of the three ended it, and nothing was taken afterwards |
| RoomAnswers.FinishedBelowCount | services/realtime/lib/realtime/room.ex:225-226 | in every run, a count room finished with fewer than n cards taken was ended by time_up or by a next card that found all later ones taken |
| RoomProgress.SomeoneCanAct | services/realtime/lib/realtime/room.ex:137-166 | in every run without a leave, an open card leaves a player free to attempt it |
| RoomProgress.StrandsExactlyWhen | services/realtime/lib/realtime/room.ex:233-243 | a call bars everybody present from an open card exactly if it is a leave after which all who stay have fouled |
| RoomProgress.StrandedRunExactlyWhen | services/realtime/lib/realtime/room.ex:40-249 | a run is ever stranded exactly if it ever has such a leave |
| RoomProgress.FoulThenLeaveStrands | services/realtime/lib/realtime/room.ex:233-243 | from any waiting room of two: start, a foul by one, a leave by the other, and the one left is barred from an open card |
| RoomProgress.StrandedStays | services/realtime/lib/realtime/room.ex:137-166 | in such a room no run of calls by those in it changes anything |
| RoomProgress.ReopensExactlyWhen | services/realtime/lib/realtime/room.ex:137-166 | a settled card gives way to an open one exactly by a next card or by a first foul that leaves fewer fouls than players |
| RoomProgress.ReopenedCardStaysOpen | services/realtime/lib/realtime/room.ex:150-179 | a reopened card that was taken is not settled by another take of it |
| RoomProgress.AllFouledMeansAllBarredExactlyWhen | services/realtime/lib/realtime/room.ex:156-162 | after a foul everybody present is barred exactly if the fouls reach the number of players without those of people who left; all_fouled is implied, not the other way |
| RoomProgress.DepartedFoulSettles | services/realtime/lib/realtime/room.ex:156-162 | three players, a foul, a leave and a second foul settle a card the third has not fouled on |
| Deck.DeckIsPermutationExactlyWhen | services/realtime/lib/realtime/socket_handler.ex:218-228 | with distinct ids, the deck has exactly the given cards and no hole if and only if the reply permutes the ids |
| Deck.DeckOfService | services/realtime/lib/realtime/socket_handler.ex:97-110 | in every reachable room, the shuffle service's Fisher-Yates answer gives a deck that is a permutation, with distinct ids, of the custom cards alone if nothing is selected and there are some, and otherwise of the fetched and the custom cards |
| Deck.DeckWithFetched | services/realtime/lib/realtime/socket_handler.ex:177-198 | with a selection, or without custom cards: a failed fetch gives no deck, and otherwise the deck is made of the fetched cards and the custom ones behind them; too few of them give the two refusals, and entry k is the card the shuffle answered at k |
| Deck.DeckOfCustoms | services/realtime/lib/realtime/socket_handler.ex:177-177 | with custom cards and no selection the deck is made of the custom cards alone, whatever a fetch would give |
| Deck.MergedDistinct | services/card-gen/loader.py:152-163 | official ids, distinct and below 1000000, never meet custom ids |
| Deck.CardMapFinds | services/realtime/lib/realtime/socket_handler.ex:224-225 | with distinct ids the id map finds each card |
| TakeProtocol.RoomSafeStep | services/realtime/lib/realtime/socket_handler.ex:150-173 | every step of every socket keeps: a taken id, and an id on its way to the judge or to take_card, was read; a socket on its way is in the room; the ledger balances |
| TakeProtocol.TakenOnceAndRead | services/realtime/lib/realtime/socket_handler.ex:150-173 | in every interleaving, judge resets and restarts of the room included, a taken id belongs to a card at an index up to the current one and is credited exactly once in the room's present life, no other id at all |
| TakeProtocol.JudgeSafeStep | services/judge/src/main.rs:197-202 | every step but a reset keeps: a socket about to take and every credit given are backed by the judge's entry |
| TakeProtocol.CreditedToHolder | services/realtime/lib/realtime/socket_handler.ex:150-173 | in every interleaving without a reset of the room's entries, each credit ever given under the room id went to the one player the judge holds for the card |
| TakeProtocol.ResetKeepsSafetyExactlyWhen | services/judge/src/main.rs:290-305 | a reset of the room keeps entries and credits in agreement exactly if no socket is about to take and nothing was credited |
| TakeProtocol.LongNamesNeverTake | services/judge/src/main.rs:164-185 | in every interleaving no credit goes to a name of more than 32 bytes |
| TakeRuns.ResetThenOther | services/judge/src/main.rs:290-305 | from any state with a socket about to take, a reset lets the judge give the credited card to somebody else |
| TakeRuns.ResetBreaksHolder | services/judge/src/main.rs:290-305 | such a state is reached, so the condition of CreditedToHolder is needed |
| TakeRuns.AbandonedExactlyWhen | services/realtime/lib/realtime/socket_handler.ex:154-165 | a card held at the judge and not credited can be taken without its holder trying again exactly if some socket is on its way to take it |
| TakeRuns.AbandonedCardStaysOpen | services/realtime/lib/realtime/socket_handler.ex:154-165 | otherwise no run without a reset and without the holder ever takes it |
| TakeRuns.ThreeStepsTakeExactlyWhen | services/realtime/lib/realtime/socket_handler.ex:150-173 | a player free to attempt the current card, with a name the judge accepts, takes it by the three steps exactly if the judge holds it for nobody or for that player |
| TakeRuns.NewLifeAbandons | services/realtime/lib/realtime/room.ex:233-243 | the last leave starts the room afresh with every card the judge holds already abandoned |
| TakeRuns.AbandonmentHappens | services/realtime/lib/realtime/socket_handler.ex:154-165 | a socket lost between the judge's answer and take_card leaves such a card behind |
| Judge.Service.Judge | services/judge/src/main.rs:189-234 | an undisturbed call gives the reply and leaves the four maps that the handler is specified by; a refused request changes nothing |
| Judge.Service.BatchJudge | services/judge/src/main.rs:238-269 | an undisturbed batch: more than 100 items are refused; an invalid item stops it and earlier entries stay; only the winners map changes |
| Judge.Retain | services/judge/src/main.rs:299-302 | removing entry by entry leaves exactly those of other rooms |
| Judge.ResetForgetsOneRoom | services/judge/src/main.rs:290-305 | a reset makes a room like one never heard of and leaves every other room as it was |
| Judge.LineMeasuresFromMark | services/judge/src/main.rs:204-219 | a winner's history line measures whole milliseconds from the last mark of the card, never less than 0 |
| JudgeAnswers.WonExactlyWhen | services/judge/src/main.rs:164-234 | a valid request wins exactly if the card is free or already the player's; a win is one point, one line and the entry, a loss nothing, and no other score, line or entry changes |
| JudgeAnswers.BatchAnswers | services/judge/src/main.rs:238-269 | an item wins exactly if its player held the card before or is the batch's first for it; the entries left are those of the items before the first invalid one |
| JudgeSteps.JudgeAlone | services/judge/src/main.rs:189-234 | the atomic steps of a judge call with nothing in between do what the handler is specified by |
| JudgeSteps.BatchAlone | services/judge/src/main.rs:248-268 | so do those of a batch, item by item |
| JudgeSteps.ResetAlone | services/judge/src/main.rs:290-305 | so do those of a reset |
| JudgeSteps.FollowsStep | services/judge/src/main.rs:189-305 | every atomic step of every call keeps the maps what the order of entries, credits and drops makes them |
| JudgeSteps.FirstWriterWins | services/judge/src/main.rs:197-202 | in every interleaving of single calls, batch items and resets: until the room's winners are dropped an entry stays, and what its caller was told is whether the entry is its own |
| JudgeSteps.OneWinnerPerCard | services/judge/src/main.rs:197-202 | two players are told they won one card only if the room's winners were dropped between |
| JudgeSteps.ScoresAgreeExactlyWhen | services/judge/src/main.rs:211-219 | all scores of a room equal its counts of history lines exactly if no credit has lost just one of the two |
| JudgeResets.ConsistentExactlyWhen | services/judge/src/main.rs:189-305 | after any interleaving: scores count the lines and lines name the holders exactly if no credit has lost just one of the two and no line outlived its card's entry without the same player coming first again |
| JudgeResets.QuietIsConsistent | services/judge/src/main.rs:189-305 | with no call under way both hold if no reset of the room overlapped a winning call of it |
| JudgeResets.CreditBetweenDrops | services/judge/src/main.rs:299-302 | from any state with a winning call about to credit: a credit between the drops of scores and history leaves a score of 1 and no line |
| JudgeResets.CreditAfterReset | services/judge/src/main.rs:299-302 | and a whole reset before the credit leaves a line whose card has no holder |
| PlayerNames.AdmittedButRefusedExactlyWhen | services/realtime/lib/realtime/socket_handler.ex:249-256 | an admitted name is refused by the judge exactly if it takes more than 32 bytes |
| PlayerNames.KanaNames | services/realtime/lib/realtime/socket_handler.ex:249-256 | of names of n three-byte clusters the room admits those up to 12 and the judge accepts those up to 10 |
| PlayerNames.NoLengthIsSafe | services/judge/src/main.rs:174-176 | every admitted number of clusters has a name the judge refuses |
| Replica.DrainTold | services/frontend/src/hooks/useGame.ts:64-117 | events behind a queue act after everything queued |
| Replica.InboxBroadcast | services/realtime/lib/realtime/room.ex:251-251 | a broadcast reaches each listed process exactly once and nobody else |
| Replica.JoinMatches | services/frontend/src/hooks/useGame.ts:77-78 | a client in the room agrees with the server after a join elsewhere |
| Replica.LeaveMatches | services/frontend/src/hooks/useGame.ts:79-82 | and after a leave with its host_changed |
| Replica.StartMatches | services/frontend/src/hooks/useGame.ts:83-95 | and after game_started with the first card_reading |
| Replica.NextMatches | services/frontend/src/hooks/useGame.ts:91-95 | and after next_card, whether it reads a card or ends the game |
| Replica.AttemptMatches | services/frontend/src/hooks/useGame.ts:87-90 | and after a foul, own or not |
| Replica.TakeMatches | services/frontend/src/hooks/useGame.ts:104-112 | and after a take, also one that ends the game |
| Replica.TimeUpMatches | services/frontend/src/hooks/useGame.ts:110-112 | and after time_up |
| Replica.EnterSelf | services/frontend/src/hooks/useGame.ts:69-71 | a newcomer's room_joined gives the server's player list, and is wrong about the host role exactly if the room was empty |
| Replica.StepAgree | services/frontend/src/hooks/useGame.ts:64-117 | every call, entry and delivery keeps the agreement of every connection in the room |
| Replica.DrainedClientsAgree | services/frontend/src/hooks/useGame.ts:64-117 | in every interleaving a drained client has the server's players in order and, exactly if it was there at game_started, its deck, settings, current card, index, taken cards, scores (missing is 0), own foul and phase; it knows whether it is the host exactly if it did not enter an empty room by room_joined |
| Replica.FirstBackIsMisled | services/frontend/src/hooks/useGame.ts:69-71 | the last leave, a join and all frames delivered: the server has a host who is told otherwise |
| Shuffle.FisherYatesInPlace | services/shuffle/src/Main.hs:51-58 | the mutable form returns the pure form's vector for the same draws |
| Shuffle.SattoloInPlace | services/shuffle/src/Main.hs:62-69 | the same for draws strictly below their position |
| Shuffle.FisherYatesWithSeed | services/shuffle/src/Main.hs:73-84 | the seeded form agrees with them on every non-empty vector and fails on the empty one |
| Shuffle.GoPlaces | services/shuffle/src/Algorithms.hs:88-92 | each position ends with the element drawn for it |
| Shuffle.FisherYatesPermutes | services/shuffle/src/Algorithms.hs:83-98 | the result is a permutation of the input |
| Shuffle.FisherYatesInjective | services/shuffle/src/Algorithms.hs:83-98 | with distinct elements different draws give different results |
| Shuffle.FisherYatesBijection | services/shuffle/src/Algorithms.hs:83-98 | every permutation comes from exactly one draw list |
| Shuffle.SattoloSingleCycle | services/shuffle/src/Main.hs:62-69 | Sattolo moves the elements along one cycle through all positions |
| Shuffle.SattoloPeriod | services/shuffle/src/Main.hs:62-69 | each position returns after exactly the multiples of n steps |
| Shuffle.CycleHasNoFixedPoint | services/shuffle/src/Main.hs:62-69 | with two or more positions none stays in place |
| Shuffle.SattoloBijection | services/shuffle/src/Main.hs:62-69 | every permutation that is one cycle comes from exactly one list of strict draws |
| Seed.ChecksumFnv1a | services/serializer/checksum.c:55-65 | the C loop and its early return give what the Haskell fold gives |
| Seed.ByteSubstitutionChangesHash | services/serializer/checksum.c:55-65 | substituting one byte always changes the FNV-1a value |
| Seed.FoldSubstitution | services/shuffle/src/Seed.hs:38-43 | the same for the Haskell fold over words, of which the low eight bits count |
| Seed.MixSeedFirstBijective | services/shuffle/src/Seed.hs:47-51 | mixSeed has a two-sided inverse in its first argument |
| Seed.MixSeedSecondBijective | services/shuffle/src/Seed.hs:47-51 | and in its second |
| Seed.SubSeedsDistinct | services/shuffle/src/Seed.hs:55-59 | distinct bases keep distinct k-th sub-seeds for every k |
| Seed.ChunkedSeedAt | services/shuffle/src/Seed.hs:55-59 | the k-th sub-seed is the base stirred k times |
| Seed.LastByteUndone | services/serializer/checksum.c:60-63 | undoing the multiplication leaves the hash before the last byte with that byte in it, so the XOR comes first |
| Seed.FnvValues | services/serializer/checksum.c:52-65 | the published values of no bytes and of the letter a |
| Seed.MixValues | services/shuffle/src/Seed.hs:47-51 | two values of mixSeed, one bit smeared from either argument |
| Crc32.TableStepIsEightShifts | services/serializer/checksum.c:24-45 | one table step is eight shifts of the reflected register |
| Crc32.TableIsBitSerial | services/serializer/checksum.c:35-48 | the table form equals the bit-at-a-time register with polynomial 0xEDB88320 on every byte string |
| CrcTable.Table.Build | services/serializer/checksum.c:24-33 | all 256 entries are eight shifts of their index |
| CrcTable.Table.ChecksumCrc32 | services/serializer/checksum.c:35-48 | the first copy computes the reference, null and empty buffers included |
| CrcTable.Table.Crc32Compute | services/serializer/serializer.c:55-62 | so does the second |
| Crc32.EmptyReference | services/serializer/checksum.c:36-38 | the early return is what the other copy computes for no bytes |
| Crc32.BurstDetected | services/serializer/checksum.c:24-48 | messages that differ only inside 32 consecutive bits have different checksums |
| Crc32.FourByteBurstDetected | services/serializer/checksum.c:24-48 | buffers that differ only inside four consecutive bytes have different checksums |
| CrcResidue.ResidueLaw | services/serializer/checksum.c:35-48 | a message followed by its own checksum, low byte first, always has checksum 0x2144DF1C, which fixes polynomial, preset and complement |
| CrcResidue.LeadingZeroCounts | services/serializer/checksum.c:42-46 | a zero byte in front always changes the checksum |
| CrcResidue.CheckValue | services/serializer/checksum.c:24-48 | the published check value of the digits 1 to 9, 0xCBF43926 |
| Base64.OctetsOfSextets | services/serializer/base64.c:65-95 | regrouping bytes into sextets and back is the identity |
| Base64.SextetsOfOctets | services/serializer/base64.c:123-142 | the other way round it is the identity exactly on canonical sextets |
| Base64.EncodedText | services/serializer/base64.c:42-44 | encoded lengths are exact, padded and unpadded |
| Base64.DoEncode | services/serializer/base64.c:51-96 | code, text, closing NUL and the untouched rest of the buffer |
| Base64.DecodeTables.Decode | services/serializer/base64.c:106-157 | code and buffer for every input, refused ones included |
| Base64.AccumulatorStep | services/serializer/base64.c:132-139 | the 32-bit accumulator may wrap: its low bits are the pending ones and each octet emitted is the right one |
| Base64.DecodeBody | services/serializer/base64.c:127-142 | the decoding loop against its specification |
| Base64.RoundTrip | services/serializer/base64.c:51-157 | decoding an encoded text gives the bytes back, both alphabets, padded or not |
| Base64.AcceptedExactlyWhen | services/serializer/base64.c:106-143 | accepted exactly when all before the trailing '=' is in the alphabet and floor(3n/4) octets fit; then exactly that many are produced |
| Base64.DecodedSizeSuffices | services/serializer/base64.c:46-49 | the advertised size is enough exactly unless the text is unpadded with length 3 modulo 4 |
| Base64.ReencodeUnpadded | services/serializer/base64.c:51-157 | re-encoding an accepted unpadded text reproduces it exactly when its sextets are canonical |
| Base64Bits.LetterIsListed | services/serializer/base64.c:17-21 | the letters are those of the two alphabets as listed |
| Base64Bits.TextSpellsBits | services/serializer/base64.c:65-95 | character i is the alphabet's character for bits 6i to 6i+5 of the data, most significant first, zero bits filling up the last |
| Base64Bits.TextEnds | services/serializer/base64.c:73-93 | after these characters come exactly the equals signs that fill the last group of four, and none without padding |
| BitStream.BitWriter.Init | services/serializer/bitwriter.c:18-27 | an empty stream over a zeroed buffer; bytes beyond the size stay |
| BitStream.BitWriter.Write | services/serializer/bitwriter.c:29-52 | an accepted write appends the value's bits, a rejected one changes neither buffer nor position |
| BitStream.BitWriter.AlignByte | services/serializer/bitwriter.c:59-65 | appends zero bits up to the next byte |
| BitStream.BitWriter.BytesUsed | services/serializer/bitwriter.c:54-57 | the number of bytes the stream needs |
| BitStream.BitReader.Read | services/serializer/bitwriter.c:79-100 | the number formed by the next bits, or an error and no move |
| BitStream.NumberOfValueBits | services/serializer/bitwriter.c:42-50 | writing w bits and reading them gives the value modulo 2^w |
| BitStream.ReadBack | services/serializer/bitwriter.c:29-100 | for every run of writes and alignments, reading the accepted widths gives each value modulo 2^width in order, padding reading as zero, whatever follows |
| BitStream.ContentsAreBufferFront | services/serializer/bitwriter.c:69-77 | a reader over the writer's buffer sees the written stream first |
| BitBytes.ByteSpelled | services/serializer/bitwriter.c:42-50 | eight bits of a buffer from a byte boundary on spell that byte, most significant bit first |
| BitBytes.AlignedByteWritten | services/serializer/bitwriter.c:29-52 | an accepted write of 8 bits at a byte boundary stores the value modulo 256 in that byte |
| BitBytes.AlignedWordWritten | services/serializer/bitwriter.c:29-52 | an accepted write of 32 bits at a byte boundary stores the value's four bytes in big-endian order |
| BitBytes.AlignedByteRead | services/serializer/bitwriter.c:90-98 | reading 8 bits at a byte boundary gives the byte |
| PacketCodec.StrLen | services/serializer/serializer.c:76-78 | index of the first NUL, or the array size |
| PacketCodec.ValidMeans | services/serializer/serializer.c:70-80 | a card passes exactly with a non-zero id and three non-empty terminated strings |
| PacketLoops.ValidateCards | services/serializer/serializer.c:82-89 | the loop gives the code of the first bad card |
| PacketCodec.AllValid | services/serializer/serializer.c:82-89 | which is OK exactly when every card passes |
| PacketLoops.EncodeSingle | services/serializer/serializer.c:93-135 | code, size and bytes of one card; nothing else in the buffer changes, and nothing at all on failure |
| PacketLoops.CardPack | services/serializer/serializer.c:185-229 | code for every input; on success exactly the packet is stored; after an overflow the header and the cards that fit; nothing beyond out_size is ever written, and nothing at all before the checks have passed |
| PacketCodec.PackSucceedsExactlyWhen | services/serializer/serializer.c:185-229 | success exactly when count is at most 256, all cards are valid and out_size is at least 16 plus 10 and the string lengths per card |
| PacketLoops.DecodeSingle | services/serializer/serializer.c:139-181 | code, consumed size and struct for arbitrary bytes, also the partly filled struct after an error |
| PacketCodec.FillingIsCards | services/serializer/serializer.c:257-261 | if all cards parse, the structs are those cards and then what was there |
| PacketLoops.ReadCards | services/serializer/serializer.c:257-261 | the loop keeps offset + 4 at most buf_size, decodes as the parser does and fills the structs up to the first card that does not parse |
| PacketLoops.CardUnpack | services/serializer/serializer.c:233-272 | code, count and every struct for arbitrary bytes, without underflow or a read outside |
| PacketCodec.UnpackOfPacket | services/serializer/serializer.c:185-272 | unpacking a packet with any trailing bytes gives the cards it was made of |
| PacketCodec.UnpackOfPack | services/serializer/serializer.c:185-272 | for packed structs: the same ids and strings |
| PacketCodec.PacketOfUnpack | services/serializer/serializer.c:233-272 | everything accepted is, up to the reserved bytes, the packet of the cards returned |
| PacketCodec.RepackExactlyWhen | services/serializer/serializer.c:185-272 | packing the decoded structs reproduces the bytes read exactly when the reserved bytes are 0 and no string holds a NUL |
| PacketCodec.StructRoundTrip | services/serializer/serializer.c:93-181 | a valid struct decodes to one with the same strings, again valid |
| PacketLayout.FrameBytes | services/serializer/serializer.c:196-225 | a packet starts with 4B 52 54 55, version 1, three zero bytes and the count, and ends with the CRC-32 of all before, most significant bytes first |
| PacketLayout.CardsInPlace | services/serializer/serializer.c:109-133 | card k starts where the sizes of the cards before put it, its id and its three strings behind their lengths in order, and the trailer follows the last |
| PacketLayout.DamageNoticed | services/serializer/serializer.c:263-268 | up to four neighbouring damaged bytes before or in the trailer are refused, unless they make the cards end earlier |
| PacketLayout.CardRefusals | services/serializer/serializer.c:70-80 | which of the two codes a bad card gets |
| PacketLayout.PackRefusals | services/serializer/serializer.c:185-229 | the codes of card_pack and their order, the first bad card deciding |
| PacketLayout.UnpackRefusals | services/serializer/serializer.c:233-272 | the code of card_unpack for every buffer: header errors in order, then whether the cards parse, then whether the trailer is the one sealing them |
| PacketLayout.CutCardFills | services/serializer/serializer.c:139-181 | a card cut off after ten bytes or more fills its struct with the id and exactly the strings that arrived whole |
| PacketLayout.PrecheckAcceptsExactlyWhen | services/serializer/serializer.c:396-420 | the look offered over HTTP accepts exactly buffers that start with the magic letters backwards and version 1 |
| PacketLayout.PrecheckRefusesPackets | services/serializer/serializer.c:396-420 | so it refuses every packet card_pack makes, with the code for a wrong magic number |
| PacketLayout.PassedIsNotUnpacked | services/serializer/serializer.c:233-245 | and card_unpack refuses everything it accepts |
| BigEndian.U32RoundTrip | services/serializer/serializer.c:110-113 | reading a written 32-bit number gives it back |
| BigEndian.U32Back | services/serializer/serializer.c:149-150 | writing a read 32-bit number gives the same bytes |
| Buffers.Put | services/serializer/serializer.c:118-119 | a run is stored and nothing else changes |
| Backpressure.Backpressure.TryAcquire | services/queue/src/main/scala/Backpressure.scala:29-40 | an undisturbed call is the run of its atomic steps |
| Backpressure.Backpressure.Release | services/queue/src/main/scala/Backpressure.scala:43-48 | an undisturbed call is the run of its atomic steps |
| Backpressure.StepInv | services/queue/src/main/scala/Backpressure.scala:29-48 | every atomic step of every thread keeps: depth counts slots and calls under way, and a shut gate is or will be reopened |
| Backpressure.NeverSticks | services/queue/src/main/scala/Backpressure.scala:29-48 | with low mark at least 0, depth 0 and nothing in flight imply an open gate, in every interleaving |
| Backpressure.QuietDepth | services/queue/src/main/scala/Backpressure.scala:29-48 | with nothing in flight depth is the number of slots out |
| Backpressure.NeverSticksExactlyWhen | services/queue/src/main/scala/Backpressure.scala:17-48 | the gate can never stick exactly when the low mark is at least 0 |
| BackpressureBounds.OneCall | services/queue/src/main/scala/Backpressure.scala:29-48 | what one whole call does to a gate at rest, by the two marks |
| BackpressureBounds.ShutExactlyWhen | services/queue/src/main/scala/Backpressure.scala:29-48 | for calls that do not overlap the gate is shut exactly if an acquire met the high mark and the depth has not been down to the low mark since |
| BackpressureBounds.NeverOverfull | services/queue/src/main/scala/Backpressure.scala:29-48 | for such calls the depth stays between 0 and the high mark, and below it while the gate is open |
| BackpressureOverlap.ReachFalls | services/queue/src/main/scala/Backpressure.scala:29-48 | no atomic step at or above the high mark raises the depth the gate can still come to |
| BackpressureOverlap.DepthBound | services/queue/src/main/scala/Backpressure.scala:29-48 | in every interleaving of n threads the depth exceeds the larger of 1 and the high mark by at most n * n - 1 |
| BackpressureOverlap.LateOpenOverfills | services/queue/src/main/scala/Backpressure.scala:43-48 | a run of two threads after which the gate is open at the high mark, and one more acquire goes above it |
| Replay.Replay | services/queue/src/main/scala/Replay.scala:58-79 | the loop gives the outcome the fold specifies |
| Replay.SortMultiset | services/queue/src/main/scala/Replay.scala:59-59 | the sort keeps exactly the events given |
| Replay.SortStable | services/queue/src/main/scala/Replay.scala:59-59 | events of one timestamp keep their order |
| Replay.CountsAndSnapshots | services/queue/src/main/scala/Replay.scala:58-79 | processed and rejected add up to the input, and snapshot k is the state after (k+1)*everyN accepted events |
| Replay.ReplayOfAccepted | services/queue/src/main/scala/Replay.scala:58-122 | replaying the accepted events gives the same state and snapshots and rejects nothing |
| Replay.ScoresWithinCards | services/queue/src/main/scala/Replay.scala:82-114 | scores never add up to more than the cards taken |
| ReplayLedger.FinalStateByEvents | services/queue/src/main/scala/Replay.scala:82-122 | by the accepted events: who joined and did not leave is there, with as many points as cards taken since the last join; the cards gone are those taken, each once; finished exactly if a finish was accepted |
| ReplayLedger.PointsAreCardsExactlyWhen | services/queue/src/main/scala/Replay.scala:82-114 | the points of those present add up to the cards taken exactly if nobody who took a card left later |
| ReplayLedger.RejectedExactlyWhen | services/queue/src/main/scala/Replay.scala:82-114 | an event is listed with a reason exactly if the events accepted before it give that reason: after a finish, another room id, a player who is there, a card gone, a player who is not there; in order, with position |
| ReplayLedger.AcceptedExactlyWhen | services/queue/src/main/scala/Replay.scala:65-76 | every event not turned away is accepted, and no other |
| RateLimiter.Limiter.Allow | services/gateway/ratelimit.go:58-81 | answer and buckets of one request |
| RateLimiter.Limiter.SweepOld | services/gateway/ratelimit.go:230-238 | exactly the buckets idle for more than ten minutes go |
| RateLimiter.WindowBound | services/gateway/ratelimit.go:58-81 | without sweeps a key is granted at most capacity + refill * length requests in a window |
| RateLimiter.SweepsInvisible | services/gateway/ratelimit.go:58-81 | sweeps anywhere change no answer if capacity refills within the time to live |
| RateLimiter.WindowBoundDespiteSweeps | services/gateway/ratelimit.go:58-81 | so the window bound holds with sweeps running |
| RateLimiter.SweepMatters | services/gateway/ratelimit.go:230-238 | otherwise some run shows a changed answer |
| RateLimiter.SweepsHarmlessExactlyWhen | services/gateway/ratelimit.go:230-238 | sweeping is harmless exactly when nothing is ever granted or the capacity is at most 600 seconds of refill |
| RateBursts.TwoBursts | services/gateway/ratelimit.go:58-81 | of a key's first requests at one moment as many are granted as whole tokens fit, and of a later burst as many as have flowed in since, refillPerSec a second, up to the capacity |
| RateBursts.KeysApart | services/gateway/ratelimit.go:58-81 | the answers to a key are what they would be if no other key were used, sweeps included |

The functions these statements are about follow the source handler by handler: `Room.HandleJoin`,
`HandleLeave`, `HandleAddCustom`, `HandleRemoveCustom`, `HandleStart`, `HandleSpeak`, `HandleNext`,
`HandleAttempt`, `HandleTake` and `HandleTimeUp` are the clauses of `room.ex`; `TakeProtocol.Step` is one
step of a socket or of the judge; `Replica.OnEvent` and `HandleMessage` are the branches of
`handleMessage`; `Judge.AfterJudge`, `Batch` and `AfterReset` are the judge's handlers undisturbed and
`JudgeSteps.Step` their atomic steps; `Shuffle.Go` is the pure shuffle's recursion; `Seed.MixSeed` the
mixer; `PacketCodec.Packet` and `Unpack` the packet format; `Replay.Apply` the event fold;
`RateLimiter.AfterAllow` and `AfterSweep` the limiter.

## Left out

- HTTP, WebSocket and JSON handling, name and payload validation in the socket handler, who may ask for a start or a next card, formatting, metrics and storage: plumbing or one-branch checks around the models above.
- Queries of the room (`list_players`, `get_host` and the like): they return a field and change nothing.
- The `ranking` list inside `game_over`: the map order Elixir sorts from is unspecified, and the browser ignores it.
- Exits and crashes of a room process: `call` rescues exceptions but not exits, so a call racing with the last leave can end the caller; the restart is taken to be there when the next call comes; the supervisor's own limit on restarts and a process that fails inside a handler are not modelled.
- Two rooms opened under one random id one after the other: only the restart of a room is modelled; entries the judge holds from elsewhere are covered as arbitrary initial entries.
- The timer behind `time_up`: the message may arrive at any time, which includes every time the timer could choose.
- Error and card_missed frames to the browser, customCards, cardResolved, the error message and speech: no agreement is claimed for them, and the first two frames touch none of the fields compared.
- Replica.DrainedClientsAgree: a connection enters with an empty queue, because the browser closes its socket on leaving; a rejoin on a socket with undelivered events is not covered. The browser trims the name before it joins, so both sides hold the same string.
- Deck.DeckOfService: the in-place fallback shuffle of the Elixir library is trusted to permute and is not modelled further.
- JudgeSteps.FollowsStep: `retain` is one step, while the map drops one internal shard after the other; a winner's score and history line are one step, since the handler holds the score entry until both are written. The 32-bit width of scores, the rate limiter and idempotency cache declared beside it, and floating-point averages are not modelled.
- JudgeResets.QuietIsConsistent: the condition is sufficient; the exact one, for states at rest or not, is that of JudgeResets.ConsistentExactlyWhen.
- PlayerNames.AdmittedButRefusedExactlyWhen: how Unicode text splits into clusters is a parameter.
- Numeric edge cases of C sizes: lengths are natural numbers, so `size_t` overflow and the narrowing of a length to `int` are not modelled.
- JSON output, and how an HTTP request body becomes the buffer `validate_packet_buffer` looks at, are not part of this model.
- Null pointers to objects (`bw`, `br`, `written`, `consumed`, `count_out`): only null buffers and cards are modelled.
- Seed.ChecksumFnv1a: bytes are read as numbers; the hexadecimal form and the verify wrappers are left out as one-line members.
- Other Haskell shuffles (weighted, riffle, overhand, chunks) and the ranges of the random generator: only the draws matter here.
- Backpressure.Backpressure.TryAcquire: fields are unbounded integers; the class is the undisturbed case and the interleavings are those of `Backpressure.Step`. Counters and back-off times play no part.
- Replay.Replay: the message of a rejected event is not modelled beyond the event and its index.
- RateLimiter.WindowBound: tokens are real numbers, without rounding, and the clock never runs backwards.
