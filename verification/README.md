# Game room state machine

A Dafny model of the room at the heart of a turn-based social-deduction
drawing game. Players draw in turns around a secret keyword. One player, the
"faker", does not know the keyword. Afterwards everybody votes on who the
faker is.

The model covers the two parts of `src/server/game-room.js`:

- `GameRoom`: the roster of up to ten players and the round life cycle
  SETUP → PLAY → VOTE → END, then back to SETUP through `invokeSetup`. It also
  covers the round-robin turn cursor and the vote tally that decides whether
  the faker was caught.
- `ClientAdapter`: the snapshot of a room sent to clients. It can be narrowed
  to chosen keys, and copies of it can have the keyword or the faker's name
  redacted.

Each room method is a pure function. It takes the room before the call and
returns the room after it, paired with the method's return value. A method
that throws returns a `Result` (`readdUser`) or the partly updated room with
the failure (`addVote`). `addVote` also takes the comparison that decides
whether the faker was caught: `AsWritten` is the source's line 118, and
`Intended` is the same comparison with the true maximum (see Findings). The
model has no I/O. The shuffle, the random faker
pick and the prompt provider are parameters:

- `order`: a permutation of the roster's indices;
- `fakerPick`: a position in the shuffled roster;
- `prompt`: a `{keyword, hint}` pair.

Modules:

| file | module | contents |
|---|---|---|
| wrappers.dfy | `Wrappers` | `Option` (a value that may be `undefined`) and `Result` |
| game_types.dfy | `GameTypes` | `User`, `Phase`, `Stroke`, `Prompt`, `Failure`, `MaxUsers` |
| roster.dfy | `Roster` | `indexOf`, `findIndex` by name, `splice(i, 1)`, the connected filter, the shuffle |
| votes.dfy | `Votes` | the tally as an ordered association list, the fold as written, the intended maximum |
| game_room.dfy | `GameRoom` | the room record and every `GameRoom` method |
| turn_rotation.dfy | `TurnRotation` | sequences of `nextTurn` calls |
| voting_round.dfy | `VotingRound` | sequences of `addVote` calls |
| capacity.dfy | `Capacity` | the capacity invariant over any sequence of calls |
| client_adapter.dfy | `ClientAdapter` | `generateStateJson`, `hideKeyword`, `hideFaker` |

Identity is modelled explicitly. `dropUser` finds a player by object
identity (`indexOf`). `readdUser`, `findUser` and the tally find players by
display name. So `User` carries an `id` that stands for the connection
object's identity, and `indexOf` compares ids only: a record of the same
object whose `connected` flag reads differently still finds that object's
seat.

Three consequences of the code that are easy to misread:

- Drawing phase length. The test at `src/server/game-room.js:102` fires on the call that
  brings the turn to 2N + 1. So calls 1 to 2N − 1 of `nextTurn` keep the
  room in play, call 2N moves it to voting, and turns 1 to 2N are the ones
  played: two per player, as the comment at line 103 says.
- Vote order. The decision as written depends on the order in which names
  were first voted for, because the maximum it computes is the count of the
  last other player accused (see Findings).
- Vote total. Nothing keeps the number of votes at or below the roster
  size: there is no duplicate-vote guard, and `dropUser` can shrink the
  roster after votes are cast. The model does not claim such a bound.

## Model

| member | source | states |
|---|---|---|
| `GameRoom.NewRoom` | src/server/game-room.js:11-28 | A new room has an empty roster, is in SETUP at turn −1 and round 0, keeps the given code and host, and has no keyword, hint, faker, strokes, votes or outcome. It is dead, within capacity and not in a game. |
| `GameRoom.AddUser` | src/server/game-room.js:29-39 | Succeeds exactly when fewer than 10 players are seated. On failure the room is unchanged. On success the user takes a new last seat and the other seats stay. The host changes only on a successful call with `isHost`, and then becomes this user. Nothing else changes, and capacity is kept. |
| `GameRoom.ReaddUser` | src/server/game-room.js:40-50 | Throws `RejoinTargetNotFound` exactly when no seat has the user's name. Otherwise only the first seat with that name gets the new object. The length and every other seat and field are unchanged. |
| `GameRoom.DropUser` | src/server/game-room.js:51-55 | For a seated connection object, removes exactly its first seat and keeps everyone else in order (the multiset loses one copy of that seat's occupant). For an object that is not seated, removes the last seat. An empty roster stays empty. Returns the new size. |
| `GameRoom.DropUserByIdentity` | src/server/game-room.js:51-55 | Which seat a leave removes depends only on the connection object's identity, not on what its name or connection flag read. |
| `GameRoom.FindUser` | src/server/game-room.js:56-58 | Returns nothing exactly when no seat has the name. Otherwise returns the occupant of the first seat with that name. |
| `GameRoom.StartNewRound` | src/server/game-room.js:60-73 | The round counter goes up by one. The room is in PLAY at turn 1. The roster is a permutation of the old one. Keyword and hint come from the prompt. A faker is set exactly when the roster is non-empty, and is then on the roster. Strokes, votes and outcome are reset. |
| `GameRoom.InvokeSetup` | src/server/game-room.js:74-84 | Moves to SETUP with turn −1 and clears keyword, hint and faker. Each connected player keeps every seat they had and each disconnected player loses all of theirs. The round counter, strokes, votes and outcome are untouched. |
| `GameRoom.IsFull` | src/server/game-room.js:139-141 | The room holds ten or more players. `AddUser` refuses exactly in this case. |
| `GameRoom.IsDead` | src/server/game-room.js:142-145 | The roster is empty or every seated player is disconnected. |
| `GameRoom.IsGameInProgress` | src/server/game-room.js:133-135 | The room is in PLAY or VOTE. `NextTurn` acts exactly in these phases. |
| `GameRoom.IsVoting` | src/server/game-room.js:136-138 | The room is in VOTE. |
| `GameRoom.JsRem` | src/server/game-room.js:87 | JavaScript `%`: equals Dafny's `%` for a non-negative dividend, is never positive for a negative dividend, lies strictly between −b and b, and differs from the dividend by a multiple of b. These pin down the truncated remainder. |
| `GameRoom.WhoseTurn` | src/server/game-room.js:85-91 | Names a player only in PLAY, and then a seated one. In PLAY with a non-empty roster and turn ≥ 1, it is seat `(turn−1) mod N`. |
| `GameRoom.AddStroke` | src/server/game-room.js:95-98 | Appends exactly the new stroke, keeps the earlier strokes, returns the new stroke list, and changes nothing else. |
| `GameRoom.NextTurn` | src/server/game-room.js:99-109 | Outside PLAY/VOTE it changes nothing and returns nothing. Otherwise it increments the turn and returns the new value. It moves to VOTE exactly when the old turn is at least 2N (or the room is already voting). Nothing else changes. |
| `GameRoom.AddVote` | src/server/game-room.js:110-124 | The accused's count goes up by exactly one and every other count stays. The total goes up by one and names stay unique. The room ends exactly when the new total equals the roster size, and then records the decision of the given rule (line 118 as written, or the intended one). If no faker is set at that point, the call fails with the tally and phase already updated. Otherwise nothing else changes. |
| `GameRoom.SetupDeadIffEmpty` | src/server/game-room.js:142-145 | After setup, the room is dead exactly when its roster is empty. |
| `GameRoom.DeadIffSetupEmpties` | src/server/game-room.js:142-145 | A room is dead exactly when the connected filter would leave nobody. |
| `GameRoom.InvokeSetupIdempotent` | src/server/game-room.js:74-84 | Calling setup twice gives the same room as calling it once. |
| `GameRoom.SetupKeepsOrder` | src/server/game-room.js:83 | Setup commutes with splitting the roster anywhere, so the connected players keep their original order. |
| `GameRoom.JoinThenLeave` | src/server/game-room.js:29-55 | If a user who was not seated joins a room that is not full and then leaves, the roster is exactly what it was before. |
| `GameRoom.JoinThenFind` | src/server/game-room.js:29-58 | If a newcomer whose name is not taken joins, looking up that name finds them. |
| `GameRoom.RejoinThenFind` | src/server/game-room.js:40-58 | After a successful rejoin, looking up the name finds the fresh connection object. |
| `Roster.IndexOf` | src/server/game-room.js:52 | Returns −1 exactly when no seat holds the connection object. Otherwise returns a position holding it, with no earlier position holding it. Only the object's identity is compared. |
| `Roster.FindIndexByName` | src/server/game-room.js:41 | Returns −1 exactly when no seat has the name. Otherwise returns the first seat with that name. |
| `Roster.SpliceOne` | src/server/game-room.js:53 | A start within −N to N − 1 removes exactly one element, a start at or past the end removes nothing, and no element is ever added. |
| `Roster.SpliceOneRemoves` | src/server/game-room.js:53 | A splice at a valid position removes exactly that element, keeping the order of the rest. A splice at −1 removes the last element. |
| `Roster.KeepConnected` | src/server/game-room.js:83 | Keeps exactly the connected players, and never lengthens the roster. |
| `Roster.KeepConnectedAppend` | src/server/game-room.js:83 | The filter distributes over concatenation, so order is preserved. |
| `Roster.KeepConnectedCounts` | src/server/game-room.js:83 | A connected player keeps as many seats as before and a disconnected one keeps none. |
| `Roster.KeepConnectedAllConnected` | src/server/game-room.js:83 | A roster with nobody disconnected passes through unchanged. |
| `Roster.KeepConnectedIdempotent` | src/server/game-room.js:83 | Filtering twice is filtering once. |
| `Roster.PermutePreservesMultiset` | src/server/game-room.js:92-94 | Reordering the roster by a permutation of its indices neither adds nor loses anybody. |
| `Votes.Lookup` | src/server/game-room.js:111 | `votes[name]` is `undefined` exactly when no entry has the name. Otherwise it is the count of an entry with that name. |
| `Votes.CountOfEntry` | src/server/game-room.js:118 | In a tally without repeated names, looking up an entry's name finds its count. |
| `Votes.Total` | src/server/game-room.js:125-127 | `getNumVotes`: the sum of the counts, so no single count exceeds it. With `TallyOfCounts` it is the number of ballots cast. |
| `Votes.Increment` | src/server/game-room.js:111-115 | Existing keys keep their positions. A new key is appended at count 1, and only when the name had no entry. |
| `Votes.IncrementAppends` | src/server/game-room.js:114 | A vote for a name without an entry appends that entry at count 1. |
| `Votes.IncrementBumps` | src/server/game-room.js:112 | A vote for a name with an entry adds one to that entry in place. |
| `Votes.IncrementCount` | src/server/game-room.js:110-115 | One vote adds exactly one to the accused's count and leaves every other name's count alone. |
| `Votes.IncrementTotal` | src/server/game-room.js:125-127 | One vote adds exactly one to `getNumVotes`. |
| `Votes.IncrementCounts` | src/server/game-room.js:110-127 | The two facts above, for every name at once. |
| `Votes.IncrementKeepsNamesUnique` | src/server/game-room.js:111-115 | A vote never creates a duplicate key. |
| `Votes.TallyOfCounts` | src/server/game-room.js:110-127 | After a sequence of ballots, each name's count is the number of ballots naming it, the total is the number of ballots, no name repeats, and every name in the tally was voted for. |
| `Votes.NonFaker` | src/server/game-room.js:130 | Keeps exactly the entries not named after the faker. |
| `Votes.NonFakerAppend` | src/server/game-room.js:130 | The filter distributes over concatenation, so the entries it keeps stay in insertion order. |
| `Votes.LastRival` | src/server/game-room.js:129-130 | Returns −1 exactly when every entry names the faker. Otherwise returns the position of the last entry that does not. |
| `Votes.NonFakerLast` | src/server/game-room.js:129-130 | The filter keeps nothing exactly when there is no rival entry. Otherwise the last entry it keeps is the tally's last rival entry. |
| `Votes.ReduceYieldsLast` | src/server/game-room.js:131 | Started from a number, the reducer ignores its accumulator and ends with the count of the last entry. |
| `Votes.AsWrittenIsLastRival` | src/server/game-room.js:128-132 | `getMaxVotesForArtist` as written returns the count of the last entry, in insertion order, that does not name the faker, or 0 when every entry names the faker. |
| `Votes.MaxVotesForArtistAsWritten` | src/server/game-room.js:128-132 | The literal fold always yields a number, and that number is 0 or the count of some other accused player. Unlike the intended helper, it is not bounded below by every such count. |
| `Votes.FakerCaughtAsWrittenBeatsLastRival` | src/server/game-room.js:116-122 | As written, the faker is caught exactly when they have at least one vote and strictly more votes than the last other player to be accused. Nobody else's count matters. |
| `Votes.MaxFold` | src/server/game-room.js:131 | The intended reducer returns the largest of its start value and all counts, and that value is attained. |
| `Votes.MaxVotesForArtist` | src/server/game-room.js:128-132 | The intended helper is at least every non-faker count, and is either 0 or equal to one of them. |
| `Votes.FakerCaughtIsStrictPlurality` | src/server/game-room.js:116-122 | The intended decision: the faker is caught exactly when they have at least one vote and every other accused player has strictly fewer. Ties let the faker escape. |
| `Votes.AsWrittenAgreesWithOneRival` | src/server/game-room.js:116-132 | When at most one entry names somebody other than the faker, the as-written fold equals the true maximum and the two decisions agree. |
| `Votes.CounterexampleTally` | src/server/game-room.js:110-115 | Ballots A, A, C, B, B give the tally A:2, C:1, B:2, in first-vote order. |
| `Votes.AsWrittenCatchesTiedFaker` | src/server/game-room.js:116-132 | On that tally with faker B, the as-written fold gives 1 and catches B. The intended maximum is 2, and B, who only ties A, escapes. |
| `TurnRotation.AdvanceInPlay` | src/server/game-room.js:99-109 | From turn t in PLAY, k calls only move the turn to t+k. The room switches to VOTE exactly when t−1+k reaches 2N. |
| `TurnRotation.DrawingPhaseLength` | src/server/game-room.js:99-109 | From turn 1 with N ≥ 1 players, call k returns k+1. Calls 1 to 2N−1 stay in PLAY and call 2N moves to VOTE. The roster is unchanged. |
| `TurnRotation.TurnOrderFrom` | src/server/game-room.js:85-91 | While the room stays in PLAY, the i-th turn from turn t belongs to seat `(t−1+i) mod N`. |
| `TurnRotation.TwoPassesPerRound` | src/server/game-room.js:85-109 | Over the 2N turns of a round, the turn holders are the roster followed by the roster again. So each player draws exactly twice, in seating order. |
| `TurnRotation.IdleOutsideRound` | src/server/game-room.js:85-109 | In SETUP or END nobody has the turn, and any number of `nextTurn` calls change nothing and return nothing. |
| `VotingRound.CastBallots` | src/server/game-room.js:110-124 | An open ballot over N ≥ 1 players with a faker, under either rule: after k ≤ N ballots the tally counts them and nothing but tally, phase and outcome changes. The room stays in VOTE while k < N and ends exactly at k = N, recording the rule's decision. |
| `VotingRound.CaughtByBallots` | src/server/game-room.js:116-122 | The intended decision read directly from the ballots: the faker is caught exactly when named at least once and more often than any other name. |
| `VotingRound.RulesAgreeWithOneRival` | src/server/game-room.js:110-132 | A full ballot that names at most one player besides the faker ends in the same room under the decision as written and as intended. |
| `VotingRound.TiedFakerCaughtAsWritten` | src/server/game-room.js:110-132 | Five players, faker B, ballots A, A, C, B, B: as written the round ends with the faker caught, and as intended the faker escapes. |
| `VotingRound.TieLetsFakerEscape` | src/server/game-room.js:116-132 | With faker B, ballots A, B, C (a tie) let the faker escape, both as intended and under line 118 as written, where the last rival C also has one vote. |
| `VotingRound.PluralityCatchesFaker` | src/server/game-room.js:116-132 | With faker B, ballots B, B, C catch the faker, both as intended and under line 118 as written. |
| `VotingRound.UnnamedFakerEscapes` | src/server/game-room.js:116-132 | With faker B, ballots A, C, C let the faker escape, both as intended and under line 118 as written, where `votes["B"]` is undefined. |
| `Capacity.StepKeepsCapacity` | src/server/game-room.js:29-84 | No single room call takes the roster past 10 players. Only a join can lengthen it. |
| `Capacity.RunKeepsCapacity` | src/server/game-room.js:29-84 | Any sequence of room calls keeps a room within capacity. |
| `Capacity.CreatedRoomsStayWithinCapacity` | src/server/game-room.js:8-39 | A newly created room never holds more than 10 players, whatever calls follow. |
| `ClientAdapter.GenerateStateJson` | src/server/game-room.js:149-171 | Without a filter the snapshot has all twelve keys; with one it has exactly the requested keys. Each key holds the room's value at the time of the call, and `users` shows each seat as its name and connection flag, in order. `whoseTurn` is null exactly when `whoseTurn()` names nobody, and is otherwise that player's name. `fakerName` is undefined exactly when no faker is set. |
| `ClientAdapter.HideKeyword` | src/server/game-room.js:172-176 | The copy has the keyword set to `"???"` (adding the key if it was missing), and every other key is unchanged. |
| `ClientAdapter.HideFaker` | src/server/game-room.js:177-181 | The copy has the faker name set to undefined (adding the key if it was missing), and every other key is unchanged. |
| `ClientAdapter.RedactionsIdempotentAndCommute` | src/server/game-room.js:172-181 | Each redaction applied twice is the same as once, and the two redactions commute. |
| `ClientAdapter.RedactedSnapshotHidesSecrets` | src/server/game-room.js:149-181 | A fully redacted full snapshot shows neither the keyword nor the faker, and matches the unredacted snapshot everywhere else. |
| `ClientAdapter.PickThenHideKeyword` | src/server/game-room.js:167-176 | When the keyword is requested, narrowing and then redacting gives the same result as redacting and then narrowing. |

## Findings

| source | as written | input that shows it | evidently intended | confidence | as-written member | corrected member |
|---|---|---|---|---|---|---|
| src/server/game-room.js:128-132 | `reduce((a, b) => a[1] > b[1] ? a[1] : b[1], 0)` starts from the number 0, so `a[1]` is always `undefined` and every comparison is false. The fold returns the count of the last non-faker entry in insertion order, or 0. | Faker B. Votes cast A, A, C, B, B give the tally A:2, C:1, B:2. The fold returns 1 and `2 > 1` marks B as caught, although B only ties A. | The highest tally among the non-faker entries, which is 2 here, so B escapes. | high; not executed | `Votes.MaxVotesForArtistAsWritten`, shown by `Votes.AsWrittenCatchesTiedFaker` and `VotingRound.TiedFakerCaughtAsWritten` | `Votes.MaxVotesForArtist`, proved by `Votes.FakerCaughtIsStrictPlurality` |

`GameRoom.AddVote` takes the decision rule as a parameter. Under
`Votes.AsWritten` it records line 118 exactly as written; this is the rule
`Capacity` uses for the event loop. Under `Votes.Intended` it records the
corrected decision. `Votes.AsWrittenAgreesWithOneRival` and
`VotingRound.RulesAgreeWithOneRival` prove the two agree whenever at most one
player besides the faker was accused, which covers every two-player room.

## Left out

- Logging (`console.log`, `console.warn`): output only, with no effect on state.
- `Util.shuffle` and `Util.randomItemFrom`: their source is not part of this model. The caller supplies a permutation of the roster's indices and a position in the shuffled roster instead. For an empty roster the faker is taken to be `undefined`.
- `Prompts.getRandomPrompt`: an external prompt database, modelled as a `Prompt` parameter.
- `Stroke` internals and the text of `GameError`: a stroke is a name plus a sequence of integer points, and a failure is only its kind.
- `_.cloneDeep` and `_.pick`: modelled as value copy and key restriction over the twelve schema keys. A request for a key outside the schema (including inherited keys such as `toString`, which `_.pick` would copy) cannot be expressed.
- JavaScript object key order: `Object.entries` lists integer-like keys (a player named "7") in ascending order before all other keys. The tally keeps first-insertion order for every name, as if no name were integer-like.
- Names that clash with `Object.prototype` members (`constructor`, `__proto__`): in the source these make `votes[name]` truthy or special before any vote is cast. They are not modelled.
- `Capacity.Step`: a round start whose random inputs are not a permutation of the roster and a position in it is treated as no call. The random source cannot produce such inputs.
- `GameRoom.StartNewRound`: requires its random inputs to be a permutation and a valid position. These are what `Util.shuffle` and `Util.randomItemFrom` are assumed to provide.
- Concurrency, the room registry and the transport layer: not part of this file.
- Phase-order checks: the source does not validate call order (for example, voting outside VOTE). The model does not add checks either, and each function works in every phase as the source does. The one exception is the comparison `GameRoom.AddVote` applies when the ballot closes, which the caller chooses (see Findings).
- Shared arrays: `generateStateJson` puts the room's live `strokes` array and `votes` object into the snapshot without copying them, and `addStroke` returns the live array. A later `addStroke` or `addVote` therefore changes a snapshot or stroke list handed out earlier. Here every snapshot and result is a value fixed at the time of the call.
- The connection flag: `connected` is set on a user object by code outside this file (the socket layer). No room operation here changes it on a seated player, so a disconnect is visible only through the records the caller passes in. Two records with the same `id` are taken to be the same object, which `indexOf` reflects by comparing ids.
