# Planning poker: live-room engine and session services

This project models the core of a planning-poker microservice in Dafny:

- **The live-room engine** (`PokerWsGateway`). It keeps one in-memory table per concern: rooms to rosters, to ballots, to story cursors, to last averages, to history logs and to countdown timers, plus the set of rooms whose votes the leader has forced. Each socket handler becomes a method of the class `Gateway.PokerWsGateway`. The methods change those tables as the handlers do, and report how the handler ended as an `Outcome`:
  - `Done`;
  - `Refused(msg)`, an `error` event sent to the caller;
  - `Threw(msg)`, an exception escaping the handler.
- **The scoring helpers.** These are the card set, consensus, the numeric votes, and their average, median and mode (module `Scoring`).
- **The two persistence services** (`PokerService` and `PokerWsService`). They work over an in-memory database of session, join, vote and history rows (`Records.Db`). The models are `Poker.PokerService` and `PokerWs.PokerWsService`.

JavaScript `Map`s keep insertion order, and the code depends on it:

- `hasConsensus` compares every vote with the first one.
- `calculateMode` breaks frequency ties by first occurrence.
- `nextStory` records the first numeric vote.

So every per-room `Map` is an association sequence (`JsMap`). In it, `set` on a present key replaces the value in place, and `set` on a new key appends. `parseInt` and the unary `+` are modelled on strings as partial functions to integers (`JsNumbers`), where `None` stands for NaN.

Collaborator calls whose result a handler awaits become inputs of the method. These are the session status, the membership check, the deck, the leader lookup, the chat history, `saveVote`, `saveHistory` and `startSession`. The `leaveSession` and `deactivateSession` calls that the gateway starts without awaiting are appended to a `requests` log. The interval behind a countdown is an explicit `Tick(h)` call on its handle.

## Behaviour as the code has it

The model follows the code, including where it behaves in ways a reader might not expect:

- **Ballots can outlive their voters.** `votes.size <= participants.size` is not kept. A disconnect removes the participant but not their vote. The "all voted" guard compares sizes only, so a member who joined after a voter left can pass it without voting (`Rooms.CountGuardMissesVoter`).
- **The override misses departed voters.** It rewrites only the votes of current roster members. A departed voter's numeric vote that sits first in the ballot becomes the value `nextStory` records, and can break consensus (`Rooms.DepartedVoteDecides`).
- **`repeatVoting` keeps the override flag.** It drops the ballot only.
- **`nextStory` wraps around.** It moves the cursor to `(i + 1) mod n`, so after the last story it returns to the first.
- **`completeVoting` can throw.** With no numeric vote, `calculateMode` throws before the average is stored.
- **`endSession` is not a clean teardown:**
  - It pushes the closing history record before its awaited saves, so a failed save leaves the record appended.
  - It throws when the room has no ballot.
  - It deletes the timer entry before the check that would clear the interval, so the interval keeps running until its next tick throws (see `Gateway.PokerWsGateway.Tick` under Left out).
  - It keeps the story state, the last average and the override flag.
- **Rooms are never reaped.** There is no grace period and no sweep of empty rooms: a roster that becomes empty is deleted at once.
- **The median is the upper middle.** It is the element at position `floor(n/2)` of the ascending numbers, which for even `n` is the upper of the two middle elements.
- **`roomCreator` always rejects.** It calls `getSessionInfo`, which `PokerService` does not define, so the call throws inside the async function and the promise rejects. `handleLeaderOverride` and `handleStartSession` await it before they read the participant's id, so as written both handlers always end with that exception escaping and nothing changed. `handleJoinRoom` starts `handleRoomCreator` without awaiting it, so there the rejection is unhandled (see `Gateway.PokerWsGateway.Join` under Left out). The model takes the awaited result as an input that is either a rejection (`Err`) or the leader's id, so that the leader checks a working lookup would make are modelled too.
- **`current_story_index` has no column.** It is not a column of the `Session` entity. The model keeps it as a field of the session row, so that `updateCurrentStoryIndex` and `getCurrentStoryIndex` have something to write and read. With the entity as written, the index is never stored and `getCurrentStoryIndex` always returns 0.
- **`is_left` has no column.** The `Join_Session` entity (src/poker/entities/join.session.entity.ts:11-30) declares no `is_left`, yet `leaveSession` filters on it and writes it, and `wasUserInSession` reads it. The model keeps `isLeft` as a field of the join row, so a leave is visible to later lookups. With the entity as written, the update would not store the flag, and `!p.is_left` on a loaded row would always be true. Then `wasUserInSession` would report a user who left as still in the session.

## Model

| member | source | states |
|---|---|---|
| JsMap.Find | src/poker-ws/poker-ws.gateway.ts:340-343 | the position found holds the key, no earlier position does, and None means the key is absent |
| JsMap.Get | src/poker-ws/poker-ws.gateway.ts:340-343 | `map.get(k)` is defined iff the key is present; `GetSet` and `GetDelete` state what it returns after an update |
| JsMap.Set | src/poker-ws/poker-ws.gateway.ts:340-343 | `map.set` keeps the size for a present key and adds one for a new key; `SetKeys`, `SetExisting` and `GetSet` state the order and the values |
| JsMap.Delete | src/poker-ws/poker-ws.gateway.ts:67 | `map.delete` shrinks the map by one when the key is present and leaves it as it was otherwise; `GetDelete` states the values |
| JsMap.GetSet | src/poker-ws/poker-ws.gateway.ts:340-343 | after `map.set(k, v)`, `get(k)` is `v` and every other key reads as before |
| JsMap.SetKeys | src/poker-ws/poker-ws.gateway.ts:340-343 | `set` keeps every present key in its position and appends a new key last |
| JsMap.SetExisting | src/poker-ws/poker-ws.gateway.ts:340-343 | setting a present key replaces only that entry, in place |
| JsMap.GetDelete | src/poker-ws/poker-ws.gateway.ts:67 | `delete(k)` removes the key and keeps every other key's value |
| JsMap.DeleteEntries | src/poker-ws/poker-ws.gateway.ts:67 | `delete` keeps only entries that were already there |
| JsNumbers.TrimStartDrops | src/poker-ws/poker-ws.gateway.ts:384 | the result is a suffix of the input, every dropped character is white space and the result does not start with white space |
| JsNumbers.TrimEndDrops | src/poker/poker.service.ts:163 | the result is a prefix of the input, every dropped character is white space and the result does not end with white space |
| JsNumbers.DigitRun | src/poker-ws/poker-ws.gateway.ts:384 | the run is all digits of the radix and is followed by a non-digit or by the end |
| JsNumbers.ParseDecimalText | src/poker-ws/poker-ws.gateway.ts:384 | `parseInt` reads back every integer written in decimal |
| JsNumbers.ParseInt | src/poker-ws/poker-ws.gateway.ts:384 | `parseInt` of an empty or all-white-space string is NaN; `ParseDecimalText` and `ParseNatTextPrefix` state what it reads back |
| JsNumbers.ToNumber | src/poker/poker.service.ts:163 | unary plus on strings, defined by trimming and then reading an integer literal; `BlankIsZero` and `ToNumberDecimalText` state its results |
| JsNumbers.ParseNatTextPrefix | src/poker-ws/poker-ws.gateway.ts:463 | `parseInt` reads the leading decimal digits and ignores what follows them |
| JsNumbers.BlankIsZero | src/poker/poker.service.ts:163 | unary plus of an empty or all-white-space string is 0 |
| JsNumbers.DecimalTextTrimmed | src/poker/poker.service.ts:163 | decimal text has nothing for unary plus to trim |
| JsNumbers.DecimalTextLiteral | src/poker/poker.service.ts:163 | decimal text is a literal denoting its own number |
| JsNumbers.ToNumberDecimalText | src/poker/poker.service.ts:163 | unary plus reads back every integer written in decimal |
| Scoring.CardsAreFibonacci | src/poker-ws/poker-ws.gateway.ts:442-445 | a number is a valid card iff it is one of the Fibonacci numbers F(0)..F(9) = 0,1,2,3,5,8,13,21,34 |
| Scoring.IsCard | src/poker-ws/poker-ws.gateway.ts:442-445 | membership in the card array; `CardsAreFibonacci` states that the cards are the Fibonacci numbers up to 34 |
| Scoring.HasConsensus | src/poker-ws/poker-ws.gateway.ts:677-685 | the `every(v => v === values[0])` test with NaN never equal; `HasConsensusIff` and `NaNBreaksConsensus` state when it holds |
| Scoring.HasConsensusIff | src/poker-ws/poker-ws.gateway.ts:677-685 | consensus holds iff there is at least one vote and one integer that every vote parses to (false on an empty ballot) |
| Scoring.NaNBreaksConsensus | src/poker-ws/poker-ws.gateway.ts:680-684 | a single vote that does not parse rules consensus out |
| Scoring.NumericValuesMembers | src/poker-ws/poker-ws.gateway.ts:383-385 | the numeric votes are exactly the parse results that are numbers |
| Scoring.NumericValues | src/poker-ws/poker-ws.gateway.ts:383-385 | the filter never yields more numbers than there are votes; `NumericValuesMembers` and `NumericValuesAllParse` state which numbers it keeps |
| Scoring.NumericValuesAllParse | src/poker-ws/poker-ws.gateway.ts:383-385 | when every vote parses, nothing is filtered and order is kept |
| Scoring.ConsensusNumeric | src/poker-ws/poker-ws.gateway.ts:383-385 | under consensus on c the numeric votes are one c per vote |
| Scoring.SumConstant | src/poker-ws/poker-ws.gateway.ts:398-399 | the sum of n copies of c is n*c |
| Scoring.Mean | src/poker-ws/poker-ws.gateway.ts:398-399 | the average is the sum over the count of numeric votes; `ConstantStatistics` states it for equal votes |
| Scoring.InsertSorted | src/poker-ws/poker-ws.gateway.ts:400 | inserting into a sorted list keeps it sorted and adds exactly one copy of the element |
| Scoring.SortAscSorted | src/poker-ws/poker-ws.gateway.ts:400 | the ascending sort is sorted and a permutation of its input |
| Scoring.SortedPermutationUnique | src/poker-ws/poker-ws.gateway.ts:400 | two sorted permutations of the same numbers are equal, so the median does not depend on the sort algorithm |
| Scoring.MedianIsMiddle | src/poker-ws/poker-ws.gateway.ts:400-401 | the median is element floor(n/2) of any ascending arrangement of the numeric votes, undefined only when there are none, and one of them |
| Scoring.MedianOf | src/poker-ws/poker-ws.gateway.ts:400-401 | the median is the element at position floor(n/2) of the sorted numbers; `MedianIsMiddle` and `MedianDefined` state it |
| Scoring.MedianDefined | src/poker-ws/poker-ws.gateway.ts:400-401 | the median exists iff there are numeric votes and is one of them |
| Scoring.DedupMembers | src/poker-ws/poker-ws.gateway.ts:438 | the frequency table's keys are exactly the distinct numbers |
| Scoring.DedupOrder | src/poker-ws/poker-ws.gateway.ts:438-439 | the frequency table lists values in order of first occurrence |
| Scoring.FirstIndex | src/poker-ws/poker-ws.gateway.ts:439 | the position returned is the first occurrence of the value |
| Scoring.ModeUnique | src/poker-ws/poker-ws.gateway.ts:436-440 | the tie-break makes the mode a function of the numbers and their order |
| Scoring.FrequencyStep | src/poker-ws/poker-ws.gateway.ts:438 | one `frequency.set(n, (get(n) or 0) + 1)` keeps every count equal to the number's frequency in the prefix read so far |
| Scoring.FirstMaximumIsFirstMode | src/poker-ws/poker-ws.gateway.ts:439 | the first entry with maximal count in the finished table has maximal frequency and the earliest first occurrence among the tied values |
| Scoring.CalculateMode | src/poker-ws/poker-ws.gateway.ts:436-440 | the mode is undefined iff there are no numbers; otherwise it is a number of maximal frequency whose first occurrence is earliest among the tied values |
| Scoring.EqualVotes | src/poker-ws/poker-ws.gateway.ts:398-412 | N votes of one card give average = median = mode = that card and consensus |
| Scoring.ConstantStatistics | src/poker-ws/poker-ws.gateway.ts:398-402 | the mean, median and mode of n > 0 copies of v are v |
| Rooms.FinalValue | src/poker-ws/poker-ws.gateway.ts:521-524 | the recorded value is undefined iff no vote parses; otherwise it is the parse of the first vote in Map order that parses |
| Rooms.FirstNumeric | src/poker-ws/poker-ws.gateway.ts:521-524 | the first numeric vote is the parse of a vote with no parsing vote before it |
| Rooms.NumericValuesNone | src/poker-ws/poker-ws.gateway.ts:521-523 | there are no numeric votes iff no vote parses |
| Rooms.ConsensusFinalValue | src/poker-ws/poker-ws.gateway.ts:512-524 | with consensus on c the recorded value is c |
| Rooms.FinalValueIsFirst | src/poker-ws/poker-ws.gateway.ts:524 | the recorded value is the first vote whenever that vote is numeric |
| Gateway.SavedVotesFollowBallot | src/poker-ws/poker-ws.gateway.ts:526-531 | the rows `saveVote` stores for the batch are one per ballot entry in Map order, with that voter's id (the entry's key) and raw vote, the story and the final value, and no voter gets two rows |
| Rooms.LeaveRequests | src/poker-ws/poker-ws.gateway.ts:640-647 | one `leaveSession` per roster entry, in roster order |
| Rooms.RosterSet | src/poker-ws/poker-ws.gateway.ts:142-148 | upserting a participant keeps the roster keyed uniquely by participant id and non-empty |
| Rooms.RosterDelete | src/poker-ws/poker-ws.gateway.ts:67 | deleting a participant keeps the roster keyed uniquely by participant id |
| Rooms.BallotSet | src/poker-ws/poker-ws.gateway.ts:336-343 | upserting a vote keeps the ballot keyed uniquely by voter id |
| Rooms.ForceStep | src/poker-ws/poker-ws.gateway.ts:476-479 | each `votes.set` of the override keeps the ballot a forced extension of the original |
| Rooms.ForceVotesShape | src/poker-ws/poker-ws.gateway.ts:474-480 | after the override every roster key is present, old keys keep their positions, and every entry is forced or an untouched non-member's vote |
| Rooms.ForcedAt | src/poker-ws/poker-ws.gateway.ts:474-480 | a forced ballot's entry is forced iff its key is a roster key, and is the original entry otherwise |
| Rooms.ForceVotesEffect | src/poker-ws/poker-ws.gateway.ts:474-480 | each roster member's vote becomes the raw forced string for that member, other voters' entries are untouched, and present entries keep their positions |
| Rooms.ForceVotes | src/poker-ws/poker-ws.gateway.ts:474-480 | the ballot after the override's `forEach`, one `set` per roster entry in order; `ForceVotesEffect`, `ForcedAt` and `ForceVotesBallotOk` state its result |
| Rooms.ForceVotesBallotOk | src/poker-ws/poker-ws.gateway.ts:474-480 | the override keeps the ballot keyed by voter id |
| Rooms.OverrideConsensus | src/poker-ws/poker-ws.gateway.ts:469-486 | when every voter is in the roster, the override yields consensus and the recorded value is the forced card |
| Rooms.DepartedVoteDecides | src/poker-ws/poker-ws.gateway.ts:474-480 | a departed voter's first numeric vote survives the override, becomes the recorded value, and breaks consensus unless it equals the forced card |
| Rooms.CountGuardMissesVoter | src/poker-ws/poker-ws.gateway.ts:506 | the all-voted guard passes for a roster member with no vote |
| Rooms.NextCursor | src/poker-ws/poker-ws.gateway.ts:551 | `(i + 1) % n` is the next index, 0 after the last, and stays in [0, n) |
| Rooms.Advanced | src/poker-ws/poker-ws.gateway.ts:551 | the cursor moves to the next story, wrapping to 0 after the last; the stories are unchanged |
| Rooms.CountdownFrom | src/poker-ws/poker-ws.gateway.ts:279-290 | a timer of d seconds emits updates d-1 down to 0, then finished, then nothing more |
| Rooms.CountdownNeverNegative | src/poker-ws/poker-ws.gateway.ts:279-290 | from a non-negative start no update reports a negative time |
| Gateway.CompletionGuard | src/poker-ws/poker-ws.gateway.ts:374-402 | completion passes its guards iff a ballot and roster exist, there are at least as many votes as members, every numeric vote is a card and there is one; otherwise it names the error in source order |
| Gateway.Tally | src/poker-ws/poker-ws.gateway.ts:398-412 | the results are undefined iff no vote is numeric; otherwise they carry the mean, the median, the first mode, the votes in Map order and the consensus flag |
| Gateway.LeaveAll | src/poker-ws/poker-ws.gateway.ts:640-647 | the loop issues one `leaveSession` per roster entry in order |
| Gateway.PokerWsGateway.constructor | src/poker-ws/poker-ws.gateway.ts:33-53 | every table starts empty |
| Gateway.PokerWsGateway.Join | src/poker-ws/poker-ws.gateway.ts:83-172 | the error cascade in source order; the story state is built on the first join only; the participant is upserted under the user id and the connection records room and participant |
| Gateway.PokerWsGateway.Disconnect | src/poker-ws/poker-ws.gateway.ts:59-74 | removes the caller's participant, deletes the roster once it is empty, and changes nothing else (votes stay) |
| Gateway.PokerWsGateway.LeaveRoom | src/poker-ws/poker-ws.gateway.ts:209-213 | requests `leaveSession` for the caller, or throws without one |
| Gateway.PokerWsGateway.SubmitVote | src/poker-ws/poker-ws.gateway.ts:331-346 | upserts exactly the caller's vote, keeping an existing entry's position; other entries are unchanged and the value is not checked |
| Gateway.PokerWsGateway.CompleteVoting | src/poker-ws/poker-ws.gateway.ts:372-414 | on any guard failure nothing changes; on success only the average is stored and the results summarise the numeric votes |
| Gateway.PokerWsGateway.StoreAverage | src/poker-ws/poker-ws.gateway.ts:404 | sets the room's average and nothing else |
| Gateway.PokerWsGateway.RepeatVoting | src/poker-ws/poker-ws.gateway.ts:422-428 | drops the room's ballot only; the override flag stays |
| Gateway.PokerWsGateway.LeaderOverride | src/poker-ws/poker-ws.gateway.ts:447-487 | a rejected `roomCreator` escapes first with no change (the only outcome as written); a missing participant throws, a non-leader or a non-card value is refused, all with no change; otherwise the roster's votes are forced, the flag set, and completion runs on the result |
| Gateway.ForceAll | src/poker-ws/poker-ws.gateway.ts:474-480 | the loop leaves the ballot that forcing each roster member's vote in turn gives |
| Gateway.PokerWsGateway.Override | src/poker-ws/poker-ws.gateway.ts:469-483 | the room's ballot becomes the forced one and the room is flagged; nothing else changes |
| Gateway.PokerWsGateway.NextStory | src/poker-ws/poker-ws.gateway.ts:495-567 | the refusals in source order leave the state unchanged, including a failed save; on success exactly one history record with the first numeric vote is appended, the cursor advances modulo the story count, and the ballot and override flag are cleared |
| Gateway.PokerWsGateway.MoveOn | src/poker-ws/poker-ws.gateway.ts:535-560 | appends the record, advances the cursor, clears ballot and flag |
| Gateway.PokerWsGateway.EndSession | src/poker-ws/poker-ws.gateway.ts:590-675 | the history record is pushed before the saves and stays on failure; no ballot fails; on success roster, ballot, history and timer entry go while story state, average, flag and interval stay |
| Gateway.PokerWsGateway.Close | src/poker-ws/poker-ws.gateway.ts:640-668 | requests `leaveSession` per member then `deactivateSession`, and drops the room's roster, ballot, history and timer entry but not its interval |
| Gateway.PokerWsGateway.StartTimer | src/poker-ws/poker-ws.gateway.ts:265-294 | clears any running interval of the room and starts a fresh one from the duration; the remaining time then reads the duration |
| Gateway.PokerWsGateway.Tick | src/poker-ws/poker-ws.gateway.ts:279-290 | at zero or below finishes and removes the timer, so the room's remaining time is undefined; otherwise decrements by one, so the remaining time it matched drops by one, and a non-negative count stays non-negative; other rooms' remaining time is unchanged |
| Gateway.PokerWsGateway.StopTimer | src/poker-ws/poker-ws.gateway.ts:315-323 | removes the timer and its interval, or is a no-op without one; afterwards the room has no remaining time |
| Gateway.PokerWsGateway.RemainingTime | src/poker-ws/poker-ws.gateway.ts:301-307 | the query the timer handlers are stated against: `StartTimer` makes it the duration, a `Tick` of the room's interval lowers it by one, a finishing `Tick` or `StopTimer` makes it undefined, and a `Tick` leaves every other room's value alone |
| Gateway.PokerWsGateway.StartSession | src/poker-ws/poker-ws.gateway.ts:687-711 | a rejected `roomCreator` escapes before anything else and `startSession` is not called (the only outcome as written); otherwise `startSession` is called iff the caller is the leader, and its failure is reported to the caller |
| Records.FindSession | src/poker-ws/poker-ws.service.ts:56-58 | the first session row with the id, or None iff there is none |
| Records.FindSessionByCode | src/poker/poker.service.ts:249-251 | the first session row in table order with the stored code (see Left out), or None iff there is none |
| Records.FindActiveByName | src/poker/poker.service.ts:55-60 | an active session with the name, or None iff there is none |
| Records.FindJoin | src/poker/poker.service.ts:197-218 | the first join row in table order matching the filter (see Left out), or None iff none matches |
| Poker.ProjectIds | src/poker/poker.service.ts:150-161 | the fixed table holds ids 1 to 10 in order |
| Poker.FindProject | src/poker/poker.service.ts:163 | the project found has the id, and None means no entry has it |
| Poker.FindProjectCounting | src/poker/poker.service.ts:163 | in a table whose ids count up from a base, `find` returns the entry at position id − base, or nothing outside the range |
| Poker.ProjectById | src/poker/poker.service.ts:163-172 | a project is found iff the id is 1 to 10; otherwise 'Project not found' |
| Poker.ProjectLookup | src/poker/poker.service.ts:149-173 | the table entry whose id equals `+project_id`, else 'Project not found' (404) |
| Poker.FindProjectSessions | src/poker/poker.service.ts:149-173 | `findProjectSessions` as the lookup by `+project_id`; `ProjectLookup` and `ProjectByDecimalId` state its result |
| Poker.ProjectByDecimalId | src/poker/poker.service.ts:163 | the decimal id n finds the n-th table entry |
| Poker.SessionCode | src/poker/poker.service.ts:101-131 | a code is stored iff a non-empty code is given |
| Poker.SessionCodeRoundTrip | src/poker/poker.service.ts:126 | the stored code is 'POKER-' followed by the given code |
| Poker.CreateOutcome | src/poker/poker.service.ts:43-147 | project, active-name conflict, user lookup and save checks in order; every failure is rewrapped as 'Error creating room' (500); success iff all checks pass, and then the row is active, unstarted, at story 0, created by the first user, with the request's name and description, the prefixed code and the project's name |
| Poker.PokerService.CreateSession | src/poker/poker.service.ts:43-147 | the result is `CreateOutcome`; a failure adds no row, success appends exactly that row; other tables are untouched and unique ids are kept |
| Poker.PokerService.JoinSession | src/poker/poker.service.ts:175-245 | 'Room not found', 'Room is not active', 'User already in session', 'User already in an active session' in that order; only when none applies is exactly one open join row appended, after which validation succeeds |
| Poker.PokerService.JoinSessionByCode | src/poker/poker.service.ts:247-292 | refused when no session has the code or the user has any join row at all; every error is 'Error joining room' with no row added |
| Poker.PokerService.ValidateSession | src/poker/poker.service.ts:333-357 | succeeds with true iff an open join row joins the user to an existing session; otherwise 'User not found in the session' |
| PokerWs.VoteRows | src/poker-ws/poker-ws.service.ts:64-75 | one vote row per input element, in order, copying story, user, card and final value |
| PokerWs.HistoryRows | src/poker-ws/poker-ws.service.ts:139-151 | one history row per record, in order, copying story and card value |
| PokerWs.PokerWsService.SaveVote | src/poker-ws/poker-ws.service.ts:50-85 | all or nothing: a missing session or a failing row stores nothing and gives 'Error while saving vote'; success appends the rows in input order |
| PokerWs.PokerWsService.SaveHistory | src/poker-ws/poker-ws.service.ts:127-161 | all or nothing: a missing session, a record without story id or a failing row stores nothing |
| PokerWs.PokerWsService.LeaveSession | src/poker-ws/poker-ws.service.ts:87-115 | refused without the session or an open, not-left row; otherwise only that row's left time and flag change |
| PokerWs.PokerWsService.CheckSessionStatus | src/poker-ws/poker-ws.service.ts:117-125 | the session row, or 'Session not found' iff it is missing |
| PokerWs.PokerWsService.DeactivateSession | src/poker-ws/poker-ws.service.ts:163-173 | clears `is_active` on the row and nothing else, or 'Session not found' |
| PokerWs.PokerWsService.WasUserInSession | src/poker-ws/poker-ws.service.ts:239-248 | true iff the session exists and a row of it is the user's and not left |
| PokerWs.PokerWsService.StartSession | src/poker-ws/poker-ws.service.ts:250-255 | marks the rows with the id as started and changes no other table |
| PokerWs.PokerWsService.GetCurrentStoryIndex | src/poker-ws/poker-ws.service.ts:257-262 | the stored index, or 0 when the session is missing |
| PokerWs.PokerWsService.UpdateCurrentStoryIndex | src/poker-ws/poker-ws.service.ts:264-269 | writes the index, and reading it back gives that index (0 when the session is missing) |
| PokerWs.StoryIndexRoundTrip | src/poker-ws/poker-ws.service.ts:257-269 | setting the index keeps every lookup and the found row holds the new index |
| PokerWs.SameIdsSameFind | src/poker-ws/poker-ws.service.ts:56-58 | rows with the same ids are found at the same position |
| PokerWs.StartedKeepsLookup | src/poker-ws/poker-ws.service.ts:250-255 | marking a session started keeps every lookup and sets the flag on the found row |

## Left out

- Socket transport is not modelled: `emit`, `to(room)`, `join`/`leave` of socket rooms, the forced disconnect loop of `handleEndSession`, the `participant-count-updated` relay, `emitParticipantList` and `emitVoteUpdate`. Only what a handler returns to its caller is kept.
- Chat is not modelled (`onMessageReceived`, `saveChatMessage`, `getChatHistory`). For `Join`, whether the chat history could be read is an input.
- `handleCheckSessionStatus` is not modelled, because it only emits. `handleRoomCreator` is not modelled as a handler: it has no `@SubscribeMessage` and is only started by `handleJoinRoom` (see `Gateway.PokerWsGateway.Join` below).
- Gateway.PokerWsGateway.Join: the second `checkSessionStatus` after the participant is registered is assumed to succeed. A deck row whose cards are null is treated like an empty deck.
- Gateway.PokerWsGateway.Join: on the `Done` path, `handleJoinRoom` calls `handleRoomCreator` without `await` (src/poker-ws/poker-ws.gateway.ts:158, 221-230). `handleRoomCreator` awaits `roomCreator`, which always rejects as written. The handler's try/catch cannot catch a promise nobody awaits, so every successful join leaves an unhandled rejection. No handler for it is installed (src/main.ts:4-9), so under Node's default behaviour the process ends and every in-memory table is lost. The model returns `Done` and keeps the new roster entry and the connection's room and participant.
- Real time is not modelled. `setInterval` is the explicit `Tick` call, and `new Date()` is an integer input `now`.
- Interleavings of handlers across their awaits are not modelled. Each handler runs atomically, with the results of its awaits as inputs.
- Floating point is not modelled. An average is a `Fraction(sum, count)` with count 0 standing for NaN. The text `toString` gives a number, used as `final_value`, is not modelled.
- Poker.PokerService.CreateSession, Poker.CreateOutcome: `leader_id` is not modelled. The `Session` entity declares it `nullable: false` (src/poker/entities/session.entity.ts:36-39), and `synchronize: true` (src/database/typeorm.module.ts:21, src/app.module.ts:22) creates the column that way. `createSession` never sets it, so as written every session save is refused, and the caller sees 'Error creating room' after the deck row has already been saved. The success branch is reached only with a schema that accepts the row. The project's end-to-end test expects `leader_id` to be stored from the request (src/poker/test/poker.e2e-spec.ts:107, 148).
- PokerWs.PokerWsService.GetCurrentStoryIndex, PokerWs.PokerWsService.UpdateCurrentStoryIndex: `current_story_index` is kept as a field of the session row, but it is not a mapped column of the `Session` entity. As written, `getCurrentStoryIndex` always returns 0, and `updateCurrentStoryIndex` hands `update` an unmapped property that is never stored. The model's round trip holds only for a schema that has the column.
- JsNumbers.ParseInt: digit runs are exact integers, with no loss of precision beyond 2^53.
- Gateway.PokerWsGateway.StartTimer: the duration is an integer, while `payload.duration` can be any JavaScript number or missing. With a fractional duration such as 0.5, the callback keeps counting down past zero and reports a negative time (-0.5). With a missing duration the count is NaN, `NaN <= 0` is never true, and the interval never finishes. The never-negative countdown in `Tick` and `Rooms.CountdownNeverNegative` depends on this integer restriction.
- PokerWs.PokerWsService.LeaveSession, PokerWs.PokerWsService.WasUserInSession: `is_left` is stored and read as a real field, which the `Join_Session` entity lacks (see above). The code as written would not persist the flag.
- JsNumbers.ToNumber, Poker.ProjectLookup: unary plus is modelled for integer literals only. A project id written with a fraction or an exponent (such as "1.0") is NaN in the model but a number in JavaScript.
- Poker.PokerService.CreateSession: these parts are not modelled:
  - The deck row saved before the session.
  - `voting_scale`, `status`, `capacity` and `created_at`.
  - The HTTP user lookup is an input.
- The collaborators behind `roomCreator`, `requestDeck` and `updateIssuePoints` (NATS) are not modelled. Neither are `joinSessionByMagicLink` (JWT) or `getAllRooms`. Their results are inputs where the core uses them.
- The `leaveSession` and `deactivateSession` calls the gateway starts are logged as requests. They are not run against the service model. Nothing catches their rejections ('User not found in the active session', 'Session not found'), and no handler for unhandled rejections is installed (src/main.ts:4-9). Under Node's default behaviour such a rejection ends the process, and every in-memory table is lost. The model carries on from the recorded state instead.
- Gateway.PokerWsGateway.Tick: the `Threw(SetTimeLeftError)` outcome is a `TypeError` inside a `setInterval` callback, which nothing catches. It happens when an interval leaked by `endSession` ticks again. In Node the uncaught exception ends the process and every in-memory table is lost, while the model keeps the state and goes on. The interval that `endSession` leaks therefore keeps running only up to that tick.
- Records.FindJoin, Records.FindSessionByCode, Poker.InActiveSession, Poker.PokerService.JoinSession, Poker.PokerService.JoinSessionByCode: TypeORM's `findOne` without `order` (src/poker/poker.service.ts:212-218, 249-251, 260-264) returns whichever matching row the database yields. Postgres promises no order, and an update such as `leaveSession`'s writes a new row version. The model fixes that choice to the first match in table order. So when several rows match, the model makes one particular choice. Suppose a user has an open join row in an inactive session and another in an active one. The model checks only the first, while the database may return the other and refuse with 'User already in an active session'. In the same way, `session_code` is not unique (src/poker/entities/session.entity.ts:53-57), so `joinSessionByCode` may join any of the sessions that share a code, while the model joins the first.
- Database failures inside a batch are one input, the position of the first failing row. The reasons for the failure are not modelled.
- The code keeps no inactivity reaper or grace period, does not maintain `votes.size <= participants.size`, and has no advisory-estimate flow, so the model has none of them either.
