/**
  `PokerWsGateway`: the live-room engine. Each handler runs to completion on
  the gateway's in-memory tables; the socket layer is gone, so a handler
  reports how it ended as an `Outcome`, the results of the collaborator
  calls it awaits are its inputs, and the calls it starts without awaiting
  are appended to `requests`.
 */
module Gateway {
  import opened Wrappers
  import JsMap
  import JsNumbers
  import opened Scoring
  import opened Records
  import opened Rooms
  import PokerWs

  const MissingRoom := "Missing room"
  const AlreadyStarted := "Session has already started. Cannot join now."
  const NoStories := "No stories available"
  const TokenFailed := "Token verification failed"
  const NotAllVoted := "Not all participants have voted yet"
  const VotesNotCards := "All votes must be valid Fibonacci numbers"
  const OnlyLeaderOverrides := "Only the room leader can override votes"
  const OverrideNotCard := "Vote must be a valid Fibonacci number"
  const RoomStateNotFound := "Room state not found"
  const NoConsensus := "Cannot proceed to next story without consensus. Use leader override or discuss to reach agreement."
  const EndFailed := "Failed to end session"
  const OnlyLeaderStarts := "Only the room leader can start the session"

  // The TypeErrors the handlers run into on a missing value.
  const ReadIdError := "Cannot read properties of undefined (reading 'id')"
  const ReadSizeError := "Cannot read properties of undefined (reading 'size')"
  const ReadForEachError := "Cannot read properties of undefined (reading 'forEach')"
  const ReadToStringError := "Cannot read properties of undefined (reading 'toString')"
  const ReadDeckError := "Cannot read properties of undefined (reading 'deck_cards')"
  const EmptyReduceError := "Reduce of empty array with no initial value"
  const SetTimeLeftError := "Cannot set properties of undefined (setting 'timeLeft')"

  /** `m.get(k)`, or `d` when the key is absent. */
  function Lookup<V>(m: map<string, V>, k: string, d: V): (r: V)
    ensures k in m ==> r == m[k]
    ensures k !in m ==> r == d
  {
    if k in m then m[k] else d
  }

  /** The whole in-memory state of the gateway. */
  datatype GatewayState = GatewayState(
    rosters: map<string, Roster>,
    votes: map<string, Ballot>,
    roomStates: map<string, RoomState>,
    averages: map<string, Fraction>,
    histories: map<string, seq<HistoryRecord>>,
    timers: map<string, Timer>,
    overrides: set<string>,
    intervals: map<nat, Interval>,
    nextHandle: nat,
    requests: seq<Request>)

  /** Every roster is non-empty and keyed by participant id. */
  ghost predicate RostersOk(rosters: map<string, Roster>) {
    forall r :: r in rosters ==> RosterOk(rosters[r])
  }

  /** Every ballot is keyed by voter id. */
  ghost predicate BallotsOk(votes: map<string, Ballot>) {
    forall r :: r in votes ==> BallotOk(votes[r])
  }

  /** Every story cursor points at a story. */
  ghost predicate CursorsOk(roomStates: map<string, RoomState>) {
    forall r :: r in roomStates ==> 0 <= roomStates[r].currentStoryIndex < |roomStates[r].stories|
  }

  /** A room's timer names a running interval of that room. */
  ghost predicate TimersOk(timers: map<string, Timer>, intervals: map<nat, Interval>) {
    forall r :: r in timers ==> timers[r].interval in intervals && intervals[timers[r].interval].room == r
  }

  /** The next handle is fresh. */
  ghost predicate HandlesOk(intervals: map<nat, Interval>, nextHandle: nat) {
    forall h :: h in intervals ==> h < nextHandle
  }

  /** What every handler keeps. */
  ghost predicate StateOk(s: GatewayState) {
    && RostersOk(s.rosters)
    && BallotsOk(s.votes)
    && CursorsOk(s.roomStates)
    && TimersOk(s.timers, s.intervals)
    && HandlesOk(s.intervals, s.nextHandle)
  }

  /**
    `handleCompleteVoting` from state `s`: the guards in source order, each
    leaving the state as it was, then on success only the room's average is
    stored and the results carry the statistics of the numeric votes.
   */
  ghost predicate CompletionStep(s: GatewayState, room: string, t: GatewayState, out: Outcome, res: Option<VotingResults>) {
    var stop := CompletionGuard(s.votes, s.rosters, room);
    if stop.Some? then t == s && out == stop.value && res.None?
    else
      && t == s.(averages := s.averages[room := Mean(NumericVotes(s.votes[room]))])
      && out == Done
      && res.Some?
      && Summarizes(res.value, s.votes[room])
  }

  /**
    The guard of `handleCompleteVoting` that stops it, in source order: no
    ballot or too few votes, no roster (reading `size` of undefined), a
    numeric vote that is not a card, or no numeric vote at all (`reduce` of
    an empty array). None when every guard passes.
   */
  function CompletionGuard(votes: map<string, Ballot>, rosters: map<string, Roster>, room: string): (r: Option<Outcome>)
    ensures r.None? <==> && room in votes && room in rosters && |votes[room]| >= |rosters[room]|
                         && AllCards(NumericVotes(votes[room])) && |NumericVotes(votes[room])| > 0
    ensures r.Some? ==> r.value in {Refused(NotAllVoted), Threw(ReadSizeError), Refused(VotesNotCards), Threw(EmptyReduceError)}
  {
    if room !in votes then Some(Refused(NotAllVoted))
    else if room !in rosters then Some(Threw(ReadSizeError))
    else if |votes[room]| < |rosters[room]| then Some(Refused(NotAllVoted))
    else if !AllCards(NumericVotes(votes[room])) then Some(Refused(VotesNotCards))
    else if |NumericVotes(votes[room])| == 0 then Some(Threw(EmptyReduceError))
    else None
  }

  /**
    The `votingResults` payload for a ballot: the mean, the middle and the
    first most frequent of the numeric votes, the votes in insertion order,
    and whether all voters agree.
   */
  ghost predicate Summarizes(res: VotingResults, ballot: Ballot) {
    var ns := NumericVotes(ballot);
    && res.average == Mean(ns)
    && MedianOf(ns) == Some(res.median)
    && IsFirstMode(ns, res.mode)
    && res.votes == JsMap.Values(ballot)
    && res.hasConsensus == HasConsensus(VoteValues(ballot))
  }

  /** `nextStory` may advance: a story cursor, a full count of votes, and consensus or an override. */
  ghost predicate ReadyToAdvance(s: GatewayState, room: string) {
    && room in s.roomStates && room in s.votes && room in s.rosters
    && |s.votes[room]| >= |s.rosters[room]|
    && (HasConsensus(VoteValues(s.votes[room])) || room in s.overrides)
  }

  /** The history entry `endSession` pushes: the current story and the last stored average, if any. */
  function ClosingRecord(s: GatewayState, room: string, now: int): HistoryRecord
    requires CursorsOk(s.roomStates) && room in s.roomStates
  {
    var st := s.roomStates[room];
    var story := st.stories[st.currentStoryIndex];
    HistoryRecord(story.title, story.id, if room in s.averages then Some(s.averages[room]) else None, now)
  }

  /** The state after `nextStory` recorded `record` for `room` and moved on. */
  function Advance(s: GatewayState, room: string, record: HistoryRecord): GatewayState
    requires CursorsOk(s.roomStates) && room in s.roomStates
  {
    s.(histories := s.histories[room := Lookup(s.histories, room, []) + [record]],
       roomStates := s.roomStates[room := Advanced(s.roomStates[room])],
       votes := s.votes - {room},
       overrides := s.overrides - {room})
  }

  /**
    The statistics `handleCompleteVoting` broadcasts for a ballot; None when
    no vote is numeric, where `calculateMode`'s `reduce` throws.
   */
  method Tally(ballot: Ballot) returns (res: Option<VotingResults>)
    ensures res.None? <==> |NumericVotes(ballot)| == 0
    ensures res.Some? ==> Summarizes(res.value, ballot)
  {
    var ns := NumericVotes(ballot);
    var average := Mean(ns);
    MedianDefined(ns);
    var median := MedianOf(ns);
    var mode := CalculateMode(ns);
    if mode.None? {
      return None;
    }
    res := Some(VotingResults(average, median.value, mode.value, JsMap.Values(ballot), HasConsensus(VoteValues(ballot))));
  }

  /** The `forEach` of `handleLeaderOverride`: each roster member in turn gets `vote` in `ballot`. */
  method ForceAll(start: Ballot, roster: Roster, vote: string) returns (ballot: Ballot)
    ensures ballot == ForceVotes(start, roster, vote)
  {
    ballot := start;
    var i := 0;
    while i < |roster|
      invariant 0 <= i <= |roster|
      invariant ballot == ForceVotes(start, roster[..i], vote)
    {
      assert roster[..i + 1][..i] == roster[..i];
      var q := roster[i].1;
      ballot := JsMap.Set(ballot, q.id, Vote(vote, q));
      i := i + 1;
    }
    assert roster[..i] == roster;
  }

  /**
    The rows `saveVote` stores for the array `handleNextStory` hands it: one per
    ballot entry in Map order, carrying that voter's id and raw vote, the story
    and the recorded final value; no voter gets two rows.
   */
  lemma SavedVotesFollowBallot(b: Ballot, storyId: string, final: Fraction, sessionId: string, now: int)
    requires BallotOk(b)
    ensures var rows := PokerWs.VoteRows(VotesToSave(b, storyId, final), sessionId, now);
      && |rows| == |b|
      && (forall k :: 0 <= k < |rows| ==>
            && rows[k].userId == JsMap.Keys(b)[k] == JsMap.Values(b)[k].participant.id
            && rows[k].cardValue == JsMap.Values(b)[k].value
            && rows[k].storyId == storyId && rows[k].finalValue == final && rows[k].sessionId == sessionId)
      && forall i, j :: 0 <= i < j < |rows| ==> rows[i].userId != rows[j].userId
  {
    var rows := PokerWs.VoteRows(VotesToSave(b, storyId, final), sessionId, now);
    forall k | 0 <= k < |rows| ensures rows[k].userId == JsMap.Keys(b)[k] {
      assert b[k] in b;
    }
  }

  /** The `leaveSession` calls `handleEndSession` makes, one per roster entry in order. */
  method LeaveAll(room: string, roster: Roster) returns (sent: seq<Request>)
    ensures sent == LeaveRequests(room, roster)
  {
    sent := [];
    var i := 0;
    while i < |roster|
      invariant 0 <= i <= |roster|
      invariant sent == LeaveRequests(room, roster[..i])
    {
      assert roster[..i + 1][..i] == roster[..i];
      sent := sent + [LeaveSession(room, roster[i].0)];
      i := i + 1;
    }
    assert roster[..i] == roster;
  }

  /** A client socket's `data`: the room and participant recorded by a successful join. */
  class Connection {
    var room: Option<string>
    var participant: Option<Participant>

    constructor()
      ensures room.None? && participant.None?
    {
      room := None;
      participant := None;
    }
  }

  class PokerWsGateway {
    var rosters: map<string, Roster>
    var votes: map<string, Ballot>
    var roomStates: map<string, RoomState>
    var averages: map<string, Fraction>
    var histories: map<string, seq<HistoryRecord>>
    var timers: map<string, Timer>
    var overrides: set<string>
    var intervals: map<nat, Interval>
    var nextHandle: nat
    var requests: seq<Request>

    function State(): GatewayState
      reads this
    {
      GatewayState(rosters, votes, roomStates, averages, histories, timers, overrides, intervals, nextHandle, requests)
    }

    ghost predicate Valid()
      reads this
    {
      && RostersOk(rosters)
      && BallotsOk(votes)
      && CursorsOk(roomStates)
      && TimersOk(timers, intervals)
      && HandlesOk(intervals, nextHandle)
    }

    constructor()
      ensures Valid()
      ensures State() == GatewayState(map[], map[], map[], map[], map[], map[], {}, map[], 0, [])
    {
      rosters := map[];
      votes := map[];
      roomStates := map[];
      averages := map[];
      histories := map[];
      timers := map[];
      overrides := {};
      intervals := map[];
      nextHandle := 0;
      requests := [];
    }

    /**
      `handleJoinRoom`. `status` is what `checkSessionStatus` gave (the
      started flag, or the message it threw), `wasMember` what
      `wasUserInSession` gave, `deck` the deck's stories (None when the room
      has no active deck), `user` the handshake profile and `chatOk` whether
      the chat history could be read.
     */
    method Join(client: Connection, room: string, status: Result<bool, string>, wasMember: bool,
                deck: Option<seq<Story>>, user: UserProfile, chatOk: bool) returns (out: Outcome)
      requires Valid()
      modifies this, client
      ensures Valid()
      ensures room == "" ==> out == Refused(MissingRoom)
      ensures room != "" && status.Err? ==> out == Threw(status.error)
      ensures room != "" && status == Ok(true) && !wasMember ==> out == Refused(AlreadyStarted)
      ensures MayEnter(room, status, wasMember) && deck.None? ==> out == Threw(ReadDeckError)
      ensures MayEnter(room, status, wasMember) && deck == Some([]) ==> out == Refused(NoStories)
      ensures !Admitted(room, status, wasMember, deck) ==> State() == old(State()) && unchanged(client)
      // The story state is built by the first join only.
      ensures Admitted(room, status, wasMember, deck) ==>
                roomStates == if room in old(roomStates) then old(roomStates) else old(roomStates)[room := RoomState(deck.value, 0)]
      ensures Admitted(room, status, wasMember, deck) && user.picture.None? ==>
                out == Refused(TokenFailed) && State() == old(State()).(roomStates := roomStates) && unchanged(client)
      // The participant is upserted under the user's id.
      ensures Admitted(room, status, wasMember, deck) && user.picture.Some? ==>
                && State() == old(State()).(roomStates := roomStates,
                                            rosters := old(rosters)[room := JsMap.Set(Lookup(old(rosters), room, []), user.id, ParticipantOf(user))])
                && JsMap.Get(rosters[room], user.id) == Some(ParticipantOf(user))
                && (forall k :: k != user.id ==> JsMap.Get(rosters[room], k) == JsMap.Get(Lookup(old(rosters), room, []), k))
      ensures Admitted(room, status, wasMember, deck) && user.picture.Some? && !chatOk ==>
                out == Refused(TokenFailed) && unchanged(client)
      ensures Admitted(room, status, wasMember, deck) && user.picture.Some? && chatOk ==>
                out == Done && client.room == Some(room) && client.participant == Some(ParticipantOf(user))
    {
      if room == "" {
        return Refused(MissingRoom);
      }
      if status.Err? {
        return Threw(status.error);
      }
      if status.value && !wasMember {
        return Refused(AlreadyStarted);
      }
      if deck.None? {
        return Threw(ReadDeckError);
      }
      var stories := deck.value;
      if |stories| == 0 {
        return Refused(NoStories);
      }
      if room !in roomStates {
        roomStates := roomStates[room := RoomState(stories, 0)];
      }
      if user.picture.None? {
        return Refused(TokenFailed);
      }
      var p := ParticipantOf(user);
      // A missing roster is created empty and the participant set into it.
      var before := Lookup(rosters, room, []);
      RosterSet(before, p);
      JsMap.GetSet(before, user.id, p, user.id);
      forall k | k != user.id ensures JsMap.Get(JsMap.Set(before, user.id, p), k) == JsMap.Get(before, k) {
        JsMap.GetSet(before, user.id, p, k);
      }
      rosters := rosters[room := JsMap.Set(before, user.id, p)];
      if !chatOk {
        return Refused(TokenFailed);
      }
      client.participant := Some(p);
      client.room := Some(room);
      out := Done;
    }

    /** Join gets past the session-status check. */
    predicate MayEnter(room: string, status: Result<bool, string>, wasMember: bool) {
      room != "" && status.Ok? && (status.value ==> wasMember)
    }

    /** Join gets past every check before it touches the tables. */
    predicate Admitted(room: string, status: Result<bool, string>, wasMember: bool, deck: Option<seq<Story>>) {
      MayEnter(room, status, wasMember) && deck.Some? && |deck.value| > 0
    }

    /**
      `handleDisconnect`: removes the client's participant from its room's
      roster and drops the roster once it is empty.
     */
    method Disconnect(client: Connection)
      requires Valid()
      modifies this
      ensures Valid()
      ensures State() == old(State()).(rosters := rosters)
      ensures (client.room.None? || client.room.value == "" || client.participant.None? || client.room.value !in old(rosters)) ==>
                rosters == old(rosters)
      ensures client.room.Some? && client.room.value != "" && client.participant.Some? && client.room.value in old(rosters) ==>
                var rest := JsMap.Delete(old(rosters)[client.room.value], client.participant.value.id);
                rosters == if |rest| == 0 then old(rosters) - {client.room.value} else old(rosters)[client.room.value := rest]
    {
      if client.room.Some? && client.room.value != "" && client.participant.Some? {
        var room := client.room.value;
        if room in rosters {
          RosterDelete(rosters[room], client.participant.value.id);
          var rest := JsMap.Delete(rosters[room], client.participant.value.id);
          if |rest| == 0 {
            rosters := rosters - {room};
          } else {
            rosters := rosters[room := rest];
          }
        }
      }
    }

    /** `handleLeaveRoom`: starts `leaveSession` for the client's participant without waiting. */
    method LeaveRoom(client: Connection, room: string) returns (out: Outcome)
      requires Valid()
      modifies this
      ensures Valid()
      ensures client.participant.None? ==> out == Threw(ReadIdError) && State() == old(State())
      ensures client.participant.Some? ==>
                out == Done && State() == old(State()).(requests := old(requests) + [LeaveSession(room, client.participant.value.id)])
    {
      if client.participant.None? {
        return Threw(ReadIdError);
      }
      requests := requests + [LeaveSession(room, client.participant.value.id)];
      out := Done;
    }

    /**
      `handleVote`: creates the room's ballot if needed, then upserts the
      caller's vote; any string is accepted.
     */
    method SubmitVote(client: Connection, room: string, vote: string) returns (out: Outcome)
      requires Valid()
      modifies this
      ensures Valid()
      ensures client.participant.None? ==>
                out == Threw(ReadIdError) && State() == old(State()).(votes := old(votes)[room := Lookup(old(votes), room, [])])
      ensures client.participant.Some? ==>
                var p := client.participant.value;
                var before := Lookup(old(votes), room, []);
                && out == Done
                && State() == old(State()).(votes := old(votes)[room := JsMap.Set(before, p.id, Vote(vote, p))])
                && JsMap.Get(votes[room], p.id) == Some(Vote(vote, p))
                && (forall k :: k != p.id ==> JsMap.Get(votes[room], k) == JsMap.Get(before, k))
                && JsMap.Keys(votes[room]) == if JsMap.Has(before, p.id) then JsMap.Keys(before) else JsMap.Keys(before) + [p.id]
    {
      var before := Lookup(votes, room, []);
      if client.participant.None? {
        votes := votes[room := before];
        return Threw(ReadIdError);
      }
      var p := client.participant.value;
      BallotSet(before, Vote(vote, p));
      JsMap.SetKeys(before, p.id, Vote(vote, p));
      JsMap.GetSet(before, p.id, Vote(vote, p), p.id);
      forall k | k != p.id ensures JsMap.Get(JsMap.Set(before, p.id, Vote(vote, p)), k) == JsMap.Get(before, k) {
        JsMap.GetSet(before, p.id, Vote(vote, p), k);
      }
      votes := votes[room := JsMap.Set(before, p.id, Vote(vote, p))];
      out := Done;
    }

    /** `handleCompleteVoting`. */
    method CompleteVoting(room: string) returns (out: Outcome, results: Option<VotingResults>)
      requires Valid()
      modifies this
      ensures Valid()
      ensures CompletionStep(old(State()), room, State(), out, results)
    {
      var stop := CompletionGuard(votes, rosters, room);
      if stop.Some? {
        return stop.value, None;
      }
      var ballot := votes[room];
      results := Tally(ballot);
      StoreAverage(room, results.value.average);
      out := Done;
    }

    /** `roomAvarage.set(room, average)`: the only state `handleCompleteVoting` changes. */
    method StoreAverage(room: string, average: Fraction)
      requires Valid()
      modifies this
      ensures Valid()
      ensures State() == old(State()).(averages := old(averages)[room := average])
    {
      averages := averages[room := average];
    }

    /** `handleRepeatVoting`: drops the room's ballot and nothing else; the override flag stays. */
    method RepeatVoting(room: string)
      requires Valid()
      modifies this
      ensures Valid()
      ensures State() == old(State()).(votes := old(votes) - {room})
    {
      votes := votes - {room};
    }

    /**
      `handleLeaderOverride`. `leader` is how the awaited `roomCreator` ended:
      a rejection escapes the handler before anything else happens. Every
      roster member's vote becomes `vote`, the override flag is set, and
      voting is completed on the result.
     */
    method LeaderOverride(client: Connection, room: string, vote: string, leader: Result<Option<string>, string>)
      returns (out: Outcome, results: Option<VotingResults>)
      requires Valid()
      modifies this
      ensures Valid()
      ensures leader.Err? ==> out == Threw(leader.error) && State() == old(State())
      ensures leader.Ok? && client.participant.None? ==> out == Threw(ReadIdError) && State() == old(State())
      ensures leader.Ok? && client.participant.Some? && leader.value != Some(client.participant.value.id) ==>
                out == Refused(OnlyLeaderOverrides) && State() == old(State())
      ensures leader.Ok? && client.participant.Some? && leader.value == Some(client.participant.value.id) && !ValidOverride(vote) ==>
                out == Refused(OverrideNotCard) && State() == old(State())
      ensures leader.Ok? && client.participant.Some? && leader.value == Some(client.participant.value.id) && ValidOverride(vote) ==>
                var start := Lookup(old(votes), room, []);
                if room !in old(rosters) then
                  out == Threw(ReadForEachError) && State() == old(State()).(votes := old(votes)[room := start])
                else
                  CompletionStep(old(State()).(votes := old(votes)[room := ForceVotes(start, old(rosters)[room], vote)],
                                              overrides := old(overrides) + {room}),
                                 room, State(), out, results)
    {
      results := None;
      if leader.Err? {
        return Threw(leader.error), None;
      }
      if client.participant.None? {
        return Threw(ReadIdError), None;
      }
      var p := client.participant.value;
      if leader.value != Some(p.id) {
        return Refused(OnlyLeaderOverrides), None;
      }
      if !ValidOverride(vote) {
        return Refused(OverrideNotCard), None;
      }
      var start := Lookup(votes, room, []);
      if room !in rosters {
        votes := votes[room := start];
        return Threw(ReadForEachError), None;
      }
      Override(room, vote);
      out, results := CompleteVoting(room);
    }

    /**
      The override step of `handleLeaderOverride`: each roster member in turn
      gets `vote` in the room's ballot (created empty when missing), and the
      room is flagged as overridden.
     */
    method Override(room: string, vote: string)
      requires Valid() && room in rosters
      modifies this
      ensures Valid()
      ensures State() == old(State()).(votes := old(votes)[room := ForceVotes(Lookup(old(votes), room, []), old(rosters)[room], vote)],
                                       overrides := old(overrides) + {room})
    {
      var start := Lookup(votes, room, []);
      var ballot := ForceAll(start, rosters[room], vote);
      ForceVotesBallotOk(start, rosters[room], vote);
      votes := votes[room := ballot];
      overrides := overrides + {room};
    }

    /** The override value parses to a card. */
    predicate ValidOverride(vote: string) {
      var c := JsNumbers.ParseInt(vote);
      c.Some? && IsCard(c.value)
    }

    /**
      `handleNextStory`. `saved` is the outcome of the awaited `saveVote`;
      `batch` is the array passed to it, when it is called.
     */
    method NextStory(room: string, saved: Result<(), string>, now: int) returns (out: Outcome, batch: Option<seq<VoteInput>>)
      requires Valid()
      modifies this
      ensures Valid()
      ensures out != Done ==> State() == old(State())
      ensures room !in old(roomStates) ==> out == Refused(RoomStateNotFound)
      ensures room in old(roomStates) && room !in old(votes) ==> out == Refused(NotAllVoted)
      ensures room in old(roomStates) && room in old(votes) && room !in old(rosters) ==> out == Threw(ReadSizeError)
      ensures room in old(roomStates) && room in old(votes) && room in old(rosters) && |old(votes)[room]| < |old(rosters)[room]| ==>
                out == Refused(NotAllVoted)
      ensures room in old(roomStates) && room in old(votes) && room in old(rosters) && |old(votes)[room]| >= |old(rosters)[room]|
              && !HasConsensus(VoteValues(old(votes)[room])) && room !in old(overrides) ==>
                out == Refused(NoConsensus)
      ensures ReadyToAdvance(old(State()), room) && FinalValue(VoteValues(old(votes)[room])).None? ==>
                out == Refused(ReadToStringError) && batch.None?
      ensures !ReadyToAdvance(old(State()), room) ==> batch.None?
      ensures ReadyToAdvance(old(State()), room) && FinalValue(VoteValues(old(votes)[room])).Some? ==>
                var st := old(roomStates)[room];
                var story := st.stories[st.currentStoryIndex];
                var f := FinalValue(VoteValues(old(votes)[room])).value;
                && batch == Some(VotesToSave(old(votes)[room], story.id, Fraction(f, 1)))
                && (saved.Err? ==> out == Refused(saved.error))
                && (saved.Ok? ==>
                      && out == Done
                      && State() == Advance(old(State()), room, HistoryRecord(story.title, story.id, Some(Fraction(f, 1)), now)))
    {
      batch := None;
      if room !in roomStates {
        return Refused(RoomStateNotFound), None;
      }
      if room !in votes {
        return Refused(NotAllVoted), None;
      }
      if room !in rosters {
        return Threw(ReadSizeError), None;
      }
      var ballot := votes[room];
      if |ballot| < |rosters[room]| {
        return Refused(NotAllVoted), None;
      }
      var values := VoteValues(ballot);
      if !HasConsensus(values) && room !in overrides {
        return Refused(NoConsensus), None;
      }
      var st := roomStates[room];
      var story := st.stories[st.currentStoryIndex];
      var final := FinalValue(values);
      if final.None? {
        return Refused(ReadToStringError), None;
      }
      batch := Some(VotesToSave(ballot, story.id, Fraction(final.value, 1)));
      if saved.Err? {
        return Refused(saved.error), batch;
      }
      var record := HistoryRecord(story.title, story.id, Some(Fraction(final.value, 1)), now);
      MoveOn(room, record);
      out := Done;
    }

    /**
      What `nextStory` does once the votes are saved: the record is appended
      to the room's history, the cursor moves on, and the room's ballot and
      override flag are dropped.
     */
    method MoveOn(room: string, record: HistoryRecord)
      requires Valid() && room in roomStates
      modifies this
      ensures Valid()
      ensures State() == Advance(old(State()), room, record)
    {
      histories := histories[room := Lookup(histories, room, []) + [record]];
      roomStates := roomStates[room := Advanced(roomStates[room])];
      votes := votes - {room};
      overrides := overrides - {room};
    }

    /**
      `handleEndSession`. `votesSaved` and `historySaved` are the outcomes of
      the awaited `saveVote` and `saveHistory`; `votesBatch` and
      `historyBatch` are what was passed to them, when they are called.
     */
    method EndSession(room: string, votesSaved: Result<(), string>, historySaved: Result<(), string>, now: int)
      returns (out: Outcome, votesBatch: Option<seq<VoteInput>>, historyBatch: Option<seq<HistoryRecord>>)
      requires Valid()
      modifies this
      ensures Valid()
      // The room's history entry exists from the first step on.
      ensures room !in old(roomStates) ==>
                && out == Refused(RoomStateNotFound) && votesBatch.None? && historyBatch.None?
                && State() == old(State()).(histories := old(histories)[room := Lookup(old(histories), room, [])])
      ensures room in old(roomStates) ==>
                var pushed := Lookup(old(histories), room, []) + [ClosingRecord(old(State()), room, now)];
                var st := old(roomStates)[room];
                && (room !in old(votes) ==>
                      && out == Refused(EndFailed) && votesBatch.None? && historyBatch.None?
                      && State() == old(State()).(histories := old(histories)[room := pushed]))
                && (room in old(votes) ==>
                      votesBatch == Some(VotesToSave(old(votes)[room], st.stories[st.currentStoryIndex].id, Mean(NumericVotes(old(votes)[room])))))
                && (room in old(votes) && votesSaved.Err? ==>
                      && out == Refused(EndFailed) && historyBatch.None?
                      && State() == old(State()).(histories := old(histories)[room := pushed]))
                && (room in old(votes) && votesSaved.Ok? ==> historyBatch == Some(pushed))
                && (room in old(votes) && votesSaved.Ok? && historySaved.Err? ==>
                      && out == Refused(EndFailed)
                      && State() == old(State()).(histories := old(histories)[room := pushed]))
                // On success the room's roster, ballot, history and timer entry go;
                // its story state, average, override flag and intervals stay.
                && (room in old(votes) && votesSaved.Ok? && historySaved.Ok? ==>
                      && out == Done
                      && State() == old(State()).(
                           rosters := old(rosters) - {room},
                           votes := old(votes) - {room},
                           histories := old(histories) - {room},
                           timers := old(timers) - {room},
                           requests := old(requests) + LeaveRequests(room, Lookup(old(rosters), room, [])) + [DeactivateSession(room)]))
    {
      votesBatch, historyBatch := None, None;
      var before := Lookup(histories, room, []);
      if room !in roomStates {
        histories := histories[room := before];
        return Refused(RoomStateNotFound), None, None;
      }
      var record := ClosingRecord(State(), room, now);
      histories := histories[room := before + [record]];
      if room !in votes {
        return Refused(EndFailed), None, None;
      }
      var st := roomStates[room];
      var ballot := votes[room];
      var average := Mean(NumericVotes(ballot));
      votesBatch := Some(VotesToSave(ballot, st.stories[st.currentStoryIndex].id, average));
      if votesSaved.Err? {
        return Refused(EndFailed), votesBatch, None;
      }
      historyBatch := Some(histories[room]);
      if historySaved.Err? {
        return Refused(EndFailed), votesBatch, historyBatch;
      }
      Close(room);
      out := Done;
    }

    /**
      The teardown at the end of `handleEndSession`: a `leaveSession` request
      per roster member, in roster order, then the room's roster, ballot,
      history and timer entry are dropped and `deactivateSession` is requested.
     */
    method Close(room: string)
      requires Valid()
      modifies this
      ensures Valid()
      ensures State() == old(State()).(
                rosters := old(rosters) - {room},
                votes := old(votes) - {room},
                histories := old(histories) - {room},
                timers := old(timers) - {room},
                requests := old(requests) + LeaveRequests(room, Lookup(old(rosters), room, [])) + [DeactivateSession(room)])
    {
      var sent := LeaveAll(room, Lookup(rosters, room, []));
      requests := requests + sent + [DeactivateSession(room)];
      rosters := rosters - {room};
      votes := votes - {room};
      histories := histories - {room};
      timers := timers - {room};
    }

    /**
      `handleStartTimer`: clears the room's running interval, if any, and
      starts a fresh one counting down from `duration`.
     */
    method StartTimer(room: string, duration: int)
      requires Valid()
      modifies this
      ensures Valid()
      ensures room in old(timers) ==> old(timers)[room].interval !in intervals
      ensures State() == old(State()).(
                timers := old(timers)[room := Timer(duration, old(nextHandle))],
                intervals := (if room in old(timers) then old(intervals) - {old(timers)[room].interval} else old(intervals))[old(nextHandle) := Interval(room, duration)],
                nextHandle := old(nextHandle) + 1)
      ensures RemainingTime(room) == Some(duration)
    {
      if room in timers {
        intervals := intervals - {timers[room].interval};
      }
      var h := nextHandle;
      intervals := intervals[h := Interval(room, duration)];
      nextHandle := nextHandle + 1;
      timers := timers[room := Timer(duration, h)];
    }

    /**
      One run of the interval callback with handle `h`: at zero or below it
      finishes, clears itself and drops the room's timer; otherwise it counts
      down by one and writes the count into the room's timer, which throws
      when the room has no timer any more.
     */
    method Tick(h: nat) returns (event: TimerEvent, out: Outcome)
      requires Valid() && h in intervals
      modifies this
      ensures Valid()
      ensures event == TickEvent(old(intervals)[h].timeLeft)
      ensures old(intervals)[h].timeLeft <= 0 ==>
                out == Done && State() == old(State()).(intervals := old(intervals) - {h}, timers := old(timers) - {old(intervals)[h].room})
      ensures old(intervals)[h].timeLeft > 0 ==>
                var iv := old(intervals)[h];
                && intervals == old(intervals)[h := iv.(timeLeft := iv.timeLeft - 1)]
                && (iv.room in old(timers) ==>
                      out == Done && State() == old(State()).(intervals := intervals, timers := old(timers)[iv.room := old(timers)[iv.room].(timeLeft := iv.timeLeft - 1)]))
                && (iv.room !in old(timers) ==> out == Threw(SetTimeLeftError) && State() == old(State()).(intervals := intervals))
      ensures old(intervals)[h].timeLeft >= 0 && h in intervals ==> intervals[h].timeLeft >= 0
      ensures old(intervals)[h].timeLeft <= 0 ==> RemainingTime(old(intervals)[h].room).None?
      ensures old(intervals)[h].timeLeft > 0 && old(RemainingTime(intervals[h].room)) == Some(old(intervals)[h].timeLeft) ==>
                RemainingTime(old(intervals)[h].room) == Some(old(intervals)[h].timeLeft - 1)
      ensures forall other :: other != old(intervals)[h].room ==> RemainingTime(other) == old(RemainingTime(other))
    {
      var iv := intervals[h];
      event := TickEvent(iv.timeLeft);
      if iv.timeLeft <= 0 {
        intervals := intervals - {h};
        timers := timers - {iv.room};
        out := Done;
      } else {
        intervals := intervals[h := iv.(timeLeft := iv.timeLeft - 1)];
        if iv.room in timers {
          timers := timers[iv.room := timers[iv.room].(timeLeft := iv.timeLeft - 1)];
          out := Done;
        } else {
          out := Threw(SetTimeLeftError);
        }
      }
    }

    /** `handleStopTimer`: clears the room's interval and drops its timer; without one it does nothing. */
    method StopTimer(room: string) returns (stopped: bool)
      requires Valid()
      modifies this
      ensures Valid()
      ensures stopped <==> room in old(timers)
      ensures !stopped ==> State() == old(State())
      ensures stopped ==>
                State() == old(State()).(intervals := old(intervals) - {old(timers)[room].interval}, timers := old(timers) - {room})
      ensures RemainingTime(room).None?
    {
      stopped := room in timers;
      if stopped {
        intervals := intervals - {timers[room].interval};
        timers := timers - {room};
      }
    }

    /** `handleTimerUpdateRequest`: the room's remaining seconds, when it has a timer. */
    function RemainingTime(room: string): (r: Option<int>)
      reads this
      ensures r.Some? <==> room in timers
      ensures r.Some? ==> r.value == timers[room].timeLeft
    {
      if room in timers then Some(timers[room].timeLeft) else None
    }

    /**
      `handleStartSession`: a rejected `roomCreator` (`leader`) escapes the
      handler; otherwise only the room's leader gets `startSession` called,
      and `started` is how that call ended. The gateway's tables do not
      change.
     */
    method StartSession(client: Connection, room: string, leader: Result<Option<string>, string>, started: Result<(), string>)
      returns (out: Outcome, called: bool)
      ensures called <==> leader.Ok? && client.participant.Some? && leader.value == Some(client.participant.value.id)
      ensures leader.Err? ==> out == Threw(leader.error)
      ensures leader.Ok? && client.participant.None? ==> out == Threw(ReadIdError)
      ensures leader.Ok? && client.participant.Some? && !called ==> out == Refused(OnlyLeaderStarts)
      ensures called ==> out == if started.Ok? then Done else Refused(started.error)
    {
      if leader.Err? {
        return Threw(leader.error), false;
      }
      if client.participant.None? {
        return Threw(ReadIdError), false;
      }
      if leader.value != Some(client.participant.value.id) {
        return Refused(OnlyLeaderStarts), false;
      }
      called := true;
      out := if started.Ok? then Done else Refused(started.error);
    }
  }
}
