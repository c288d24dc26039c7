/**
  The values the live-room gateway keeps per room, and the pure functions its
  handlers are specified with: the vote list read in Map order, the rows a
  finished story saves, the leader's override of every roster member's vote,
  and the countdown an interval produces.
 */
module Rooms {
  import opened Wrappers
  import JsMap
  import JsNumbers
  import opened Scoring
  import opened Records

  /** The participant record built from the caller's profile. */
  datatype Participant = Participant(id: string, name: string, email: string, avatar: string, role: string)

  /** The caller's profile; `picture` is None when the profile carries no `profile` object. */
  datatype UserProfile = UserProfile(id: string, name: string, email: string, role: string, picture: Option<string>)

  datatype Vote = Vote(value: string, participant: Participant)

  datatype Story = Story(id: string, title: string)

  datatype RoomState = RoomState(stories: seq<Story>, currentStoryIndex: int)

  /** A room's entry in `timers`: the remaining seconds and the handle of its interval. */
  datatype Timer = Timer(timeLeft: int, interval: nat)

  /** A running interval: the room its callback names and the callback's own `timeLeft` variable. */
  datatype Interval = Interval(room: string, timeLeft: int)

  datatype TimerEvent = TimerUpdate(timeLeft: int) | TimerFinished

  /**
    How a handler ends: normally, with an error emitted to the caller, or with
    an exception escaping the handler.
   */
  datatype Outcome = Done | Refused(message: string) | Threw(message: string)

  /** A persistence call the gateway starts without waiting for its result. */
  datatype Request = LeaveSession(room: string, userId: string) | DeactivateSession(room: string) | StartSession(room: string)

  /** The payload of `voting-results`. */
  datatype VotingResults = VotingResults(average: Fraction, median: int, mode: int, votes: seq<Vote>, hasConsensus: bool)

  /** A room's `participants_in_room` Map, keyed by user id. */
  type Roster = JsMap.Entries<string, Participant>

  /** A room's `votes` Map, keyed by participant id. */
  type Ballot = JsMap.Entries<string, Vote>

  function ParticipantOf(u: UserProfile): Participant
    requires u.picture.Some?
  {
    Participant(u.id, u.name, u.email, u.picture.value, u.role)
  }

  /** Every roster entry is stored under its participant's id. */
  ghost predicate KeysAreIds(m: Roster) {
    forall e :: e in m ==> e.0 == e.1.id
  }

  /** The shape of every roster the gateway keeps: unique keys, never empty, keyed by id. */
  ghost predicate RosterOk(m: Roster) {
    JsMap.UniqueKeys(m) && |m| > 0 && KeysAreIds(m)
  }

  /** Every ballot entry is stored under its voter's id. */
  ghost predicate BallotOk(b: Ballot) {
    JsMap.UniqueKeys(b) && forall e :: e in b ==> e.0 == e.1.participant.id
  }

  /** `Array.from(votes.values()).map(v => v.value)`. */
  function VoteValues(b: Ballot): (r: seq<string>)
    ensures |r| == |b|
    ensures forall i :: 0 <= i < |b| ==> r[i] == b[i].1.value
  {
    seq(|b|, i requires 0 <= i < |b| => b[i].1.value)
  }

  /** The numeric votes of a ballot, in Map order. */
  function NumericVotes(b: Ballot): seq<int> {
    NumericValues(VoteValues(b))
  }

  /** `numericVotes.every(isValidFibonacciNumber)`. */
  predicate AllCards(ns: seq<int>) {
    forall i :: 0 <= i < |ns| ==> IsCard(ns[i])
  }

  /** `numericVotes[0]`, the value `nextStory` records; None is `undefined`. */
  function FinalValue(values: seq<string>): (r: Option<int>)
    ensures r.None? <==> forall i :: 0 <= i < |values| ==> JsNumbers.ParseInt(values[i]).None?
    ensures r.Some? ==> exists k :: 0 <= k < |values| && JsNumbers.ParseInt(values[k]) == r && NoneParseBefore(values, k)
  {
    var ns := NumericValues(values);
    NumericValuesNone(values);
    if |ns| == 0 then None else FirstNumeric(values); Some(ns[0])
  }

  /** No vote before position `k` parses. */
  predicate NoneParseBefore(values: seq<string>, k: nat) {
    forall j :: 0 <= j < k && j < |values| ==> JsNumbers.ParseInt(values[j]).None?
  }

  /** The first numeric vote comes from the first vote that parses. */
  lemma {:induction false} FirstNumeric(values: seq<string>)
    requires |NumericValues(values)| > 0
    ensures exists k :: 0 <= k < |values| && JsNumbers.ParseInt(values[k]) == Some(NumericValues(values)[0]) && NoneParseBefore(values, k)
  {
    var p := JsNumbers.ParseInt(values[0]);
    if p.Some? {
      assert NumericValues(values) == [p.value] + NumericValues(values[1..]);
      assert NoneParseBefore(values, 0);
    } else {
      assert NumericValues(values) == NumericValues(values[1..]);
      FirstNumeric(values[1..]);
      var k :| 0 <= k < |values[1..]| && JsNumbers.ParseInt(values[1..][k]) == Some(NumericValues(values[1..])[0])
                && NoneParseBefore(values[1..], k);
      assert JsNumbers.ParseInt(values[k + 1]) == Some(NumericValues(values)[0]);
      forall j | 0 <= j < k + 1 && j < |values| ensures JsNumbers.ParseInt(values[j]).None? {
        if j > 0 { assert values[j] == values[1..][j - 1]; }
      }
    }
  }

  /** No numeric vote exactly when no vote parses. */
  lemma NumericValuesNone(values: seq<string>)
    ensures |NumericValues(values)| == 0 <==> forall i :: 0 <= i < |values| ==> JsNumbers.ParseInt(values[i]).None?
  {
    var ns := NumericValues(values);
    if |ns| > 0 {
      NumericValuesMembers(values, ns[0]);
    }
    forall i | 0 <= i < |values| && JsNumbers.ParseInt(values[i]).Some? ensures |ns| > 0 {
      NumericValuesMembers(values, JsNumbers.ParseInt(values[i]).value);
    }
  }

  /** With consensus on `c`, the recorded value is `c`. */
  lemma ConsensusFinalValue(values: seq<string>, c: int)
    requires |values| > 0 && AllParseTo(values, c)
    ensures FinalValue(values) == Some(c)
  {
    ConsensusNumeric(values, c);
  }

  /** The recorded value is the first vote when that vote is numeric, whatever the others are. */
  lemma FinalValueIsFirst(values: seq<string>, a: int)
    requires |values| > 0 && JsNumbers.ParseInt(values[0]) == Some(a)
    ensures FinalValue(values) == Some(a)
  {
  }

  /** The array handed to `saveVote`: one element per vote, in Map order. */
  function VotesToSave(b: Ballot, storyId: string, final: Fraction): (r: seq<VoteInput>)
    ensures |r| == |b|
    ensures forall i :: 0 <= i < |b| ==>
              r[i] == VoteInput(storyId, b[i].1.participant.id, b[i].1.value, final)
  {
    seq(|b|, i requires 0 <= i < |b| => VoteInput(storyId, b[i].1.participant.id, b[i].1.value, final))
  }

  /** One `leaveSession` call per roster entry, in Map order. */
  function LeaveRequests(room: string, roster: Roster): (r: seq<Request>)
    ensures |r| == |roster|
    ensures forall i :: 0 <= i < |roster| ==> r[i] == LeaveSession(room, roster[i].0)
  {
    if |roster| == 0 then [] else LeaveRequests(room, roster[..|roster| - 1]) + [LeaveSession(room, roster[|roster| - 1].0)]
  }

  // ----- roster and ballot upkeep -----

  lemma RosterSet(m: Roster, p: Participant)
    requires JsMap.UniqueKeys(m) && KeysAreIds(m)
    ensures RosterOk(JsMap.Set(m, p.id, p))
  {
    JsMap.SetUnique(m, p.id, p);
    JsMap.SetEntries(m, p.id, p);
  }

  lemma RosterDelete(m: Roster, k: string)
    requires RosterOk(m)
    ensures JsMap.UniqueKeys(JsMap.Delete(m, k)) && KeysAreIds(JsMap.Delete(m, k))
  {
    JsMap.DeleteUnique(m, k);
    JsMap.DeleteEntries(m, k);
  }

  lemma BallotSet(b: Ballot, v: Vote)
    requires BallotOk(b)
    ensures BallotOk(JsMap.Set(b, v.participant.id, v))
  {
    JsMap.SetUnique(b, v.participant.id, v);
    JsMap.SetEntries(b, v.participant.id, v);
  }

  // ----- leader override -----

  /**
    `participantsMap.forEach(p => votes.set(p.id, { value, participant: p }))`:
    the roster's members in Map order, each one's vote set to the raw string.
   */
  function ForceVotes(b: Ballot, roster: Roster, value: string): Ballot
    decreases |roster|
  {
    if |roster| == 0 then b
    else
      var p := roster[|roster| - 1].1;
      JsMap.Set(ForceVotes(b, roster[..|roster| - 1], value), p.id, Vote(value, p))
  }

  /** An entry the override wrote: the forced value, for a participant as the roster holds it. */
  ghost predicate Forced(e: (string, Vote), roster: Roster, value: string) {
    e.1.value == value && (e.0, e.1.participant) in roster
  }

  /** Entry `j` of `r` is forced, or is the untouched entry of a voter outside the roster. */
  ghost predicate EntryOk(b: Ballot, r: Ballot, roster: Roster, value: string, j: nat)
    requires j < |r|
  {
    Forced(r[j], roster, value) || (j < |b| && r[j] == b[j] && !JsMap.Has(roster, r[j].0))
  }

  /**
    `r` is what forcing `roster` onto `b` gives: the old keys keep their
    positions, every roster key is present, and each entry is either forced or
    an untouched entry of a voter outside the roster.
   */
  ghost predicate ForcedFrom(b: Ballot, r: Ballot, roster: Roster, value: string) {
    && JsMap.UniqueKeys(r)
    && |b| <= |r|
    && (forall j :: 0 <= j < |b| ==> r[j].0 == b[j].0)
    && (forall j :: 0 <= j < |r| ==> EntryOk(b, r, roster, value, j))
    && (forall i :: 0 <= i < |roster| ==> JsMap.Has(r, roster[i].0))
  }

  lemma PrefixMember<T>(s: seq<T>, n: nat, x: T)
    requires n <= |s| && x in s[..n]
    ensures x in s
  {
    var i :| 0 <= i < n && s[..n][i] == x;
    assert s[i] == x;
  }

  /** A roster entry's key is a key of the roster. */
  lemma MemberHas<V>(m: JsMap.Entries<string, V>, e: (string, V))
    requires e in m
    ensures JsMap.Has(m, e.0)
  {
    var i :| 0 <= i < |m| && m[i] == e;
    assert m[i].0 == e.0;
  }

  /** Keys of a Map extended by one entry: the old keys and the new one. */
  lemma HasLast(roster: Roster, x: string)
    requires |roster| > 0
    ensures JsMap.Has(roster, x) <==> JsMap.Has(roster[..|roster| - 1], x) || roster[|roster| - 1].0 == x
  {
    var n := |roster| - 1;
    if JsMap.Has(roster, x) && roster[n].0 != x {
      var i := JsMap.Find(roster, x).value;
      assert roster[..n][i].0 == x;
    }
    if JsMap.Has(roster[..n], x) {
      var i := JsMap.Find(roster[..n], x).value;
      assert roster[i].0 == x;
    }
  }

  /** An entry kept from the previous step stays acceptable against the longer roster. */
  lemma KeptEntry(b: Ballot, r0: Ballot, r: Ballot, roster: Roster, value: string, j: nat)
    requires |roster| > 0 && j < |r0| && j < |r| && r[j] == r0[j]
    requires r0[j].0 != roster[|roster| - 1].0
    requires EntryOk(b, r0, roster[..|roster| - 1], value, j)
    ensures EntryOk(b, r, roster, value, j)
  {
    var n := |roster| - 1;
    if Forced(r0[j], roster[..n], value) {
      PrefixMember(roster, n, (r0[j].0, r0[j].1.participant));
    } else {
      HasLast(roster, r0[j].0);
    }
  }

  /** Every roster key ends up in a Map holding the previous keys and the last roster key. */
  lemma KeysCovered(r0: Ballot, r: Ballot, roster: Roster, t: nat)
    requires |roster| > 0 && |r0| <= |r| && (forall j :: 0 <= j < |r0| ==> r[j].0 == r0[j].0)
    requires forall q :: 0 <= q < |roster| - 1 ==> JsMap.Has(r0, roster[q].0)
    requires t < |r| && r[t].0 == roster[|roster| - 1].0
    ensures forall q :: 0 <= q < |roster| ==> JsMap.Has(r, roster[q].0)
  {
    forall q | 0 <= q < |roster| ensures JsMap.Has(r, roster[q].0) {
      if q < |roster| - 1 {
        var s := JsMap.Find(r0, roster[q].0).value;
        assert r[s].0 == roster[q].0;
      } else {
        assert r[t].0 == roster[q].0;
      }
    }
  }

  /** The step of the override that overwrites an existing vote. */
  lemma ForceStepAt(b: Ballot, r0: Ballot, roster: Roster, value: string, i: nat)
    requires |roster| > 0 && KeysAreIds(roster)
    requires ForcedFrom(b, r0, roster[..|roster| - 1], value)
    requires i < |r0| && r0[i].0 == roster[|roster| - 1].0
    requires JsMap.UniqueKeys(r0[i := (roster[|roster| - 1].0, Vote(value, roster[|roster| - 1].1))])
    ensures ForcedFrom(b, r0[i := (roster[|roster| - 1].0, Vote(value, roster[|roster| - 1].1))], roster, value)
  {
    var n := |roster| - 1;
    var r := r0[i := (roster[n].0, Vote(value, roster[n].1))];
    assert roster[n] in roster;
    forall j | 0 <= j < |r| ensures EntryOk(b, r, roster, value, j) {
      if j == i {
        assert (r[j].0, r[j].1.participant) == roster[n];
      } else {
        KeptEntry(b, r0, r, roster, value, j);
      }
    }
    KeysCovered(r0, r, roster, i);
  }

  /** The step of the override that appends a vote for a member who had none. */
  lemma ForceStepAppend(b: Ballot, r0: Ballot, roster: Roster, value: string)
    requires |roster| > 0 && KeysAreIds(roster)
    requires ForcedFrom(b, r0, roster[..|roster| - 1], value)
    requires !JsMap.Has(r0, roster[|roster| - 1].0)
    requires JsMap.UniqueKeys(r0 + [(roster[|roster| - 1].0, Vote(value, roster[|roster| - 1].1))])
    ensures ForcedFrom(b, r0 + [(roster[|roster| - 1].0, Vote(value, roster[|roster| - 1].1))], roster, value)
  {
    var n := |roster| - 1;
    var r := r0 + [(roster[n].0, Vote(value, roster[n].1))];
    assert roster[n] in roster;
    forall j | 0 <= j < |r| ensures EntryOk(b, r, roster, value, j) {
      if j == |r0| {
        assert (r[j].0, r[j].1.participant) == roster[n];
      } else {
        KeptEntry(b, r0, r, roster, value, j);
      }
    }
    KeysCovered(r0, r, roster, |r0|);
  }

  /** One `votes.set` of the override keeps the shape. */
  lemma ForceStep(b: Ballot, r0: Ballot, roster: Roster, value: string)
    requires |roster| > 0 && KeysAreIds(roster)
    requires ForcedFrom(b, r0, roster[..|roster| - 1], value)
    ensures ForcedFrom(b, JsMap.Set(r0, roster[|roster| - 1].1.id, Vote(value, roster[|roster| - 1].1)), roster, value)
  {
    var n := |roster| - 1;
    var p := roster[n].1;
    assert roster[n] in roster;
    JsMap.SetUnique(r0, p.id, Vote(value, p));
    if JsMap.Has(r0, p.id) {
      var i := JsMap.Find(r0, p.id).value;
      JsMap.SetExisting(r0, p.id, Vote(value, p), i);
      ForceStepAt(b, r0, roster, value, i);
    } else {
      JsMap.SetNew(r0, p.id, Vote(value, p));
      ForceStepAppend(b, r0, roster, value);
    }
  }

  lemma {:induction false} ForceVotesShape(b: Ballot, roster: Roster, value: string)
    requires JsMap.UniqueKeys(b) && KeysAreIds(roster)
    ensures ForcedFrom(b, ForceVotes(b, roster, value), roster, value)
    decreases |roster|
  {
    if |roster| > 0 {
      var n := |roster| - 1;
      var pre := roster[..n];
      forall e | e in pre ensures e in roster { PrefixMember(roster, n, e); }
      ForceVotesShape(b, pre, value);
      ForceStep(b, ForceVotes(b, pre, value), roster, value);
    } else {
      assert forall j :: 0 <= j < |b| ==> EntryOk(b, b, roster, value, j);
    }
  }

  /** In a forced ballot, an entry is forced exactly when its key is a roster key. */
  lemma ForcedAt(b: Ballot, r: Ballot, roster: Roster, value: string, j: nat)
    requires ForcedFrom(b, r, roster, value) && j < |r|
    ensures JsMap.Has(roster, r[j].0) ==> Forced(r[j], roster, value)
    ensures !JsMap.Has(roster, r[j].0) ==> j < |b| && r[j] == b[j]
  {
    assert EntryOk(b, r, roster, value, j);
    if Forced(r[j], roster, value) {
      MemberHas(roster, (r[j].0, r[j].1.participant));
    }
  }

  /** A forced entry's participant is the roster's entry for its key. */
  lemma ForcedGet(roster: Roster, e: (string, Vote), value: string)
    requires JsMap.UniqueKeys(roster) && Forced(e, roster, value)
    ensures JsMap.Get(roster, e.0) == Some(e.1.participant)
  {
    var m :| 0 <= m < |roster| && roster[m] == (e.0, e.1.participant);
    JsMap.GetAt(roster, m);
  }

  /**
    After the override every roster member's vote is the forced string with
    that member as participant; every other voter's entry is untouched; the
    entries already present keep their positions.
   */
  lemma ForceVotesEffect(b: Ballot, roster: Roster, value: string, k: string)
    requires JsMap.UniqueKeys(b) && JsMap.UniqueKeys(roster) && KeysAreIds(roster)
    ensures JsMap.Has(roster, k) ==> JsMap.Get(ForceVotes(b, roster, value), k) == Some(Vote(value, JsMap.Get(roster, k).value))
    ensures !JsMap.Has(roster, k) ==> JsMap.Get(ForceVotes(b, roster, value), k) == JsMap.Get(b, k)
    ensures |b| <= |ForceVotes(b, roster, value)|
    ensures forall j :: 0 <= j < |b| ==> ForceVotes(b, roster, value)[j].0 == b[j].0
  {
    var r := ForceVotes(b, roster, value);
    ForceVotesShape(b, roster, value);
    if JsMap.Has(roster, k) {
      var q := JsMap.Find(roster, k).value;
      assert JsMap.Has(r, roster[q].0);
      var i := JsMap.Find(r, k).value;
      JsMap.GetAt(r, i);
      ForcedAt(b, r, roster, value, i);
      ForcedGet(roster, r[i], value);
    } else if JsMap.Has(r, k) {
      var i := JsMap.Find(r, k).value;
      JsMap.GetAt(r, i);
      ForcedAt(b, r, roster, value, i);
      JsMap.GetAt(b, i);
    } else {
      forall j | 0 <= j < |b| ensures b[j].0 != k {
        assert r[j].0 == b[j].0;
      }
    }
  }

  /** The override keeps every ballot entry keyed by its voter's id. */
  lemma ForceVotesBallotOk(b: Ballot, roster: Roster, value: string)
    requires BallotOk(b) && KeysAreIds(roster)
    ensures BallotOk(ForceVotes(b, roster, value))
  {
    var r := ForceVotes(b, roster, value);
    ForceVotesShape(b, roster, value);
    forall e | e in r ensures e.0 == e.1.participant.id {
      var j :| 0 <= j < |r| && r[j] == e;
      assert EntryOk(b, r, roster, value, j);
      if !Forced(r[j], roster, value) {
        assert b[j] in b;
      }
    }
  }

  /**
    When every voter is still in the roster, the override leaves one value in
    the whole ballot, so there is consensus and the recorded value is the
    forced card.
   */
  lemma OverrideConsensus(b: Ballot, roster: Roster, value: string, c: int)
    requires JsMap.UniqueKeys(b) && RosterOk(roster) && JsNumbers.ParseInt(value) == Some(c)
    requires forall j :: 0 <= j < |b| ==> JsMap.Has(roster, b[j].0)
    ensures forall j :: 0 <= j < |ForceVotes(b, roster, value)| ==> ForceVotes(b, roster, value)[j].1.value == value
    ensures HasConsensus(VoteValues(ForceVotes(b, roster, value)))
    ensures FinalValue(VoteValues(ForceVotes(b, roster, value))) == Some(c)
  {
    var r := ForceVotes(b, roster, value);
    ForceVotesShape(b, roster, value);
    forall j | 0 <= j < |r| ensures r[j].1.value == value {
      ForcedAt(b, r, roster, value, j);
    }
    assert JsMap.Has(r, roster[0].0);
    var values := VoteValues(r);
    assert AllParseTo(values, c);
    ConsensusNumeric(values, c);
    ConsensusFinalValue(values, c);
  }

  /**
    A vote left by a participant who has since left the roster is not
    overridden. When it is the ballot's first entry and numeric, it is the
    value `nextStory` records, and unless it equals the forced card there is
    no consensus.
   */
  lemma DepartedVoteDecides(b: Ballot, roster: Roster, value: string, a: int)
    requires JsMap.UniqueKeys(b) && RosterOk(roster)
    requires |b| > 0 && !JsMap.Has(roster, b[0].0) && JsNumbers.ParseInt(b[0].1.value) == Some(a)
    ensures FinalValue(VoteValues(ForceVotes(b, roster, value))) == Some(a)
    ensures JsNumbers.ParseInt(value) != Some(a) ==> !HasConsensus(VoteValues(ForceVotes(b, roster, value)))
  {
    var r := ForceVotes(b, roster, value);
    ForceVotesShape(b, roster, value);
    ForcedAt(b, r, roster, value, 0);
    var values := VoteValues(r);
    FinalValueIsFirst(values, a);
    assert JsMap.Has(r, roster[0].0);
    var i := JsMap.Find(r, roster[0].0).value;
    assert JsMap.Has(roster, r[i].0);
    ForcedAt(b, r, roster, value, i);
    if JsNumbers.ParseInt(value) != Some(a) {
      assert !StrictEquals(Parsed(values)[i], Parsed(values)[0]);
    }
  }

  /**
    The "all voted" guard compares sizes only: a member who joined after a
    voter left passes it without having voted.
   */
  lemma CountGuardMissesVoter(p: Participant, q: Participant, n: Participant, v: string, w: string)
    requires p.id != q.id && p.id != n.id && q.id != n.id
    ensures var roster: Roster := [(p.id, p), (n.id, n)];
            var ballot: Ballot := [(p.id, Vote(v, p)), (q.id, Vote(w, q))];
            RosterOk(roster) && BallotOk(ballot) && |ballot| >= |roster| && !JsMap.Has(ballot, n.id)
  {
  }

  /** `(i + 1) % n` on a cursor: the next story, wrapping to the first after the last. */
  lemma NextCursor(i: int, n: int)
    requires 0 <= i < n
    ensures (i + 1) % n == if i == n - 1 then 0 else i + 1
    ensures 0 <= (i + 1) % n < n
  {
    if i == n - 1 {
      assert (i + 1) % n == n % n == 0;
    }
  }

  /** `roomState.currentStoryIndex = (currentStoryIndex + 1) % stories.length`. */
  function Advanced(st: RoomState): (r: RoomState)
    requires 0 <= st.currentStoryIndex < |st.stories|
    ensures r.stories == st.stories
    ensures r.currentStoryIndex == if st.currentStoryIndex == |st.stories| - 1 then 0 else st.currentStoryIndex + 1
  {
    NextCursor(st.currentStoryIndex, |st.stories|);
    st.(currentStoryIndex := (st.currentStoryIndex + 1) % |st.stories|)
  }

  // ----- timer -----

  /** What one tick of an interval whose `timeLeft` is `t` emits. */
  function TickEvent(t: int): TimerEvent {
    if t <= 0 then TimerFinished else TimerUpdate(t - 1)
  }

  /** The events of `k` ticks of an interval starting from `t`; it is cleared once it has finished. */
  function Countdown(t: int, k: nat): seq<TimerEvent> {
    if k == 0 then [] else [TickEvent(t)] + (if t <= 0 then [] else Countdown(t - 1, k - 1))
  }

  /** A timer of `d` seconds emits the updates d-1 down to 0, then `timer-finished`, then nothing. */
  lemma {:induction false} CountdownFrom(d: nat, extra: nat)
    ensures Countdown(d, d + 1 + extra) == seq(d, i requires 0 <= i < d => TimerUpdate(d - 1 - i)) + [TimerFinished]
  {
    if d > 0 {
      CountdownFrom(d - 1, extra);
      assert Countdown(d, d + 1 + extra) == [TimerUpdate(d - 1)] + Countdown(d - 1, d + extra);
    }
  }

  /** From a non-negative start no update reports a negative time. */
  lemma {:induction false} CountdownNeverNegative(t: int, k: nat)
    requires t >= 0
    ensures forall i :: 0 <= i < |Countdown(t, k)| ==> Countdown(t, k)[i] == TimerFinished || Countdown(t, k)[i].timeLeft >= 0
  {
    if k > 0 && t > 0 {
      CountdownNeverNegative(t - 1, k - 1);
      var c := Countdown(t, k);
      assert c == [TimerUpdate(t - 1)] + Countdown(t - 1, k - 1);
      forall i | 0 <= i < |c| ensures c[i] == TimerFinished || c[i].timeLeft >= 0 {
        if i > 0 { assert c[i] == Countdown(t - 1, k - 1)[i - 1]; }
      }
    }
  }
}
