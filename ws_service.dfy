/**
  `PokerWsService`: the persistence calls behind the live room. Vote and
  history batches run in one transaction each: any failure rolls the batch
  back and the caller sees one fixed message.
 */
module PokerWs {
  import opened Wrappers
  import opened Scoring
  import opened Records

  const SaveVoteError := "Error while saving vote"
  const SaveHistoryError := "Error while saving history"
  const SessionNotFound := "Session not found"
  const UserNotInActiveSession := "User not found in the active session"

  /** The row `saveVote` creates for one input element at time `now`. */
  function VoteRowOf(v: VoteInput, sessionId: string, now: int): VoteRow {
    VoteRow(sessionId, v.storyId, v.userId, v.cardValue, v.finalValue, now)
  }

  function VoteRows(vs: seq<VoteInput>, sessionId: string, now: int): (r: seq<VoteRow>)
    ensures |r| == |vs|
    ensures forall i :: 0 <= i < |vs| ==> r[i] == VoteRowOf(vs[i], sessionId, now)
  {
    if |vs| == 0 then [] else VoteRows(vs[..|vs| - 1], sessionId, now) + [VoteRowOf(vs[|vs| - 1], sessionId, now)]
  }

  function HistoryRowOf(h: HistoryRecord, sessionId: string, now: int): HistoryRow {
    HistoryRow(sessionId, h.storyId, h.cardValue, now)
  }

  function HistoryRows(hs: seq<HistoryRecord>, sessionId: string, now: int): (r: seq<HistoryRow>)
    ensures |r| == |hs|
    ensures forall i :: 0 <= i < |hs| ==> r[i] == HistoryRowOf(hs[i], sessionId, now)
  {
    if |hs| == 0 then [] else HistoryRows(hs[..|hs| - 1], sessionId, now) + [HistoryRowOf(hs[|hs| - 1], sessionId, now)]
  }

  /** The database refuses the row at position `failAt`, if there is such a row among `n`. */
  predicate FailsWithin(failAt: Option<nat>, n: nat) {
    failAt.Some? && failAt.value < n
  }

  /** `repository.update` on the session id: every row with that id is marked started, other rows stay. */
  function MarkStarted(ss: seq<SessionRow>, id: string): (r: seq<SessionRow>)
    ensures |r| == |ss|
  {
    seq(|ss|, i requires 0 <= i < |ss| => if ss[i].id == id then ss[i].(isStarted := true) else ss[i])
  }

  /** `repository.update` of `current_story_index` on every row with that id. */
  function SetStoryIndex(ss: seq<SessionRow>, id: string, index: int): (r: seq<SessionRow>)
    ensures |r| == |ss|
  {
    seq(|ss|, i requires 0 <= i < |ss| => if ss[i].id == id then ss[i].(currentStoryIndex := index) else ss[i])
  }

  class PokerWsService {
    const db: Db

    constructor(db: Db)
      ensures this.db == db
    {
      this.db := db;
    }

    /**
      `saveVote`: fails as a whole, storing nothing, when the session is missing
      or the database refuses a row; otherwise stores one row per input element,
      in input order, all stamped with `now`.
     */
    method SaveVote(votes: seq<VoteInput>, sessionId: string, now: int, failAt: Option<nat>) returns (r: Result<(), string>)
      modifies db
      ensures r.Ok? <==> HasSession(old(db.sessions), sessionId) && !FailsWithin(failAt, |votes|)
      ensures r.Ok? ==> db.votes == old(db.votes) + VoteRows(votes, sessionId, now)
      ensures r.Err? ==> r.error == SaveVoteError && db.votes == old(db.votes)
      ensures db.sessions == old(db.sessions) && db.joins == old(db.joins) && db.histories == old(db.histories)
    {
      if FindSession(db.sessions, sessionId).None? {
        return Err(SaveVoteError);
      }
      var staged: seq<VoteRow> := [];
      var i := 0;
      while i < |votes|
        invariant 0 <= i <= |votes|
        invariant staged == VoteRows(votes[..i], sessionId, now)
        invariant !FailsWithin(failAt, i)
      {
        if failAt == Some(i) {
          return Err(SaveVoteError);
        }
        assert votes[..i + 1][..i] == votes[..i];
        staged := staged + [VoteRowOf(votes[i], sessionId, now)];
        i := i + 1;
      }
      assert votes[..i] == votes;
      db.votes := db.votes + staged;
      r := Ok(());
    }

    /**
      `saveHistory`: fails as a whole, storing nothing, when the session is
      missing, a record has an empty `story_id`, or the database refuses a row.
     */
    method SaveHistory(records: seq<HistoryRecord>, sessionId: string, now: int, failAt: Option<nat>) returns (r: Result<(), string>)
      modifies db
      ensures r.Ok? <==> && HasSession(old(db.sessions), sessionId)
                         && (forall i :: 0 <= i < |records| ==> records[i].storyId != "")
                         && !FailsWithin(failAt, |records|)
      ensures r.Ok? ==> db.histories == old(db.histories) + HistoryRows(records, sessionId, now)
      ensures r.Err? ==> r.error == SaveHistoryError && db.histories == old(db.histories)
      ensures db.sessions == old(db.sessions) && db.joins == old(db.joins) && db.votes == old(db.votes)
    {
      if FindSession(db.sessions, sessionId).None? {
        return Err(SaveHistoryError);
      }
      var staged: seq<HistoryRow> := [];
      var i := 0;
      while i < |records|
        invariant 0 <= i <= |records|
        invariant staged == HistoryRows(records[..i], sessionId, now)
        invariant !FailsWithin(failAt, i)
        invariant forall j :: 0 <= j < i ==> records[j].storyId != ""
      {
        if records[i].storyId == "" || failAt == Some(i) {
          return Err(SaveHistoryError);
        }
        assert records[..i + 1][..i] == records[..i];
        staged := staged + [HistoryRowOf(records[i], sessionId, now)];
        i := i + 1;
      }
      assert records[..i] == records;
      db.histories := db.histories + staged;
      r := Ok(());
    }

    /**
      `leaveSession`: closes the user's open, not-left join row in the session,
      stamping `left_at` with `now`; no other row or field changes.
     */
    method LeaveSession(sessionId: string, userId: string, now: int) returns (r: Result<(), string>)
      modifies db
      ensures !HasSession(old(db.sessions), sessionId) ==> r == Err(SessionNotFound) && db.joins == old(db.joins)
      ensures HasSession(old(db.sessions), sessionId) ==>
                match FindJoin(old(db.joins), userId, Some(sessionId), true, true)
                case None => r == Err(UserNotInActiveSession) && db.joins == old(db.joins)
                case Some(i) => r.Ok? && db.joins == old(db.joins)[i := old(db.joins)[i].(leftAt := Some(now), isLeft := true)]
      ensures db.sessions == old(db.sessions) && db.votes == old(db.votes) && db.histories == old(db.histories)
    {
      if FindSession(db.sessions, sessionId).None? {
        return Err(SessionNotFound);
      }
      match FindJoin(db.joins, userId, Some(sessionId), true, true)
      case None =>
        r := Err(UserNotInActiveSession);
      case Some(i) =>
        db.joins := db.joins[i := db.joins[i].(leftAt := Some(now), isLeft := true)];
        r := Ok(());
    }

    /** `checkSessionStatus`: the session row, or 'Session not found'. */
    function CheckSessionStatus(sessionId: string): (r: Result<SessionRow, string>)
      reads db
      ensures r.Ok? ==> r.value in db.sessions && r.value.id == sessionId
      ensures r.Err? <==> !HasSession(db.sessions, sessionId)
      ensures r.Err? ==> r.error == SessionNotFound
    {
      match FindSession(db.sessions, sessionId)
      case Some(i) => Ok(db.sessions[i])
      case None => Err(SessionNotFound)
    }

    /** `deactivateSession`: clears `is_active` on the session row and nothing else. */
    method DeactivateSession(sessionId: string) returns (r: Result<(), string>)
      modifies db
      ensures !HasSession(old(db.sessions), sessionId) ==> r == Err(SessionNotFound) && db.sessions == old(db.sessions)
      ensures HasSession(old(db.sessions), sessionId) ==>
                var i := FindSession(old(db.sessions), sessionId).value;
                r.Ok? && db.sessions == old(db.sessions)[i := old(db.sessions)[i].(isActive := false)]
      ensures db.joins == old(db.joins) && db.votes == old(db.votes) && db.histories == old(db.histories)
    {
      match FindSession(db.sessions, sessionId)
      case None =>
        r := Err(SessionNotFound);
      case Some(i) =>
        db.sessions := db.sessions[i := db.sessions[i].(isActive := false)];
        r := Ok(());
    }

    /** `wasUserInSession`: the session exists and one of its join rows is the user's and not left. */
    predicate WasUserInSession(room: string, userId: string)
      reads db
      ensures WasUserInSession(room, userId) <==>
                HasSession(db.sessions, room)
                && exists j :: 0 <= j < |db.joins| && db.joins[j].sessionId == room && db.joins[j].userId == userId && !db.joins[j].isLeft
    {
      HasSession(db.sessions, room) && FindJoin(db.joins, userId, Some(room), false, true).Some?
    }

    /** `startSession`: marks every session row with that id as started; a missing id changes nothing. */
    method StartSession(room: string)
      modifies db
      ensures db.sessions == MarkStarted(old(db.sessions), room)
      ensures db.joins == old(db.joins) && db.votes == old(db.votes) && db.histories == old(db.histories)
    {
      db.sessions := MarkStarted(db.sessions, room);
    }

    /** `getCurrentStoryIndex`: the stored index, or 0 when the session is missing. */
    function GetCurrentStoryIndex(sessionId: string): (r: int)
      reads db
      ensures !HasSession(db.sessions, sessionId) ==> r == 0
      ensures HasSession(db.sessions, sessionId) ==> r == db.sessions[FindSession(db.sessions, sessionId).value].currentStoryIndex
    {
      match FindSession(db.sessions, sessionId)
      case Some(i) => db.sessions[i].currentStoryIndex
      case None => 0
    }

    /** `updateCurrentStoryIndex`, read back by `getCurrentStoryIndex`. */
    method UpdateCurrentStoryIndex(sessionId: string, index: int)
      modifies db
      ensures db.sessions == SetStoryIndex(old(db.sessions), sessionId, index)
      ensures GetCurrentStoryIndex(sessionId) == if HasSession(old(db.sessions), sessionId) then index else 0
      ensures db.joins == old(db.joins) && db.votes == old(db.votes) && db.histories == old(db.histories)
    {
      db.sessions := SetStoryIndex(db.sessions, sessionId, index);
      StoryIndexRoundTrip(old(db.sessions), sessionId, index);
    }
  }

  /** After setting the index of `id`, the first row with `id` holds it; the ids are untouched. */
  lemma StoryIndexRoundTrip(ss: seq<SessionRow>, id: string, index: int)
    ensures FindSession(SetStoryIndex(ss, id, index), id) == FindSession(ss, id)
    ensures HasSession(ss, id) ==> SetStoryIndex(ss, id, index)[FindSession(ss, id).value].currentStoryIndex == index
  {
    var r := SetStoryIndex(ss, id, index);
    assert forall j :: 0 <= j < |ss| ==> r[j].id == ss[j].id;
    SameIdsSameFind(ss, r, id);
  }

  lemma {:induction false} SameIdsSameFind(a: seq<SessionRow>, b: seq<SessionRow>, id: string)
    requires |a| == |b| && forall j :: 0 <= j < |a| ==> a[j].id == b[j].id
    ensures FindSession(a, id) == FindSession(b, id)
  {
    if |a| > 0 {
      SameIdsSameFind(a[1..], b[1..], id);
    }
  }

  /** Marking a session started keeps the ids, so which row a lookup finds. */
  lemma StartedKeepsLookup(ss: seq<SessionRow>, room: string, id: string)
    ensures FindSession(MarkStarted(ss, room), id) == FindSession(ss, id)
    ensures HasSession(ss, room) ==> MarkStarted(ss, room)[FindSession(ss, room).value].isStarted
  {
    var r := MarkStarted(ss, room);
    assert forall j :: 0 <= j < |ss| ==> r[j].id == ss[j].id;
    SameIdsSameFind(ss, r, id);
  }
}
