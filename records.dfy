/**
  The rows the two services read and write, and the in-memory database that
  holds them. Each table is a sequence in insertion order; a repository
  `findOne` with several matches is read as the first match in that order.
 */
module Records {
  import opened Wrappers
  import opened Scoring

  /** A `Session` row; `voting_scale`, `status`, `capacity` and the deck relation are not kept. */
  datatype SessionRow = SessionRow(
    id: string,
    name: string,
    createdBy: string,
    description: Option<string>,
    code: Option<string>,
    projectId: string,
    projectName: string,
    isActive: bool,
    isStarted: bool,
    currentStoryIndex: int)

  /** A `Join_Session` row: one user's stay in one session. */
  datatype JoinRow = JoinRow(userId: string, sessionId: string, joinedAt: int, leftAt: Option<int>, isLeft: bool)

  /** One element of the array the gateway passes to `saveVote`. */
  datatype VoteInput = VoteInput(storyId: string, userId: string, cardValue: string, finalValue: Fraction)

  /** A saved `Vote` row. */
  datatype VoteRow = VoteRow(sessionId: string, storyId: string, userId: string, cardValue: string, finalValue: Fraction, votedAt: int)

  /** A history entry as the gateway keeps it in memory; a missing `card_value` is None. */
  datatype HistoryRecord = HistoryRecord(storyTitle: string, storyId: string, cardValue: Option<Fraction>, date: int)

  /** A saved `History` row. */
  datatype HistoryRow = HistoryRow(sessionId: string, storyId: string, cardValue: Option<Fraction>, date: int)

  /** The position of the first session with id `id`. */
  function FindSession(ss: seq<SessionRow>, id: string): (r: Option<nat>)
    ensures r.Some? ==> r.value < |ss| && ss[r.value].id == id
    ensures r.Some? ==> forall j :: 0 <= j < r.value ==> ss[j].id != id
    ensures r.None? <==> forall j :: 0 <= j < |ss| ==> ss[j].id != id
  {
    if |ss| == 0 then None
    else if ss[0].id == id then Some(0)
    else match FindSession(ss[1..], id)
      case Some(i) => Some(i + 1)
      case None => None
  }

  predicate HasSession(ss: seq<SessionRow>, id: string) {
    FindSession(ss, id).Some?
  }

  /** The position of the first session whose stored code is `code`. */
  function FindSessionByCode(ss: seq<SessionRow>, code: string): (r: Option<nat>)
    ensures r.Some? ==> r.value < |ss| && ss[r.value].code == Some(code)
    ensures r.Some? ==> forall j :: 0 <= j < r.value ==> ss[j].code != Some(code)
    ensures r.None? <==> forall j :: 0 <= j < |ss| ==> ss[j].code != Some(code)
  {
    if |ss| == 0 then None
    else if ss[0].code == Some(code) then Some(0)
    else match FindSessionByCode(ss[1..], code)
      case Some(i) => Some(i + 1)
      case None => None
  }

  /** The position of the first active session named `name`. */
  function FindActiveByName(ss: seq<SessionRow>, name: string): (r: Option<nat>)
    ensures r.Some? ==> r.value < |ss| && ss[r.value].isActive && ss[r.value].name == name
    ensures r.None? <==> forall j :: 0 <= j < |ss| ==> !(ss[j].isActive && ss[j].name == name)
  {
    if |ss| == 0 then None
    else if ss[0].isActive && ss[0].name == name then Some(0)
    else match FindActiveByName(ss[1..], name)
      case Some(i) => Some(i + 1)
      case None => None
  }

  /** A join row is open while its `left_at` is null. */
  predicate IsOpen(row: JoinRow) {
    row.leftAt.None?
  }

  /**
    The first join row of `user` that satisfies a filter: in session `session`
    when `session` is Some, open when `open` holds, not left when `notLeft` holds.
   */
  predicate Matches(row: JoinRow, user: string, session: Option<string>, open: bool, notLeft: bool) {
    && row.userId == user
    && (session.Some? ==> row.sessionId == session.value)
    && (open ==> IsOpen(row))
    && (notLeft ==> !row.isLeft)
  }

  function FindJoin(js: seq<JoinRow>, user: string, session: Option<string>, open: bool, notLeft: bool): (r: Option<nat>)
    ensures r.Some? ==> r.value < |js| && Matches(js[r.value], user, session, open, notLeft)
    ensures r.Some? ==> forall j :: 0 <= j < r.value ==> !Matches(js[j], user, session, open, notLeft)
    ensures r.None? <==> forall j :: 0 <= j < |js| ==> !Matches(js[j], user, session, open, notLeft)
  {
    if |js| == 0 then None
    else if Matches(js[0], user, session, open, notLeft) then Some(0)
    else match FindJoin(js[1..], user, session, open, notLeft)
      case Some(i) => Some(i + 1)
      case None => None
  }

  /** No two sessions share an id (`session_id` is the primary key). */
  ghost predicate UniqueSessionIds(ss: seq<SessionRow>) {
    forall i, j :: 0 <= i < j < |ss| ==> ss[i].id != ss[j].id
  }

  /** The tables both services read and write. */
  class Db {
    var sessions: seq<SessionRow>
    var joins: seq<JoinRow>
    var votes: seq<VoteRow>
    var histories: seq<HistoryRow>

    constructor()
      ensures sessions == [] && joins == [] && votes == [] && histories == []
    {
      sessions := [];
      joins := [];
      votes := [];
      histories := [];
    }

    ghost predicate Valid()
      reads this
    {
      UniqueSessionIds(sessions)
    }
  }
}
