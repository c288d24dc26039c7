/**
  `PokerService`: creating a session and joining one, checked against the
  session and join tables. Every failure is an `RpcException` carrying a
  message and an HTTP status code; some operations rewrap the inner failure
  under one fixed message and keep the inner message as `error`.
 */
module Poker {
  import opened Wrappers
  import JsNumbers
  import opened Records

  /** An `RpcException` payload: `message`, `code`, and the wrapped `error` text if any. */
  datatype RpcError = RpcError(message: string, code: nat, cause: Option<string>)

  const NotFound: nat := 404
  const Conflict: nat := 409
  const BadRequest: nat := 400
  const InternalServerError: nat := 500

  const ProjectNotFound := "Project not found"
  const RoomAlreadyExists := "Room already exists"
  const UserNotFound := "User not found"
  const CreateError := "Error creating room"
  const RoomNotFound := "Room not found"
  const RoomNotActive := "Room is not active"
  const AlreadyInSession := "User already in session"
  const AlreadyInActiveSession := "User already in an active session"
  const IncorrectCode := "Incorrect session code"
  const AlreadyInRoom := "User already in room"
  const JoinError := "Error joining room"
  const NotInSession := "User not found in the session"
  /** What `user[0].name` throws when the user lookup returns an empty array. */
  const NoFirstUser := "Cannot read properties of undefined (reading 'name')"
  /** What saving a session whose generated id is taken fails with. */
  const DuplicateKey := "duplicate key value violates unique constraint"
  const CodePrefix := "POKER-"

  datatype Project = Project(id: int, name: string)

  /** The fixed project table `findProjectSessions` searches. */
  const Projects: seq<Project> := [
    Project(1, "Proyecto Alfa"), Project(2, "Proyecto Beta"), Project(3, "Proyecto Gamma"),
    Project(4, "Proyecto Delta"), Project(5, "Proyecto Epsilon"), Project(6, "Proyecto Zeta"),
    Project(7, "Proyecto Eta"), Project(8, "Proyecto Theta"), Project(9, "Proyecto Iota"),
    Project(10, "Proyecto Kappa")]

  /** The table's ids are 1 to 10, in order. */
  lemma ProjectIds()
    ensures |Projects| == 10 && forall j :: 0 <= j < |Projects| ==> Projects[j].id == j + 1
  {
  }

  /** The first project whose id is `id`. */
  function FindProject(ps: seq<Project>, id: int): (r: Option<Project>)
    ensures r.Some? ==> r.value in ps && r.value.id == id
    ensures r.None? <==> forall j :: 0 <= j < |ps| ==> ps[j].id != id
  {
    if |ps| == 0 then None
    else if ps[0].id == id then Some(ps[0])
    else FindProject(ps[1..], id)
  }

  /** In a table whose ids count up from `base`, the lookup goes straight to position `id - base`. */
  lemma {:induction false} FindProjectCounting(ps: seq<Project>, id: int, base: int)
    requires forall j :: 0 <= j < |ps| ==> ps[j].id == j + base
    ensures FindProject(ps, id) == if base <= id < base + |ps| then Some(ps[id - base]) else None
    decreases |ps|
  {
    if |ps| > 0 && ps[0].id != id {
      FindProjectCounting(ps[1..], id, base + 1);
    }
  }

  /** The project with id `id`, where None is NaN, which equals no id. */
  function ProjectById(id: Option<int>): (r: Result<Project, RpcError>)
    ensures r.Ok? <==> id.Some? && 1 <= id.value <= 10
    ensures r.Ok? ==> r.value == Projects[id.value - 1] && r.value.id == id.value
    ensures r.Err? ==> r.error == RpcError(ProjectNotFound, NotFound, None)
  {
    match id
    case None => Err(RpcError(ProjectNotFound, NotFound, None))
    case Some(n) =>
      ProjectIds();
      FindProjectCounting(Projects, n, 1);
      match FindProject(Projects, n)
      case Some(p) => Ok(p)
      case None => Err(RpcError(ProjectNotFound, NotFound, None))
  }

  /**
    `findProjectSessions`: the project whose id equals `+project_id`; a string
    that is NaN under unary plus matches no project.
   */
  function FindProjectSessions(projectId: string): Result<Project, RpcError> {
    ProjectById(JsNumbers.ToNumber(projectId))
  }

  /** The lookup finds the table entry whose id is `+project_id`, and fails with 'Project not found' (404) otherwise. */
  lemma ProjectLookup(projectId: string)
    ensures var r := FindProjectSessions(projectId);
      && (r.Ok? <==> JsNumbers.ToNumber(projectId).Some? && 1 <= JsNumbers.ToNumber(projectId).value <= 10)
      && (r.Ok? ==> r.value == Projects[JsNumbers.ToNumber(projectId).value - 1])
      && (r.Err? ==> r.error == RpcError(ProjectNotFound, NotFound, None))
  {
  }

  /** Project `n` is found from its decimal id and names the n-th table entry. */
  lemma ProjectByDecimalId(n: int)
    requires 1 <= n <= 10
    ensures FindProjectSessions(JsNumbers.DecimalText(n)) == Ok(Projects[n - 1])
  {
    JsNumbers.ToNumberDecimalText(n);
    ProjectLookup(JsNumbers.DecimalText(n));
  }

  /** The stored `session_code`: the prefixed code when one is given and non-empty, none otherwise. */
  function SessionCode(code: Option<string>): (r: Option<string>)
    ensures r.Some? <==> code.Some? && code.value != ""
  {
    if code.None? || code.value == "" then None else Some(CodePrefix + code.value)
  }

  /** The stored code starts with the prefix and the rest is the given code. */
  lemma SessionCodeRoundTrip(code: string)
    requires code != ""
    ensures SessionCode(Some(code)).value[..|CodePrefix|] == CodePrefix
    ensures SessionCode(Some(code)).value[|CodePrefix|..] == code
  {
  }

  /** The user lookup's outcome: a failed request, a falsy body, or the array it returned (the users' names). */
  datatype UserLookup = LookupFailed(reason: string) | NoUser | Users(names: seq<string>)

  /** The fields of a create request the model keeps; the deck and the voting scale are not kept. */
  datatype CreateRequest = CreateRequest(name: string, code: Option<string>, description: Option<string>, projectId: string)

  function CreateFailure(cause: string): RpcError {
    RpcError(CreateError, InternalServerError, Some(cause))
  }

  function JoinFailure(cause: string): RpcError {
    RpcError(JoinError, InternalServerError, Some(cause))
  }

  /**
    The outcome of `createSession` on session table `ss`, with the checks in
    the order the code makes them: the project, an active session of the same
    name, the user lookup, then the save. Every failure is rewrapped as 'Error
    creating room'.
   */
  function CreateOutcome(ss: seq<SessionRow>, req: CreateRequest, user: UserLookup, newId: string): (r: Result<SessionRow, RpcError>)
    ensures r.Err? ==> r.error.message == CreateError && r.error.code == InternalServerError
    ensures FindProjectSessions(req.projectId).Err? ==> r == Err(CreateFailure(ProjectNotFound))
    ensures FindProjectSessions(req.projectId).Ok? && FindActiveByName(ss, req.name).Some? ==>
              r == Err(CreateFailure(RoomAlreadyExists))
    ensures FindProjectSessions(req.projectId).Ok? && FindActiveByName(ss, req.name).None? ==>
              && (user.LookupFailed? ==> r == Err(CreateFailure(user.reason)))
              && (user.NoUser? ==> r == Err(CreateFailure(UserNotFound)))
              && (user.Users? && |user.names| == 0 ==> r == Err(CreateFailure(NoFirstUser)))
              && (user.Users? && |user.names| > 0 && HasSession(ss, newId) ==> r == Err(CreateFailure(DuplicateKey)))
    ensures r.Ok? <==> && FindProjectSessions(req.projectId).Ok? && FindActiveByName(ss, req.name).None?
                       && user.Users? && |user.names| > 0 && !HasSession(ss, newId)
    ensures r.Ok? ==> && r.value.id == newId && r.value.name == req.name && r.value.description == req.description
    ensures r.Ok? ==> && r.value.createdBy == user.names[0]
                      && r.value.code == SessionCode(req.code) && r.value.projectId == req.projectId
                      && r.value.projectName == FindProjectSessions(req.projectId).value.name
                      && r.value.isActive && !r.value.isStarted && r.value.currentStoryIndex == 0
  {
    var project := FindProjectSessions(req.projectId);
    if project.Err? then Err(CreateFailure(project.error.message))
    else if FindActiveByName(ss, req.name).Some? then Err(CreateFailure(RoomAlreadyExists))
    else match user
      case LookupFailed(reason) => Err(CreateFailure(reason))
      case NoUser => Err(CreateFailure(UserNotFound))
      case Users(names) =>
        if |names| == 0 then Err(CreateFailure(NoFirstUser))
        else if FindSession(ss, newId).Some? then Err(CreateFailure(DuplicateKey))
        else Ok(SessionRow(newId, req.name, names[0], req.description, SessionCode(req.code),
                           req.projectId, project.value.name, true, false, 0))
  }

  /** Whether `user` has an open join row in a session that is active (the relation loaded with it). */
  predicate InActiveSession(ss: seq<SessionRow>, js: seq<JoinRow>, user: string) {
    match FindJoin(js, user, None, true, false)
    case None => false
    case Some(j) =>
      match FindSession(ss, js[j].sessionId)
      case None => false
      case Some(i) => ss[i].isActive
  }

  class PokerService {
    const db: Db

    constructor(db: Db)
      ensures this.db == db
    {
      this.db := db;
    }

    /**
      `createSession`: the outcome `CreateOutcome` describes, and on success
      the one new row appended to the session table.
     */
    method CreateSession(req: CreateRequest, user: UserLookup, newId: string, now: int) returns (r: Result<SessionRow, RpcError>)
      modifies db
      ensures r == CreateOutcome(old(db.sessions), req, user, newId)
      ensures db.joins == old(db.joins) && db.votes == old(db.votes) && db.histories == old(db.histories)
      ensures r.Err? ==> db.sessions == old(db.sessions)
      ensures r.Ok? ==> db.sessions == old(db.sessions) + [r.value]
      ensures old(db.Valid()) ==> db.Valid()
    {
      var isSession := FindActiveByName(db.sessions, req.name);
      var isProject := FindProjectSessions(req.projectId);
      if isProject.Err? {
        return Err(CreateFailure(isProject.error.message));
      }
      if isSession.Some? {
        return Err(CreateFailure(RoomAlreadyExists));
      }
      match user {
        case LookupFailed(reason) =>
          return Err(CreateFailure(reason));
        case NoUser =>
          return Err(CreateFailure(UserNotFound));
        case Users(names) =>
          if |names| == 0 {
            return Err(CreateFailure(NoFirstUser));
          }
          if FindSession(db.sessions, newId).Some? {
            return Err(CreateFailure(DuplicateKey));
          }
          var row := SessionRow(newId, req.name, names[0], req.description, SessionCode(req.code),
                                req.projectId, isProject.value.name, true, false, 0);
          db.sessions := db.sessions + [row];
          r := Ok(row);
      }
    }

    /**
      `joinSession`: 'Room not found', 'Room is not active', 'User already in
      session' (an open row in this session), 'User already in an active
      session' (the user's open row belongs to an active session), in that
      order; only when none applies is one open join row appended.
     */
    method JoinSession(sessionId: string, userId: string, now: int) returns (r: Result<(), RpcError>)
      modifies db
      ensures db.sessions == old(db.sessions) && db.votes == old(db.votes) && db.histories == old(db.histories)
      ensures !HasSession(old(db.sessions), sessionId) ==> r == Err(RpcError(RoomNotFound, NotFound, None))
      ensures HasSession(old(db.sessions), sessionId) && !old(db.sessions)[FindSession(old(db.sessions), sessionId).value].isActive ==>
                r == Err(RpcError(RoomNotActive, Conflict, None))
      ensures HasSession(old(db.sessions), sessionId) && old(db.sessions)[FindSession(old(db.sessions), sessionId).value].isActive ==>
                if FindJoin(old(db.joins), userId, Some(sessionId), true, false).Some? then
                  r == Err(RpcError(AlreadyInSession, BadRequest, None))
                else if InActiveSession(old(db.sessions), old(db.joins), userId) then
                  r == Err(RpcError(AlreadyInActiveSession, Conflict, None))
                else
                  r.Ok? && db.joins == old(db.joins) + [JoinRow(userId, sessionId, now, None, false)]
      ensures r.Err? ==> db.joins == old(db.joins)
      ensures r.Ok? ==> ValidateSession(sessionId, userId) == Ok(true)
    {
      var s := FindSession(db.sessions, sessionId);
      if s.None? {
        return Err(RpcError(RoomNotFound, NotFound, None));
      }
      if !db.sessions[s.value].isActive {
        return Err(RpcError(RoomNotActive, Conflict, None));
      }
      if FindJoin(db.joins, userId, Some(sessionId), true, false).Some? {
        return Err(RpcError(AlreadyInSession, BadRequest, None));
      }
      if InActiveSession(db.sessions, db.joins, userId) {
        return Err(RpcError(AlreadyInActiveSession, Conflict, None));
      }
      db.joins := db.joins + [JoinRow(userId, sessionId, now, None, false)];
      assert Matches(db.joins[|db.joins| - 1], userId, Some(sessionId), true, false);
      r := Ok(());
    }

    /**
      `joinSessionByCode`: the first session with that stored code; a user with
      any join row at all is refused; every failure surfaces as 'Error joining
      room'. Whether the session is active is not checked.
     */
    method JoinSessionByCode(code: string, userId: string, now: int) returns (r: Result<(), RpcError>)
      modifies db
      ensures db.sessions == old(db.sessions) && db.votes == old(db.votes) && db.histories == old(db.histories)
      ensures FindSessionByCode(old(db.sessions), code).None? ==> r == Err(JoinFailure(IncorrectCode))
      ensures FindSessionByCode(old(db.sessions), code).Some? ==>
                if exists j :: 0 <= j < |old(db.joins)| && old(db.joins)[j].userId == userId then
                  r == Err(JoinFailure(AlreadyInRoom))
                else
                  var s := old(db.sessions)[FindSessionByCode(old(db.sessions), code).value];
                  r.Ok? && db.joins == old(db.joins) + [JoinRow(userId, s.id, now, None, false)]
      ensures r.Err? ==> db.joins == old(db.joins) && r.error.message == JoinError
    {
      var s := FindSessionByCode(db.sessions, code);
      if s.None? {
        return Err(JoinFailure(IncorrectCode));
      }
      if FindJoin(db.joins, userId, None, false, false).Some? {
        return Err(JoinFailure(AlreadyInRoom));
      }
      db.joins := db.joins + [JoinRow(userId, db.sessions[s.value].id, now, None, false)];
      r := Ok(());
    }

    /**
      `validateSession`: `isInSession` true when an open join row joins this
      user to this session, 'User not found in the session' otherwise.
     */
    function ValidateSession(sessionId: string, userId: string): (r: Result<bool, RpcError>)
      reads db
      ensures r.Ok? <==> (HasSession(db.sessions, sessionId) &&
                exists j :: 0 <= j < |db.joins| && db.joins[j].sessionId == sessionId && db.joins[j].userId == userId && IsOpen(db.joins[j]))
      ensures r.Ok? ==> r.value
      ensures r.Err? ==> r.error == RpcError(NotInSession, InternalServerError, None)
    {
      if HasSession(db.sessions, sessionId) && FindJoin(db.joins, userId, Some(sessionId), true, false).Some? then Ok(true)
      else Err(RpcError(NotInSession, InternalServerError, None))
    }
  }
}
