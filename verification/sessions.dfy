/** The session ledger (convex/sessions.ts): starting and stopping tracked
    work, and the read-side queries over the `sessions` table. */
module Sessions {
  import opened Common
  import opened Store
  import opened Schema

  /** How many of a user's newest sessions `getRecentProjects` scans. */
  const RecentLimit: nat := 50

  /** The history length `list` returns when the caller gives no limit. */
  const DefaultListLimit: nat := 10

  /** Row selector of the `by_user` index range. */
  function OfUser(userId: string): Doc<Session> -> bool {
    (d: Doc<Session>) => d.val.userId == userId
  }

  /** Row selector of the `by_user_status` range (userId, 'active'). */
  function ActiveOfUser(userId: string): Doc<Session> -> bool {
    (d: Doc<Session>) => d.val.userId == userId && d.val.status == Active
  }

  /** Row selector of the in-memory status filter. */
  function IsActive(): Doc<Session> -> bool {
    (d: Doc<Session>) => d.val.status == Active
  }

  /** The `by_user` index range of one user, in creation order. */
  function ByUser(db: Db, userId: string): (r: Table<Session>)
    ensures forall d :: d in r <==> d in db.sessions && d.val.userId == userId
    ensures Ascending(db.sessions) ==> Ascending(r)
  {
    FilterAscending(db.sessions, OfUser(userId));
    Filter(db.sessions, OfUser(userId))
  }

  /** `getActive`: the active sessions of one user (several are allowed). */
  function GetActive(db: Db, userId: string): (r: Table<Session>)
    ensures forall d :: d in r <==> d in db.sessions && d.val.userId == userId && d.val.status == Active
    ensures Ascending(db.sessions) ==> Ascending(r)
  {
    FilterAscending(db.sessions, ActiveOfUser(userId));
    Filter(db.sessions, ActiveOfUser(userId))
  }

  /** `getAllActive`: every active session of every user, in table order. */
  function GetAllActive(db: Db): (r: Table<Session>)
    ensures forall d :: d in r <==> d in db.sessions && d.val.status == Active
    ensures Ascending(db.sessions) ==> Ascending(r)
  {
    FilterAscending(db.sessions, IsActive());
    Filter(db.sessions, IsActive())
  }

  /** `start`: inserts a new active session that began at `now` and returns
      the stored document. Nothing prevents a second active session of the
      same user on the same project. */
  function Start(db: Db, userId: string, projectName: string, now: int): (r: (Doc<Session>, Db))
    ensures r.1 == db.(sessions := db.sessions + [r.0], nextId := db.nextId + 1)
    ensures r.0.val.userId == userId && r.0.val.projectName == projectName
    ensures r.0.val.startTime == now && r.0.val.status == Active
    ensures r.0.val.endTime.None? && r.0.val.tokensInput.None? && r.0.val.tokensOutput.None?
    ensures Below(db.sessions, db.nextId) ==> forall i :: 0 <= i < |db.sessions| ==> db.sessions[i].id != r.0.id
    ensures Valid(db) ==> Valid(r.1)
  {
    var d := Doc(db.nextId, Session(userId, now, None, projectName, None, None, Active));
    (d, db.(sessions := db.sessions + [d], nextId := db.nextId + 1))
  }

  /** How `stop` relates the stored session before and after: end time and
      status are set, absent token counts become 0, and who/what/when-started
      are kept. */
  predicate Stopped(before: Doc<Session>, after: Doc<Session>,
                    tokensInput: Option<int>, tokensOutput: Option<int>, now: int)
  {
    && after.id == before.id
    && after.val.userId == before.val.userId
    && after.val.projectName == before.val.projectName
    && after.val.startTime == before.val.startTime
    && after.val.endTime == Some(now)
    && after.val.status == Completed
    && after.val.tokensInput == Some(tokensInput.GetOr(0))
    && after.val.tokensOutput == Some(tokensOutput.GetOr(0))
  }

  /** `stop`: completes the session with id `sessionId` and returns it. It
      does not look at the current status, so stopping a completed session
      overwrites its end time and token counts. A missing id makes the patch
      throw. */
  function Stop(db: Db, sessionId: Id, tokensInput: Option<int>, tokensOutput: Option<int>, now: int)
    : (r: Outcome<Doc<Session>>)
    ensures r.result.Failure? <==> Get(db.sessions, sessionId).None?
    ensures r.result.Failure? ==> r.result.error == DocumentNotFound && r.db == db
    ensures r.result.Success? ==>
              Stopped(Get(db.sessions, sessionId).value, r.result.value, tokensInput, tokensOutput, now)
    ensures r.result.Success? ==>
              && r.db == db.(sessions := r.db.sessions)
              && |r.db.sessions| == |db.sessions|
              && forall i :: 0 <= i < |db.sessions| ==>
                   r.db.sessions[i] == (if db.sessions[i].id == sessionId then r.result.value else db.sessions[i])
    ensures Valid(db) ==> Valid(r.db)
  {
    match Get(db.sessions, sessionId)
    case None => Fail(db, DocumentNotFound)
    case Some(d) =>
      var s := d.val.(endTime := Some(now), status := Completed,
                      tokensInput := Some(tokensInput.GetOr(0)),
                      tokensOutput := Some(tokensOutput.GetOr(0)));
      ReplaceKeyed(db.sessions, db.nextId, sessionId, s);
      Outcome(Success(Doc(sessionId, s)), db.(sessions := Replace(db.sessions, sessionId, s)))
  }

  /** Ids of an ascending table read backwards strictly decrease. */
  lemma ReverseDescending(t: Table<Session>)
    requires Ascending(t)
    ensures Descending(Reverse(t))
  {
  }

  /** `list`: the newest `limit` (default 10) sessions of one user, newest
      first. Every other session of that user is older than all of them. */
  function List(db: Db, userId: string, limit: Option<nat>): (r: Table<Session>)
    ensures |r| == Min(limit.GetOr(DefaultListLimit), |ByUser(db, userId)|)
    ensures forall d :: d in r ==> d in db.sessions && d.val.userId == userId
    ensures Ascending(db.sessions) ==> Descending(r)
    ensures Ascending(db.sessions) ==>
              forall d, i :: d in db.sessions && d.val.userId == userId && d !in r && 0 <= i < |r| ==>
                d.id < r[i].id
  {
    var mine := ByUser(db, userId);
    var r := Take(Reverse(mine), limit.GetOr(DefaultListLimit));
    if Ascending(db.sessions) then
      ListNewest(mine, r);
      r
    else
      r
  }

  /** A prefix of a reversed ascending table is descending and holds its
      newest rows. */
  lemma ListNewest(mine: Table<Session>, r: Table<Session>)
    requires Ascending(mine)
    requires |r| <= |mine| && forall i :: 0 <= i < |r| ==> r[i] == Reverse(mine)[i]
    ensures Descending(r)
    ensures forall d, i :: d in mine && d !in r && 0 <= i < |r| ==> d.id < r[i].id
  {
    var rev := Reverse(mine);
    ReverseDescending(mine);
    forall d, i | d in mine && d !in r && 0 <= i < |r|
      ensures d.id < r[i].id
    {
      var k :| 0 <= k < |mine| && mine[k] == d;
      var j := |mine| - 1 - k;
      assert rev[j] == d;
      if j < |r| {
        assert false;
      }
    }
  }

  /** The project names of a list of sessions, in list order. */
  function ProjectNames(t: Table<Session>): (r: seq<string>)
    ensures |r| == |t|
    ensures forall i :: 0 <= i < |t| ==> r[i] == t[i].val.projectName
  {
    Map(t, (d: Doc<Session>) => d.val.projectName)
  }

  /** `getRecentProjects`: the distinct project names among the user's 50
      newest sessions, in order of first occurrence in the newest-first scan. */
  function GetRecentProjects(db: Db, userId: string): (r: seq<string>)
    ensures NoDuplicates(r)
    ensures |r| <= RecentLimit
    ensures forall n :: n in r <==> n in ProjectNames(List(db, userId, Some(RecentLimit)))
    ensures forall i, j :: 0 <= i < j < |r| ==>
              IndexOf(ProjectNames(List(db, userId, Some(RecentLimit))), r[i])
                < IndexOf(ProjectNames(List(db, userId, Some(RecentLimit))), r[j])
  {
    var names := ProjectNames(List(db, userId, Some(RecentLimit)));
    DistinctKeepsFirstOccurrenceOrder(names);
    Distinct(names)
  }

  /** Row selector of `getToday` and `getWeek`. */
  function StartedSince(userId: string, cutoff: int): Doc<Session> -> bool {
    (d: Doc<Session>) => d.val.userId == userId && d.val.startTime >= cutoff
  }

  /** `getToday` and `getWeek`: one user's sessions that started at or after
      `cutoff` (local midnight today, or local midnight seven days ago). */
  function SessionsSince(db: Db, userId: string, cutoff: int): (r: Table<Session>)
    ensures forall d :: d in r <==> d in db.sessions && d.val.userId == userId && d.val.startTime >= cutoff
    ensures Ascending(db.sessions) ==> Ascending(r)
  {
    FilterAscending(db.sessions, StartedSince(userId, cutoff));
    Filter(db.sessions, StartedSince(userId, cutoff))
  }

  /** Row selector of `getCompanySessions`. */
  function CompletedOfMembers(memberIds: seq<string>, cutoff: int): Doc<Session> -> bool {
    (d: Doc<Session>) => d.val.userId in memberIds && d.val.status == Completed && d.val.startTime >= cutoff
  }

  /** `getCompanySessions`: completed sessions of the listed members that
      started at or after `cutoff` (local midnight `days` days ago), each
      stored row exactly once and in table order. */
  function GetCompanySessions(db: Db, memberIds: seq<string>, cutoff: int): (r: Table<Session>)
    ensures forall d :: d in r <==>
              d in db.sessions && d.val.userId in memberIds && d.val.status == Completed && d.val.startTime >= cutoff
    ensures forall d :: multiset(r)[d] ==
              (if d.val.userId in memberIds && d.val.status == Completed && d.val.startTime >= cutoff
               then multiset(db.sessions)[d] else 0)
    ensures Ascending(db.sessions) ==> Ascending(r)
    ensures SessionsConsistent(db.sessions) ==> forall i :: 0 <= i < |r| ==> r[i].val.endTime.Some?
  {
    FilterAscending(db.sessions, CompletedOfMembers(memberIds, cutoff));
    FilterCounts(db.sessions, CompletedOfMembers(memberIds, cutoff));
    Filter(db.sessions, CompletedOfMembers(memberIds, cutoff))
  }

  // ---------------------------------------------------------------------
  // Properties relating several calls
  // ---------------------------------------------------------------------

  /** Two starts in a row for the same user and project give two different
      active sessions. */
  lemma StartTwiceGivesTwoActive(db: Db, userId: string, projectName: string, t1: int, t2: int)
    requires Valid(db)
    ensures var (a, db1) := Start(db, userId, projectName, t1);
            var (b, db2) := Start(db1, userId, projectName, t2);
            && a.id != b.id
            && a in GetActive(db2, userId) && b in GetActive(db2, userId)
            && |GetActive(db2, userId)| == |GetActive(db, userId)| + 2
  {
    var (a, db1) := Start(db, userId, projectName, t1);
    var (b, db2) := Start(db1, userId, projectName, t2);
    var p := ActiveOfUser(userId);
    FilterSnoc(db.sessions, a, p);
    FilterSnoc(db1.sessions, b, p);
  }

  /** Stopping an already completed session succeeds, and the later call's
      end time and token counts win. */
  lemma StopTwiceLastWriteWins(db: Db, sessionId: Id, in1: Option<int>, out1: Option<int>, t1: int,
                               in2: Option<int>, out2: Option<int>, t2: int)
    requires Get(db.sessions, sessionId).Some?
    ensures var first := Stop(db, sessionId, in1, out1, t1);
            var second := Stop(first.db, sessionId, in2, out2, t2);
            && first.result.Success? && first.result.value.val.status == Completed
            && second.result.Success?
            && second.result.value.val.endTime == Some(t2)
            && second.result.value.val.tokensInput == Some(in2.GetOr(0))
            && second.result.value.val.tokensOutput == Some(out2.GetOr(0))
  {
    var first := Stop(db, sessionId, in1, out1, t1);
    var k :| 0 <= k < |db.sessions| && db.sessions[k].id == sessionId;
    assert first.db.sessions[k].id == sessionId;
  }

  /** Reading a stopped session back gives the stored token counts, and its
      end time is not before its start when the clock has not gone back. */
  lemma StopThenGet(db: Db, sessionId: Id, tokensInput: int, tokensOutput: int, now: int)
    requires Valid(db)
    requires Get(db.sessions, sessionId).Some?
    requires Get(db.sessions, sessionId).value.val.startTime <= now
    ensures var r := Stop(db, sessionId, Some(tokensInput), Some(tokensOutput), now);
            var back := Get(r.db.sessions, sessionId);
            && back.Some?
            && back.value.val.tokensInput == Some(tokensInput)
            && back.value.val.tokensOutput == Some(tokensOutput)
            && back.value.val.endTime.Some?
            && back.value.val.endTime.value >= back.value.val.startTime
  {
    var r := Stop(db, sessionId, Some(tokensInput), Some(tokensOutput), now);
    var k :| 0 <= k < |db.sessions| && db.sessions[k].id == sessionId;
    assert r.db.sessions[k] == r.result.value;
    GetUnique(r.db.sessions, sessionId, k);
  }
}
