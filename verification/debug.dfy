/** The seeding mutation of convex/debug.ts: inserts one finished session for
    the first user, so history screens have something to show. */
module Debug {
  import opened Common
  import opened Store
  import opened Schema

  /** The project name of the seeded session ("past test project"). */
  const FakeProjectName := "\U{904E}\U{53BB}\U{306E}\U{30C6}\U{30B9}\U{30C8}\U{30D7}\U{30ED}\U{30B8}\U{30A7}\U{30AF}\U{30C8}"

  const NoUsersMessage := "No users found"

  /** `createFakeSession`: with no users, reports so and writes nothing;
      otherwise inserts a completed session of the first user that started
      100 seconds and ended 50 seconds before `now`. Returns a message. */
  function CreateFakeSession(db: Db, now: int): (r: (string, Db))
    ensures |db.users| == 0 <==> r.0 == NoUsersMessage
    ensures |db.users| == 0 ==> r.1 == db
    ensures |db.users| > 0 ==>
              && r.1 == db.(sessions := r.1.sessions, nextId := db.nextId + 1)
              && |r.1.sessions| == |db.sessions| + 1
              && r.1.sessions[..|db.sessions|] == db.sessions
    ensures |db.users| > 0 ==>
              var s := r.1.sessions[|db.sessions|];
              && s.id == db.nextId
              && s.val.userId == db.users[0].val.clerkId
              && s.val.projectName == FakeProjectName
              && s.val.status == Completed && s.val.endTime.Some?
              && s.val.startTime < s.val.endTime.value
              && s.val.tokensInput.None? && s.val.tokensOutput.None?
    ensures Valid(db) ==> Valid(r.1)
  {
    if |db.users| == 0 then
      (NoUsersMessage, db)
    else
      var userId := db.users[0].val.clerkId;
      var s := Session(userId, now - 100000, Some(now - 50000), FakeProjectName, None, None, Completed);
      var sessions := db.sessions + [Doc(db.nextId, s)];
      assert sessions[..|db.sessions|] == db.sessions;
      ("Created past session for user " + userId + " with project name '" + FakeProjectName + "'",
       db.(sessions := sessions, nextId := db.nextId + 1))
  }
}
