/** How the in-memory mock (app/mocks/convex.tsx) relates to the backend
    (the handlers under convex/). A backend state is viewed as a mock state by renaming every
    document id through an injective `name` (the mock's ids are strings built
    from the clock) and forgetting `status`. Under that view each mock query
    returns the view of the backend's answer, and each mock mutation lands in
    the view of the backend's new state, under the conditions stated; the
    lemmas named `...Diverges` exhibit where the two do not agree. */
module Correspondence {
  import opened Common
  import opened Store
  import opened Schema
  import Sessions
  import Users
  import Companies
  import MockStore

  // ---------------------------------------------------------------------
  // The view of a backend state as a mock state
  // ---------------------------------------------------------------------

  ghost predicate Injective(name: Id -> string) {
    forall a: Id, b: Id :: name(a) == name(b) ==> a == b
  }

  /** One injective naming: `doc_` followed by the id in decimal. */
  function DocName(): Id -> string {
    (id: Id) => "doc_" + DecimalString(id)
  }

  lemma DocNameInjective()
    ensures Injective(DocName())
  {
    forall a: Id, b: Id | DocName()(a) == DocName()(b)
      ensures a == b
    {
      PrefixedDecimalInjective("doc_", a, b);
    }
  }

  function SessionView(name: Id -> string): Doc<Session> -> MockStore.MockSession {
    (d: Doc<Session>) => MockStore.MockSession(
      name(d.id), d.val.userId, d.val.projectName, d.val.startTime,
      d.val.endTime, d.val.tokensInput, d.val.tokensOutput)
  }

  function CompanyRef(name: Id -> string, c: Option<Id>): Option<string> {
    match c
    case None => None
    case Some(id) => Some(name(id))
  }

  function UserView(name: Id -> string): Doc<User> -> MockStore.MockUser {
    (d: Doc<User>) => MockStore.MockUser(
      name(d.id), d.val.clerkId, d.val.name, d.val.role, d.val.imageUrl,
      CompanyRef(name, d.val.companyId))
  }

  function CompanyView(name: Id -> string): Doc<Company> -> MockStore.MockCompany {
    (d: Doc<Company>) => MockStore.MockCompany(name(d.id), d.val.name, d.val.inviteCode)
  }

  function AsMock(db: Db, name: Id -> string): MockStore.MockState {
    MockStore.MockState(
      Map(db.sessions, SessionView(name)),
      Map(db.users, UserView(name)),
      Map(db.companies, CompanyView(name)))
  }

  /** No session ended at epoch 0, which the mock would read as running. */
  predicate NoZeroEnd(t: Table<Session>) {
    forall i :: 0 <= i < |t| ==> t[i].val.endTime != Some(0)
  }

  /** Sessions were started in table order, each strictly after the last. */
  predicate StartsFollowTable(t: Table<Session>) {
    forall i, j :: 0 <= i < j < |t| ==> t[i].val.startTime < t[j].val.startTime
  }

  // ---------------------------------------------------------------------
  // Queries
  // ---------------------------------------------------------------------

  /** For a consistent session that did not end at 0, "no truthy end time"
      and "status active" coincide. */
  lemma RunningIffActive(name: Id -> string, d: Doc<Session>)
    requires Consistent(d.val) && d.val.endTime != Some(0)
    ensures MockStore.Running(SessionView(name)(d)) <==> d.val.status == Active
  {
  }

  /** A completed session that ended at 0 still counts as running in the
      mock, while the backend has it completed. */
  lemma ZeroEndDiverges(name: Id -> string, d: Doc<Session>)
    requires d.val.status == Completed && d.val.endTime == Some(0)
    ensures Consistent(d.val)
    ensures MockStore.Running(SessionView(name)(d)) && d.val.status != Active
  {
  }

  lemma GetAllActiveAgrees(db: Db, name: Id -> string)
    requires SessionsConsistent(db.sessions) && NoZeroEnd(db.sessions)
    ensures MockStore.GetAllActive(AsMock(db, name)) == Map(Sessions.GetAllActive(db), SessionView(name))
  {
    MapFilterCommute(db.sessions, SessionView(name), Sessions.IsActive(), MockStore.IsRunning());
  }

  lemma GetActiveAgrees(db: Db, name: Id -> string, userId: string)
    requires SessionsConsistent(db.sessions) && NoZeroEnd(db.sessions)
    requires userId != ""
    ensures MockStore.GetActive(AsMock(db, name), Some(userId))
            == Some(Map(Sessions.GetActive(db, userId), SessionView(name)))
  {
    MapFilterCommute(db.sessions, SessionView(name), Sessions.ActiveOfUser(userId),
                     MockStore.RunningOfUser(userId));
  }

  /** With the same cutoff on both sides, as `getToday` has (local midnight
      today in both), the mock's windowed sessions are the view of the
      backend's. */
  lemma SessionsSinceAgrees(db: Db, name: Id -> string, userId: string, cutoff: int)
    requires userId != ""
    ensures MockStore.SessionsSince(AsMock(db, name), Some(userId), cutoff)
            == Some(Map(Sessions.SessionsSince(db, userId, cutoff), SessionView(name)))
  {
    MapFilterCommute(db.sessions, SessionView(name), Sessions.StartedSince(userId, cutoff),
                     MockStore.SinceOf(userId, cutoff));
  }

  /** `getWeek` differs: the backend cuts at local midnight seven days ago,
      the mock at the same time of day seven days ago (`weekAgo`), which is
      never earlier. A session started between the two is in the backend's
      week and not in the mock's. */
  lemma WeekWindowDiverges(db: Db, name: Id -> string, userId: string, weekMidnight: int, weekAgo: int, k: nat)
    requires userId != ""
    requires k < |db.sessions| && db.sessions[k].val.userId == userId
    requires weekMidnight <= db.sessions[k].val.startTime < weekAgo
    ensures db.sessions[k] in Sessions.SessionsSince(db, userId, weekMidnight)
    ensures SessionView(name)(db.sessions[k]) !in MockStore.SessionsSince(AsMock(db, name), Some(userId), weekAgo).value
  {
  }

  /** Apart from that gap the two weeks agree: every session in the mock's
      week is the view of one in the backend's. */
  lemma WeekWindowNarrower(db: Db, name: Id -> string, userId: string, weekMidnight: int, weekAgo: int)
    requires userId != ""
    requires weekMidnight <= weekAgo
    ensures forall x :: x in MockStore.SessionsSince(AsMock(db, name), Some(userId), weekAgo).value ==>
              exists d :: d in Sessions.SessionsSince(db, userId, weekMidnight) && SessionView(name)(d) == x
  {
    SessionsSinceAgrees(db, name, userId, weekAgo);
    var later := Sessions.SessionsSince(db, userId, weekAgo);
    forall x | x in MockStore.SessionsSince(AsMock(db, name), Some(userId), weekAgo).value
      ensures exists d :: d in Sessions.SessionsSince(db, userId, weekMidnight) && SessionView(name)(d) == x
    {
      var i :| 0 <= i < |Map(later, SessionView(name))| && Map(later, SessionView(name))[i] == x;
      assert later[i] in later;
      assert later[i] in Sessions.SessionsSince(db, userId, weekMidnight);
    }
  }

  /** The mock's filtered sessions of a user are the view of the backend's
      `by_user` range. */
  lemma MineIsByUser(db: Db, name: Id -> string, userId: string)
    ensures Filter(AsMock(db, name).sessions, MockStore.OfUser(userId))
            == Map(Sessions.ByUser(db, userId), SessionView(name))
  {
    MapFilterCommute(db.sessions, SessionView(name), Sessions.OfUser(userId), MockStore.OfUser(userId));
  }

  /** In an ascending table whose start times follow the table, a
      sub-table in id order has strictly increasing start times. */
  lemma AscendingSubtableStartsLater(t: Table<Session>, sub: Table<Session>, name: Id -> string)
    requires Ascending(t) && StartsFollowTable(t)
    requires Ascending(sub) && forall d :: d in sub ==> d in t
    ensures MockStore.StrictlyLaterInOrder(Map(sub, SessionView(name)))
  {
    var m := Map(sub, SessionView(name));
    forall a, b | 0 <= a < b < |m|
      ensures m[a].startTime < m[b].startTime
    {
      assert sub[a] in t && sub[b] in t;
      var x :| 0 <= x < |t| && t[x] == sub[a];
      var y :| 0 <= y < |t| && t[y] == sub[b];
      assert x < y;
    }
  }

  /** With an explicit non-zero limit, and start times that follow creation
      order, the mock's sort by start time and the backend's newest-first
      scan give the same history. */
  lemma ListAgrees(db: Db, name: Id -> string, userId: string, limit: nat)
    requires Ascending(db.sessions) && StartsFollowTable(db.sessions)
    requires userId != "" && limit > 0
    ensures MockStore.List(AsMock(db, name), Some(userId), Some(limit))
            == Some(Map(Sessions.List(db, userId, Some(limit)), SessionView(name)))
  {
    var mine := Sessions.ByUser(db, userId);
    MineIsByUser(db, name, userId);
    AscendingSubtableStartsLater(db.sessions, mine, name);
    MockStore.SortOfIncreasingIsReverse(Map(mine, SessionView(name)));
    MapReverse(mine, SessionView(name));
    MapTake(Reverse(mine), SessionView(name), limit);
  }

  /** Without a limit the mock returns up to 20 sessions and the backend up
      to 10. */
  lemma ListDefaultDiverges(db: Db, name: Id -> string, userId: string)
    requires userId != ""
    requires |Sessions.ByUser(db, userId)| > Sessions.DefaultListLimit
    ensures |MockStore.List(AsMock(db, name), Some(userId), None).value|
            > |Sessions.List(db, userId, None)|
  {
    var n := |Sessions.ByUser(db, userId)|;
    MineIsByUser(db, name, userId);
    assert |Filter(AsMock(db, name).sessions, MockStore.OfUser(userId))| == n;
    assert |MockStore.List(AsMock(db, name), Some(userId), None).value| == Min(MockStore.DefaultListLimit, n);
    assert |Sessions.List(db, userId, None)| == Min(Sessions.DefaultListLimit, n);
  }

  lemma GetUserAgrees(db: Db, name: Id -> string, clerkId: string)
    requires clerkId != ""
    ensures MockStore.GetUser(AsMock(db, name), Some(clerkId))
            == (match Users.Get(db, clerkId)
                case None => None
                case Some(d) => Some(UserView(name)(d)))
  {
    FindFirstMap(db.users, UserView(name), Users.HasClerkId(clerkId), MockStore.ClerkIdIs(clerkId));
  }

  /** Under an injective naming, the mock's lookup by the name of an id
      finds the view of the company the backend's `get` finds. */
  lemma GetCompanyAgrees(db: Db, name: Id -> string, companyId: Id)
    requires Injective(name) && name(companyId) != ""
    ensures MockStore.GetCompany(AsMock(db, name), Some(name(companyId)))
            == (match Companies.GetCompany(db, companyId)
                case None => None
                case Some(d) => Some(CompanyView(name)(d)))
  {
    FindFirstMap(db.companies, CompanyView(name), HasId(companyId), MockStore.IdIs(name(companyId)));
  }

  lemma GetByInviteCodeAgrees(db: Db, name: Id -> string, code: string)
    requires code != ""
    ensures MockStore.GetByInviteCode(AsMock(db, name), Some(code))
            == (match Companies.GetByInviteCode(db, code)
                case None => None
                case Some(d) => Some(CompanyView(name)(d)))
  {
    FindFirstMap(db.companies, CompanyView(name), Companies.HasCode(Upper(code)),
                 MockStore.CodeIs(Upper(code)));
  }

  // ---------------------------------------------------------------------
  // Mutations
  // ---------------------------------------------------------------------

  /** A start lands in the same state when the mock's clock-built id is the
      name of the backend's new id. */
  lemma StartAgrees(db: Db, name: Id -> string, userId: string, projectName: string, now: nat)
    requires name(db.nextId) == MockStore.IdAt("session_", now)
    ensures var (d, db') := Sessions.Start(db, userId, projectName, now);
            var (id, st') := MockStore.Start(AsMock(db, name), userId, projectName, now);
            && id == name(d.id)
            && st' == AsMock(db', name)
  {
    var (d, db') := Sessions.Start(db, userId, projectName, now);
    MapSnoc(db.sessions, d, SessionView(name));
  }

  /** Stopping with both token counts supplied lands in the same state. */
  lemma StopAgrees(db: Db, name: Id -> string, sessionId: Id, tokensInput: int, tokensOutput: int, now: nat)
    requires Injective(name) && Ascending(db.sessions)
    requires Get(db.sessions, sessionId).Some?
    ensures var r := Sessions.Stop(db, sessionId, Some(tokensInput), Some(tokensOutput), now);
            && r.result.Success?
            && MockStore.Stop(AsMock(db, name), name(sessionId), Some(tokensInput), Some(tokensOutput), now)
               == AsMock(r.db, name)
  {
    var r := Sessions.Stop(db, sessionId, Some(tokensInput), Some(tokensOutput), now);
    var st' := MockStore.Stop(AsMock(db, name), name(sessionId), Some(tokensInput), Some(tokensOutput), now);
    StopSessionsAgree(db, name, sessionId, tokensInput, tokensOutput, now);
    assert st'.users == AsMock(r.db, name).users;
    assert st'.companies == AsMock(r.db, name).companies;
  }

  /** The session rows of `StopAgrees`, one by one. */
  lemma StopSessionsAgree(db: Db, name: Id -> string, sessionId: Id, tokensInput: int, tokensOutput: int, now: nat)
    requires Injective(name) && Ascending(db.sessions)
    requires Get(db.sessions, sessionId).Some?
    ensures var r := Sessions.Stop(db, sessionId, Some(tokensInput), Some(tokensOutput), now);
            MockStore.Stop(AsMock(db, name), name(sessionId), Some(tokensInput), Some(tokensOutput), now).sessions
            == AsMock(r.db, name).sessions
  {
    var r := Sessions.Stop(db, sessionId, Some(tokensInput), Some(tokensOutput), now);
    var st' := MockStore.Stop(AsMock(db, name), name(sessionId), Some(tokensInput), Some(tokensOutput), now);
    var want := AsMock(r.db, name);
    assert |st'.sessions| == |want.sessions|;
    forall i | 0 <= i < |db.sessions|
      ensures st'.sessions[i] == want.sessions[i]
    {
      StopAgreesAt(db, name, sessionId, tokensInput, tokensOutput, now, i);
    }
  }

  /** One row of `StopAgrees`: the row the mock patches is the view of the
      row the backend patches. */
  lemma StopAgreesAt(db: Db, name: Id -> string, sessionId: Id, tokensInput: int, tokensOutput: int, now: nat, i: nat)
    requires Injective(name) && Ascending(db.sessions)
    requires Get(db.sessions, sessionId).Some? && i < |db.sessions|
    ensures var r := Sessions.Stop(db, sessionId, Some(tokensInput), Some(tokensOutput), now);
            MockStore.Stop(AsMock(db, name), name(sessionId), Some(tokensInput), Some(tokensOutput), now).sessions[i]
            == AsMock(r.db, name).sessions[i]
  {
    if db.sessions[i].id == sessionId {
      GetUnique(db.sessions, sessionId, i);
    } else {
      assert name(db.sessions[i].id) != name(sessionId);
    }
  }

  /** Stopping without token counts: the backend stores 0, the mock leaves
      them absent. */
  lemma StopWithoutTokensDiverges(db: Db, name: Id -> string, sessionId: Id, k: nat, now: nat)
    requires k < |db.sessions| && db.sessions[k].id == sessionId
    ensures var r := Sessions.Stop(db, sessionId, None, None, now);
            && r.result.Success?
            && r.result.value.val.tokensInput == Some(0)
            && r.result.value.val.tokensOutput == Some(0)
    ensures var st' := MockStore.Stop(AsMock(db, name), name(sessionId), None, None, now);
            st'.sessions[k].tokensInput.None? && st'.sessions[k].tokensOutput.None?
  {
  }

  /** Stopping an unknown id: the backend throws, the mock changes nothing
      and reports nothing. */
  lemma StopMissingDiverges(db: Db, name: Id -> string, sessionId: Id, tokensInput: Option<int>,
                            tokensOutput: Option<int>, now: nat)
    requires Injective(name)
    requires Get(db.sessions, sessionId).None?
    ensures Sessions.Stop(db, sessionId, tokensInput, tokensOutput, now).result.Failure?
    ensures MockStore.Stop(AsMock(db, name), name(sessionId), tokensInput, tokensOutput, now) == AsMock(db, name)
  {
    var st := AsMock(db, name);
    forall i | 0 <= i < |st.sessions|
      ensures st.sessions[i].id != name(sessionId)
    {
      assert db.sessions[i].id != sessionId;
    }
  }

  /** Joining lands in the same state when the user exists and clerkIds are
      unique (the mock moves every user with the clerkId). */
  lemma JoinAgrees(db: Db, name: Id -> string, clerkId: string, companyId: Id)
    requires ClerkIdsUnique(db.users)
    requires Users.UserIndex(db.users, clerkId).Some?
    ensures var r := Users.JoinCompany(db, clerkId, companyId);
            var (ok, st') := MockStore.JoinCompany(AsMock(db, name), clerkId, name(companyId));
            && r.result.Success? && ok
            && st' == AsMock(r.db, name)
  {
    var r := Users.JoinCompany(db, clerkId, companyId);
    var k := Users.UserIndex(db.users, clerkId).value;
    var (_, st') := MockStore.JoinCompany(AsMock(db, name), clerkId, name(companyId));
    forall i | 0 <= i < |db.users|
      ensures st'.users[i] == AsMock(r.db, name).users[i]
    {
      if i != k {
        assert db.users[i].val.clerkId != clerkId;
      }
    }
  }

  /** Joining as an unknown user: the backend throws "User not found", the
      mock reports success and changes nothing. */
  lemma JoinMissingUserDiverges(db: Db, name: Id -> string, clerkId: string, companyId: Id)
    requires Users.UserIndex(db.users, clerkId).None?
    ensures Users.JoinCompany(db, clerkId, companyId).result == Failure(UserNotFound)
    ensures MockStore.JoinCompany(AsMock(db, name), clerkId, name(companyId)) == (true, AsMock(db, name))
  {
    var st := AsMock(db, name);
    forall i | 0 <= i < |st.users|
      ensures st.users[i].clerkId != clerkId
    {
      assert st.users[i].clerkId == db.users[i].val.clerkId;
    }
  }

  /** Saving a profile with a non-empty image URL and no upload lands in the
      same state and returns the same user, for an existing user and for a
      new one whose clock-built id is the name of the backend's new id. */
  lemma CreateProfileAgrees(db: Db, name: Id -> string, clerkId: string, userName: string, role: string,
                            imageUrl: string, now: nat)
    requires ClerkIdsUnique(db.users)
    requires imageUrl != ""
    requires Users.UserIndex(db.users, clerkId).None? ==> name(db.nextId) == MockStore.IdAt("user_", now)
    ensures var (id, db') := Users.CreateProfile(db, clerkId, userName, role, Some(imageUrl), None);
            var (mid, st') := MockStore.CreateProfile(AsMock(db, name), clerkId, userName, role, imageUrl, now);
            && mid == name(id)
            && st' == AsMock(db', name)
  {
    match Users.UserIndex(db.users, clerkId)
    case Some(k) => CreateProfileExistingAgrees(db, name, clerkId, userName, role, imageUrl, now, k);
    case None => CreateProfileNewAgrees(db, name, clerkId, userName, role, imageUrl, now);
  }

  /** The update half of `CreateProfileAgrees`: the user at `k` is the only
      one with the clerkId, and both sides patch exactly it. */
  lemma CreateProfileExistingAgrees(db: Db, name: Id -> string, clerkId: string, userName: string, role: string,
                                    imageUrl: string, now: nat, k: nat)
    requires ClerkIdsUnique(db.users)
    requires imageUrl != ""
    requires k < |db.users| && db.users[k].val.clerkId == clerkId
    ensures var (id, db') := Users.CreateProfile(db, clerkId, userName, role, Some(imageUrl), None);
            var (mid, st') := MockStore.CreateProfile(AsMock(db, name), clerkId, userName, role, imageUrl, now);
            && mid == name(id)
            && st' == AsMock(db', name)
  {
    var (id, db') := Users.CreateProfile(db, clerkId, userName, role, Some(imageUrl), None);
    var st := AsMock(db, name);
    var (mid, st') := MockStore.CreateProfile(st, clerkId, userName, role, imageUrl, now);
    Users.UserIndexUnique(db.users, clerkId, k);
    FindFirstMap(db.users, UserView(name), Users.HasClerkId(clerkId), MockStore.ClerkIdIs(clerkId));
    assert st.users[k].clerkId == clerkId;
    PatchAgrees(db.users, name, k, db'.users[k].val);
    assert st'.users == AsMock(db', name).users;
  }

  /** Patching the only user with a clerkId, keeping its company, is seen by
      the mock as merging the new fields into every user with that clerkId. */
  lemma PatchAgrees(users: Table<User>, name: Id -> string, k: nat, u: User)
    requires ClerkIdsUnique(users)
    requires k < |users| && u.clerkId == users[k].val.clerkId && u.companyId == users[k].val.companyId
    ensures forall i :: 0 <= i < |users| ==>
              var v := UserView(name)(users[i]);
              UserView(name)(users[k := Doc(users[k].id, u)][i])
                == if v.clerkId == u.clerkId then v.(name := u.name, role := u.role, imageUrl := u.imageUrl) else v
  {
    forall i | 0 <= i < |users|
      ensures var v := UserView(name)(users[i]);
              UserView(name)(users[k := Doc(users[k].id, u)][i])
                == if v.clerkId == u.clerkId then v.(name := u.name, role := u.role, imageUrl := u.imageUrl) else v
    {
      if i != k {
        assert users[i].val.clerkId != u.clerkId;
      }
    }
  }

  /** The insert half of `CreateProfileAgrees`: no user has the clerkId, and
      both sides append the same user. */
  lemma CreateProfileNewAgrees(db: Db, name: Id -> string, clerkId: string, userName: string, role: string,
                               imageUrl: string, now: nat)
    requires imageUrl != ""
    requires Users.UserIndex(db.users, clerkId).None?
    requires name(db.nextId) == MockStore.IdAt("user_", now)
    ensures var (id, db') := Users.CreateProfile(db, clerkId, userName, role, Some(imageUrl), None);
            var (mid, st') := MockStore.CreateProfile(AsMock(db, name), clerkId, userName, role, imageUrl, now);
            && mid == name(id)
            && st' == AsMock(db', name)
  {
    var (id, db') := Users.CreateProfile(db, clerkId, userName, role, Some(imageUrl), None);
    var st := AsMock(db, name);
    forall i | 0 <= i < |st.users|
      ensures st.users[i].clerkId != clerkId
    {
      assert st.users[i].clerkId == db.users[i].val.clerkId;
    }
    MapSnoc(db.users, db'.users[|db.users|], UserView(name));
  }

  /** An empty image URL without upload: the backend stores the placeholder,
      the mock stores the empty string. */
  lemma CreateProfileEmptyImageDiverges(db: Db, name: Id -> string, clerkId: string, userName: string,
                                        role: string, now: nat)
    requires clerkId != ""
    ensures var (_, db') := Users.CreateProfile(db, clerkId, userName, role, Some(""), None);
            Users.Get(db', clerkId).value.val.imageUrl == Users.Placeholder
    ensures var (_, st') := MockStore.CreateProfile(AsMock(db, name), clerkId, userName, role, "", now);
            && MockStore.GetUser(st', Some(clerkId)).Some?
            && MockStore.GetUser(st', Some(clerkId)).value.imageUrl == ""
  {
    MockStore.CreateProfileThenGet(AsMock(db, name), clerkId, userName, role, "", now);
  }

  /** Creating a company lands in the same state when the mock happens to
      draw the code the backend settled on and its clock-built id is the
      name of the backend's new id. */
  lemma CreateCompanyAgrees(db: Db, name: Id -> string, companyName: string, creatorClerkId: string,
                            candidates: nat -> string, now: nat)
    requires ClerkIdsUnique(db.users)
    requires Companies.PickCode(db.companies, candidates, 0).Some?
    requires Companies.IsInviteCode(candidates(Companies.PickCode(db.companies, candidates, 0).value))
    requires name(db.nextId) == MockStore.IdAt("company_", now)
    ensures var r := Companies.Create(db, companyName, creatorClerkId, candidates);
            var code := candidates(Companies.PickCode(db.companies, candidates, 0).value);
            var (mid, st') := MockStore.CreateCompany(AsMock(db, name), companyName, creatorClerkId,
                                                      Companies.DrawsOf(code), now);
            && r.result.Success?
            && mid == name(r.result.value)
            && st' == AsMock(r.db, name)
  {
    var r := Companies.Create(db, companyName, creatorClerkId, candidates);
    Companies.SpellDrawsOf(candidates(Companies.PickCode(db.companies, candidates, 0).value));
    MapSnoc(db.companies, r.db.companies[|db.companies|], CompanyView(name));
    SetCompanyOfAgrees(db.users, name, creatorClerkId, db.nextId);
  }

  /** With unique clerkIds, the mock's "set the company of every matching
      user" and the backend's "patch the first matching user" coincide. */
  lemma SetCompanyOfAgrees(users: Table<User>, name: Id -> string, clerkId: string, companyId: Id)
    requires ClerkIdsUnique(users)
    ensures MockStore.SetCompanyOf(Map(users, UserView(name)), clerkId, name(companyId))
            == Map(Users.WithCompany(users, clerkId, Some(companyId)), UserView(name))
  {
    var m := MockStore.SetCompanyOf(Map(users, UserView(name)), clerkId, name(companyId));
    var b := Map(Users.WithCompany(users, clerkId, Some(companyId)), UserView(name));
    forall i | 0 <= i < |users|
      ensures m[i] == b[i]
    {
      var w := Users.WithCompany(users, clerkId, Some(companyId));
      var v := UserView(name)(users[i]);
      assert Map(users, UserView(name))[i] == v;
      assert m[i] == if v.clerkId == clerkId then v.(companyId := Some(name(companyId))) else v;
      assert b[i] == UserView(name)(w[i]);
      if users[i].val.clerkId == clerkId {
        Users.UserIndexUnique(users, clerkId, i);
        assert w[i] == Doc(users[i].id, users[i].val.(companyId := Some(companyId)));
        assert CompanyRef(name, Some(companyId)) == Some(name(companyId));
        assert b[i] == v.(companyId := Some(name(companyId)));
      } else {
        assert Users.UserIndex(users, clerkId) != Some(i);
        assert w[i] == users[i];
        assert b[i] == v;
      }
    }
  }

  /** Given a code some company already uses, the backend never stores it
      again, while the mock stores it a second time. */
  lemma TakenCodeDiverges(db: Db, name: Id -> string, companyName: string, creatorClerkId: string,
                          candidates: nat -> string, k: nat, now: nat)
    requires k < |db.companies| && Companies.IsInviteCode(db.companies[k].val.inviteCode)
    ensures var r := Companies.Create(db, companyName, creatorClerkId, candidates);
            r.result.Success? ==> r.db.companies[|db.companies|].val.inviteCode != db.companies[k].val.inviteCode
    ensures var draws := Companies.DrawsOf(db.companies[k].val.inviteCode);
            var (_, st') := MockStore.CreateCompany(AsMock(db, name), companyName, creatorClerkId, draws, now);
            st'.companies[k].inviteCode == st'.companies[|db.companies|].inviteCode
  {
    Companies.SpellDrawsOf(db.companies[k].val.inviteCode);
  }
}
