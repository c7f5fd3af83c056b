/** The in-memory stand-in for the backend (app/mocks/convex.tsx): the bodies
    of the mocked `useQuery` and `useMutation` cases, read as pure functions
    on the `sessions`, `users` and `companies` arrays. It differs from the
    backend on purpose: sessions have no `status` (a session is running while
    it has no truthy `endTime`), ids are built from the clock, and several
    checks are missing. */
module MockStore {
  import opened Common
  import Companies

  datatype MockSession = MockSession(
    id: string,
    userId: string,
    projectName: string,
    startTime: int,
    endTime: Option<int>,
    tokensInput: Option<int>,
    tokensOutput: Option<int>)

  datatype MockUser = MockUser(
    id: string,
    clerkId: string,
    name: string,
    role: string,
    imageUrl: string,
    companyId: Option<string>)

  datatype MockCompany = MockCompany(id: string, name: string, inviteCode: string)

  datatype MockState = MockState(
    sessions: seq<MockSession>,
    users: seq<MockUser>,
    companies: seq<MockCompany>)

  /** `list` returns this many sessions when `limit` is absent or 0. */
  const DefaultListLimit: int := 20

  /** `!s.endTime`: no end time, or an end time of 0. */
  predicate Running(s: MockSession) {
    !TruthyNumber(s.endTime)
  }

  function RunningOfUser(userId: string): MockSession -> bool {
    (s: MockSession) => s.userId == userId && Running(s)
  }

  function IsRunning(): MockSession -> bool {
    (s: MockSession) => Running(s)
  }

  function OfUser(userId: string): MockSession -> bool {
    (s: MockSession) => s.userId == userId
  }

  function SinceOf(userId: string, cutoff: int): MockSession -> bool {
    (s: MockSession) => s.userId == userId && s.startTime >= cutoff
  }

  function ClerkIdIs(clerkId: string): MockUser -> bool {
    (u: MockUser) => u.clerkId == clerkId
  }

  // ---------------------------------------------------------------------
  // Queries. A falsy key argument (absent or "") makes a query return null.
  // ---------------------------------------------------------------------

  /** `users.get`. */
  function GetUser(st: MockState, clerkId: Option<string>): (r: Option<MockUser>)
    ensures !Truthy(clerkId) ==> r.None?
    ensures r.Some? ==> r.value in st.users && r.value.clerkId == clerkId.value
    ensures r.Some? ==> exists k :: 0 <= k < |st.users| && st.users[k] == r.value
                          && forall j :: 0 <= j < k ==> st.users[j].clerkId != clerkId.value
    ensures Truthy(clerkId) && r.None? ==> forall i :: 0 <= i < |st.users| ==> st.users[i].clerkId != clerkId.value
  {
    if !Truthy(clerkId) then None
    else Find(st.users, ClerkIdIs(clerkId.value))
  }

  function IdIs(companyId: string): MockCompany -> bool {
    (c: MockCompany) => c.id == companyId
  }

  /** `companies.get`: the first company with the id; two companies created
      in the same millisecond share one. */
  function GetCompany(st: MockState, companyId: Option<string>): (r: Option<MockCompany>)
    ensures !Truthy(companyId) ==> r.None?
    ensures r.Some? ==> r.value in st.companies && r.value.id == companyId.value
    ensures r.Some? ==> exists k :: 0 <= k < |st.companies| && st.companies[k] == r.value
                          && forall j :: 0 <= j < k ==> st.companies[j].id != companyId.value
    ensures Truthy(companyId) && r.None? ==> forall i :: 0 <= i < |st.companies| ==> st.companies[i].id != companyId.value
  {
    if !Truthy(companyId) then None
    else Find(st.companies, IdIs(companyId.value))
  }

  function CodeIs(code: string): MockCompany -> bool {
    (c: MockCompany) => c.inviteCode == code
  }

  /** `companies.getByInviteCode`: the first company whose code is the
      upper-cased argument. */
  function GetByInviteCode(st: MockState, inviteCode: Option<string>): (r: Option<MockCompany>)
    ensures !Truthy(inviteCode) ==> r.None?
    ensures r.Some? ==> r.value in st.companies && r.value.inviteCode == Upper(inviteCode.value)
    ensures r.Some? ==> exists k :: 0 <= k < |st.companies| && st.companies[k] == r.value
                          && forall j :: 0 <= j < k ==> st.companies[j].inviteCode != Upper(inviteCode.value)
    ensures Truthy(inviteCode) && r.None? ==>
              forall i :: 0 <= i < |st.companies| ==> st.companies[i].inviteCode != Upper(inviteCode.value)
  {
    if !Truthy(inviteCode) then None
    else Find(st.companies, CodeIs(Upper(inviteCode.value)))
  }

  /** `sessions.getActive`: the user's sessions without a truthy end time. */
  function GetActive(st: MockState, userId: Option<string>): (r: Option<seq<MockSession>>)
    ensures r.Some? <==> Truthy(userId)
    ensures r.Some? ==> forall s :: s in r.value <==> s in st.sessions && s.userId == userId.value && Running(s)
    ensures r.Some? ==>
              forall s :: multiset(r.value)[s] == if s.userId == userId.value && Running(s) then multiset(st.sessions)[s] else 0
  {
    if !Truthy(userId) then None
    else
      FilterCounts(st.sessions, RunningOfUser(userId.value));
      Some(Filter(st.sessions, RunningOfUser(userId.value)))
  }

  /** `sessions.getAllActive`: every session without a truthy end time. */
  function GetAllActive(st: MockState): (r: seq<MockSession>)
    ensures forall s :: s in r <==> s in st.sessions && Running(s)
    ensures forall s :: multiset(r)[s] == if Running(s) then multiset(st.sessions)[s] else 0
  {
    FilterCounts(st.sessions, IsRunning());
    Filter(st.sessions, IsRunning())
  }

  /** `sessions.getToday` and `sessions.getWeek`: the user's sessions that
      started at or after `cutoff`. */
  function SessionsSince(st: MockState, userId: Option<string>, cutoff: int): (r: Option<seq<MockSession>>)
    ensures r.Some? <==> Truthy(userId)
    ensures r.Some? ==>
              forall s :: s in r.value <==> s in st.sessions && s.userId == userId.value && s.startTime >= cutoff
    ensures r.Some? ==>
              forall s :: multiset(r.value)[s] ==
                (if s.userId == userId.value && s.startTime >= cutoff then multiset(st.sessions)[s] else 0)
  {
    if !Truthy(userId) then None
    else
      FilterCounts(st.sessions, SinceOf(userId.value, cutoff));
      Some(Filter(st.sessions, SinceOf(userId.value, cutoff)))
  }

  // ---------------------------------------------------------------------
  // Sorting: Array.prototype.sort with `(a, b) => b.startTime - a.startTime`,
  // which is stable, so sessions with equal start keep their order.
  // ---------------------------------------------------------------------

  predicate SortedByStartDesc(s: seq<MockSession>) {
    forall i, j :: 0 <= i < j < |s| ==> s[i].startTime >= s[j].startTime
  }

  /** Puts `x` after the sessions that started later than it and before the
      rest; `x` came first in the input, so ties keep input order. */
  function InsertByStart(x: MockSession, s: seq<MockSession>): (r: seq<MockSession>)
    requires SortedByStartDesc(s)
    ensures SortedByStartDesc(r)
    ensures multiset(r) == multiset(s) + multiset{x}
  {
    if |s| == 0 then [x]
    else if s[0].startTime > x.startTime then
      var rest := InsertByStart(x, s[1..]);
      assert s == [s[0]] + s[1..];
      HeadStartsLatest(s, x, rest);
      [s[0]] + rest
    else
      [x] + s
  }

  /** What the recursive insert returns starts no later than the head it
      goes behind. */
  lemma HeadStartsLatest(s: seq<MockSession>, x: MockSession, rest: seq<MockSession>)
    requires |s| > 0 && SortedByStartDesc(s) && s[0].startTime > x.startTime
    requires SortedByStartDesc(rest)
    requires multiset(rest) == multiset(s[1..]) + multiset{x}
    ensures SortedByStartDesc([s[0]] + rest)
  {
    forall i | 0 <= i < |rest|
      ensures rest[i].startTime <= s[0].startTime
    {
      var y := rest[i];
      assert y in multiset(rest);
      if y != x {
        assert y in multiset(s[1..]);
        var j :| 0 <= j < |s[1..]| && s[1..][j] == y;
        assert s[j + 1] == y;
      }
    }
    var r := [s[0]] + rest;
    forall i, j | 0 <= i < j < |r|
      ensures r[i].startTime >= r[j].startTime
    {
      assert r[j] == rest[j - 1];
      if i > 0 {
        assert r[i] == rest[i - 1];
      }
    }
  }

  function SortByStartDesc(s: seq<MockSession>): (r: seq<MockSession>)
    ensures SortedByStartDesc(r)
    ensures multiset(r) == multiset(s)
  {
    if |s| == 0 then []
    else
      assert s == [s[0]] + s[1..];
      InsertByStart(s[0], SortByStartDesc(s[1..]))
  }

  /** Sorting neither adds nor drops sessions. */
  lemma SortKeepsMembers(s: seq<MockSession>)
    ensures forall x :: x in SortByStartDesc(s) <==> x in s
  {
    var r := SortByStartDesc(s);
    forall x
      ensures x in r <==> x in s
    {
      assert x in r <==> x in multiset(r);
      assert x in s <==> x in multiset(s);
    }
  }

  /** Inserting a session that started before all others appends it. */
  lemma {:induction false} InsertEarliestAppends(x: MockSession, s: seq<MockSession>)
    requires SortedByStartDesc(s)
    requires forall i :: 0 <= i < |s| ==> s[i].startTime > x.startTime
    ensures InsertByStart(x, s) == s + [x]
  {
    if |s| > 0 {
      InsertEarliestAppends(x, s[1..]);
      assert [s[0]] + (s[1..] + [x]) == s + [x];
    }
  }

  predicate StrictlyLaterInOrder(s: seq<MockSession>) {
    forall i, j :: 0 <= i < j < |s| ==> s[i].startTime < s[j].startTime
  }

  /** Sessions that started in the order they are stored come out of the
      sort in exactly reverse order. */
  lemma {:induction false} SortOfIncreasingIsReverse(s: seq<MockSession>)
    requires StrictlyLaterInOrder(s)
    ensures SortByStartDesc(s) == Reverse(s)
  {
    if |s| > 0 {
      var tail := s[1..];
      TailStrictlyLater(s);
      SortOfIncreasingIsReverse(tail);
      ReversedTailStartsLater(s);
      InsertEarliestAppends(s[0], Reverse(tail));
      assert SortByStartDesc(s) == InsertByStart(s[0], SortByStartDesc(tail));
      ReverseCons(s);
    }
  }

  lemma ReversedTailStartsLater(s: seq<MockSession>)
    requires |s| > 0 && StrictlyLaterInOrder(s)
    ensures forall i :: 0 <= i < |s| - 1 ==> Reverse(s[1..])[i].startTime > s[0].startTime
  {
    var rest := Reverse(s[1..]);
    forall i | 0 <= i < |rest|
      ensures rest[i].startTime > s[0].startTime
    {
      assert rest[i] == s[|s| - 1 - i];
    }
  }

  lemma TailStrictlyLater(s: seq<MockSession>)
    requires |s| > 0 && StrictlyLaterInOrder(s)
    ensures StrictlyLaterInOrder(s[1..])
  {
    var tail := s[1..];
    forall i, j | 0 <= i < j < |tail|
      ensures tail[i].startTime < tail[j].startTime
    {
      assert tail[i] == s[i + 1] && tail[j] == s[j + 1];
    }
  }

  /** `Array.prototype.slice(0, end)`: a negative end counts from the back. */
  function SliceTo<T>(s: seq<T>, end: int): (r: seq<T>)
    ensures end >= 0 ==> |r| == Min(end, |s|)
    ensures end < 0 ==> |r| == (if |s| + end >= 0 then |s| + end else 0)
    ensures r <= s
  {
    if end >= 0 then Take(s, end)
    else if |s| + end >= 0 then s[..|s| + end]
    else []
  }

  /** `sessions.list`: the user's sessions, latest start first, cut to
      `limit || 20`. */
  function List(st: MockState, userId: Option<string>, limit: Option<int>): (r: Option<seq<MockSession>>)
    ensures r.Some? <==> Truthy(userId)
    ensures r.Some? ==> SortedByStartDesc(r.value)
    ensures r.Some? ==> forall s :: s in r.value ==> s in st.sessions && s.userId == userId.value
    ensures r.Some? && !TruthyNumber(limit) ==> |r.value| == Min(DefaultListLimit, |Filter(st.sessions, OfUser(userId.value))|)
    ensures r.Some? && TruthyNumber(limit) && limit.value > 0 ==>
              |r.value| == Min(limit.value, |Filter(st.sessions, OfUser(userId.value))|)
    ensures r.Some? && TruthyNumber(limit) && limit.value < 0 ==>
              var n := |Filter(st.sessions, OfUser(userId.value))|;
              |r.value| == if n + limit.value >= 0 then n + limit.value else 0
    ensures r.Some? ==> r.value <= SortByStartDesc(Filter(st.sessions, OfUser(userId.value)))
  {
    if !Truthy(userId) then None
    else
      var mine := Filter(st.sessions, OfUser(userId.value));
      var sorted := SortByStartDesc(mine);
      var end := if TruthyNumber(limit) then limit.value else DefaultListLimit;
      var r := SliceTo(sorted, end);
      CutOfSorted(mine, end);
      Some(r)
  }

  /** Cutting the sorted sessions keeps them sorted and drawn from the input. */
  lemma CutOfSorted(s: seq<MockSession>, end: int)
    ensures var sorted := SortByStartDesc(s);
            var r := SliceTo(sorted, end);
            && |sorted| == |s|
            && SortedByStartDesc(r)
            && (forall x :: x in r ==> x in s)
  {
    var sorted := SortByStartDesc(s);
    var r := SliceTo(sorted, end);
    SortKeepsMembers(s);
    assert |sorted| == |multiset(sorted)| == |multiset(s)| == |s|;
    forall x | x in r
      ensures x in s
    {
      var i :| 0 <= i < |r| && r[i] == x;
      assert sorted[i] == x;
    }
  }

  /** What `list` returns is drawn from the user's sessions without repeats
      beyond theirs, and the user's sessions it leaves out started no later
      than any it returns. */
  lemma ListKeepsLatest(st: MockState, userId: string, limit: Option<int>)
    requires userId != ""
    ensures var r := List(st, Some(userId), limit).value;
            && multiset(r) <= multiset(Filter(st.sessions, OfUser(userId)))
            && forall t, s :: t in st.sessions && t.userId == userId && t !in r && s in r ==> t.startTime <= s.startTime
  {
    var mine := Filter(st.sessions, OfUser(userId));
    var sorted := SortByStartDesc(mine);
    var r := List(st, Some(userId), limit).value;
    SortKeepsMembers(mine);
    KeptAreLatest(sorted, r);
  }

  /** A prefix of a sorted list holds the latest starts: whatever is left
      out started no later than anything kept. */
  lemma KeptAreLatest(sorted: seq<MockSession>, r: seq<MockSession>)
    requires SortedByStartDesc(sorted) && r <= sorted
    ensures multiset(r) <= multiset(sorted)
    ensures forall t, s :: t in sorted && t !in r && s in r ==> t.startTime <= s.startTime
  {
    assert sorted == r + sorted[|r|..];
    forall t, s | t in sorted && t !in r && s in r
      ensures t.startTime <= s.startTime
    {
      var j :| 0 <= j < |sorted| && sorted[j] == t;
      var i :| 0 <= i < |r| && r[i] == s;
      assert sorted[i] == s;
      assert j >= |r|;
    }
  }

  // ---------------------------------------------------------------------
  // Mutations. `now` is `Date.now()`; ids are `<table>_<now>`.
  // ---------------------------------------------------------------------

  function IdAt(prefix: string, now: nat): string {
    prefix + DecimalString(now)
  }

  /** `users.createProfile`: merges name, role and image into every user
      with the clerkId, keeping id and company, or appends a new user without
      company. Returns the existing or the new id. */
  function CreateProfile(st: MockState, clerkId: string, name: string, role: string, imageUrl: string, now: nat)
    : (r: (string, MockState))
    ensures r.1.sessions == st.sessions && r.1.companies == st.companies
    ensures (exists i :: 0 <= i < |st.users| && st.users[i].clerkId == clerkId) ==>
              && r.0 == Find(st.users, ClerkIdIs(clerkId)).value.id
              && |r.1.users| == |st.users|
              && forall i :: 0 <= i < |st.users| ==>
                   r.1.users[i] == (if st.users[i].clerkId == clerkId
                                    then st.users[i].(name := name, role := role, imageUrl := imageUrl)
                                    else st.users[i])
    ensures (forall i :: 0 <= i < |st.users| ==> st.users[i].clerkId != clerkId) ==>
              && r.0 == IdAt("user_", now)
              && r.1.users == st.users + [MockUser(r.0, clerkId, name, role, imageUrl, None)]
  {
    match Find(st.users, ClerkIdIs(clerkId))
    case Some(existing) =>
      (existing.id, st.(users := Map(st.users, (u: MockUser) =>
        if u.clerkId == clerkId then u.(name := name, role := role, imageUrl := imageUrl) else u)))
    case None =>
      var id := IdAt("user_", now);
      (id, st.(users := st.users + [MockUser(id, clerkId, name, role, imageUrl, None)]))
  }

  /** `users.get` right after `users.createProfile` finds a user with that
      clerkId carrying the name, role and image just saved. */
  lemma CreateProfileThenGet(st: MockState, clerkId: string, name: string, role: string, imageUrl: string, now: nat)
    requires clerkId != ""
    ensures var (_, st') := CreateProfile(st, clerkId, name, role, imageUrl, now);
            var back := GetUser(st', Some(clerkId));
            && back.Some? && back.value.clerkId == clerkId
            && back.value.name == name && back.value.role == role && back.value.imageUrl == imageUrl
  {
    if i :| 0 <= i < |st.users| && st.users[i].clerkId == clerkId {
      MergedUsersCarryFields(st, clerkId, name, role, imageUrl, now, i);
    } else {
      AppendedUserCarriesFields(st, clerkId, name, role, imageUrl, now);
    }
  }

  /** The update case of `CreateProfileThenGet`. */
  lemma MergedUsersCarryFields(st: MockState, clerkId: string, name: string, role: string, imageUrl: string, now: nat, i: nat)
    requires i < |st.users| && st.users[i].clerkId == clerkId
    ensures var users' := CreateProfile(st, clerkId, name, role, imageUrl, now).1.users;
            var back := Find(users', ClerkIdIs(clerkId));
            && back.Some? && back.value.clerkId == clerkId
            && back.value.name == name && back.value.role == role && back.value.imageUrl == imageUrl
  {
    var users' := CreateProfile(st, clerkId, name, role, imageUrl, now).1.users;
    forall m | 0 <= m < |users'| && users'[m].clerkId == clerkId
      ensures users'[m].name == name && users'[m].role == role && users'[m].imageUrl == imageUrl
    {
      assert st.users[m].clerkId == clerkId;
    }
    FindAmongSaved(users', clerkId, i, name, role, imageUrl);
  }

  /** The insert case of `CreateProfileThenGet`. */
  lemma AppendedUserCarriesFields(st: MockState, clerkId: string, name: string, role: string, imageUrl: string, now: nat)
    requires forall i :: 0 <= i < |st.users| ==> st.users[i].clerkId != clerkId
    ensures var users' := CreateProfile(st, clerkId, name, role, imageUrl, now).1.users;
            var back := Find(users', ClerkIdIs(clerkId));
            && back.Some? && back.value.clerkId == clerkId
            && back.value.name == name && back.value.role == role && back.value.imageUrl == imageUrl
  {
    var users' := CreateProfile(st, clerkId, name, role, imageUrl, now).1.users;
    forall m | 0 <= m < |users'| && users'[m].clerkId == clerkId
      ensures users'[m].name == name && users'[m].role == role && users'[m].imageUrl == imageUrl
    {
      assert m == |st.users|;
    }
    FindAmongSaved(users', clerkId, |st.users|, name, role, imageUrl);
  }

  /** When some user carries the clerkId and every such user carries the
      given fields, the lookup by clerkId returns those fields. */
  lemma FindAmongSaved(users: seq<MockUser>, clerkId: string, j: nat, name: string, role: string, imageUrl: string)
    requires j < |users| && users[j].clerkId == clerkId
    requires forall i :: 0 <= i < |users| && users[i].clerkId == clerkId ==>
               users[i].name == name && users[i].role == role && users[i].imageUrl == imageUrl
    ensures var r := Find(users, ClerkIdIs(clerkId));
            && r.Some? && r.value.clerkId == clerkId
            && r.value.name == name && r.value.role == role && r.value.imageUrl == imageUrl
  {
    var r := Find(users, ClerkIdIs(clerkId));
    var k :| 0 <= k < |users| && users[k] == r.value;
  }

  /** Sets the company of every user with this clerkId. */
  function SetCompanyOf(users: seq<MockUser>, clerkId: string, companyId: string): (r: seq<MockUser>)
    ensures |r| == |users|
    ensures forall i :: 0 <= i < |users| ==>
              r[i] == (if users[i].clerkId == clerkId then users[i].(companyId := Some(companyId)) else users[i])
  {
    Map(users, (u: MockUser) => if u.clerkId == clerkId then u.(companyId := Some(companyId)) else u)
  }

  /** `users.joinCompany`: never fails; with no matching user nothing changes. */
  function JoinCompany(st: MockState, clerkId: string, companyId: string): (r: (bool, MockState))
    ensures r.0
    ensures r.1 == st.(users := r.1.users)
    ensures |r.1.users| == |st.users|
    ensures forall i :: 0 <= i < |st.users| ==>
              r.1.users[i] == (if st.users[i].clerkId == clerkId then st.users[i].(companyId := Some(companyId)) else st.users[i])
    ensures (forall i :: 0 <= i < |st.users| ==> st.users[i].clerkId != clerkId) ==> r.1 == st
  {
    (true, st.(users := SetCompanyOf(st.users, clerkId, companyId)))
  }

  /** `companies.create`: spells a code from six draws of
      `Math.floor(Math.random() * 36)` with the backend's alphabet, appends a
      company under it without looking at the codes already stored, and
      moves every user with the creator's clerkId into it. Returns the new id. */
  function CreateCompany(st: MockState, name: string, creatorClerkId: string, draws: seq<nat>, now: nat)
    : (r: (string, MockState))
    requires |draws| == Companies.CodeLength
    requires forall i :: 0 <= i < |draws| ==> draws[i] < |Companies.Alphabet|
    ensures r.0 == IdAt("company_", now)
    ensures |r.1.companies| == |st.companies| + 1 && r.1.companies[..|st.companies|] == st.companies
    ensures var c := r.1.companies[|st.companies|];
            && c.id == r.0 && c.name == name
            && c.inviteCode == Companies.Spell(draws)
            && Companies.IsInviteCode(c.inviteCode)
            && forall i :: 0 <= i < Companies.CodeLength ==> c.inviteCode[i] == Companies.Alphabet[draws[i]]
    ensures r.1.users == SetCompanyOf(st.users, creatorClerkId, r.0)
    ensures r.1.sessions == st.sessions
  {
    var id := IdAt("company_", now);
    var code := Companies.Spell(draws);
    assert forall i :: 0 <= i < Companies.CodeLength ==> code[i] == Companies.Alphabet[draws[i]];
    (id, st.(companies := st.companies + [MockCompany(id, name, code)],
             users := SetCompanyOf(st.users, creatorClerkId, id)))
  }

  /** `sessions.start`: appends a running session. Returns its id. */
  function Start(st: MockState, userId: string, projectName: string, now: nat): (r: (string, MockState))
    ensures r.0 == IdAt("session_", now)
    ensures r.1 == st.(sessions := st.sessions + [MockSession(r.0, userId, projectName, now, None, None, None)])
    ensures Running(r.1.sessions[|st.sessions|])
  {
    var id := IdAt("session_", now);
    (id, st.(sessions := st.sessions + [MockSession(id, userId, projectName, now, None, None, None)]))
  }

  /** `sessions.stop`: sets the end time and the token counts exactly as
      passed (absent stays absent) on every session with this id; an unknown
      id changes nothing and does not fail. */
  function Stop(st: MockState, sessionId: string, tokensInput: Option<int>, tokensOutput: Option<int>, now: nat)
    : (r: MockState)
    ensures r == st.(sessions := r.sessions)
    ensures |r.sessions| == |st.sessions|
    ensures forall i :: 0 <= i < |st.sessions| ==>
              r.sessions[i] == (if st.sessions[i].id == sessionId
                                then st.sessions[i].(endTime := Some(now), tokensInput := tokensInput,
                                                     tokensOutput := tokensOutput)
                                else st.sessions[i])
    ensures (forall i :: 0 <= i < |st.sessions| ==> st.sessions[i].id != sessionId) ==> r == st
  {
    st.(sessions := Map(st.sessions, (s: MockSession) =>
      if s.id == sessionId then s.(endTime := Some(now), tokensInput := tokensInput, tokensOutput := tokensOutput)
      else s))
  }

  // ---------------------------------------------------------------------
  // Consequences of the clock-based ids and the missing checks
  // ---------------------------------------------------------------------

  /** Ids taken at different milliseconds differ. */
  lemma IdsFromDistinctClocksDiffer(prefix: string, t1: nat, t2: nat)
    requires t1 != t2
    ensures IdAt(prefix, t1) != IdAt(prefix, t2)
  {
    if IdAt(prefix, t1) == IdAt(prefix, t2) {
      PrefixedDecimalInjective(prefix, t1, t2);
    }
  }

  /** Two starts in the same millisecond get the same id, so stopping one of
      them stops both. */
  lemma SameMillisecondStartsShareId(st: MockState, userId: string, p1: string, p2: string, now: nat, later: nat)
    ensures var (a, st1) := Start(st, userId, p1, now);
            var (b, st2) := Start(st1, userId, p2, now);
            var st3 := Stop(st2, a, None, None, later);
            && a == b
            && !Running(st3.sessions[|st.sessions|]) == (later != 0)
            && !Running(st3.sessions[|st.sessions| + 1]) == (later != 0)
  {
  }

  /** Creating a company under a code that is already stored succeeds and
      leaves two companies with that code. */
  lemma CreateCompanyAcceptsTakenCode(st: MockState, name: string, creatorClerkId: string, k: nat, now: nat)
    requires k < |st.companies| && Companies.IsInviteCode(st.companies[k].inviteCode)
    ensures var draws := Companies.DrawsOf(st.companies[k].inviteCode);
            var (id, st') := CreateCompany(st, name, creatorClerkId, draws, now);
            && |st'.companies| == |st.companies| + 1
            && st'.companies[k].inviteCode == st'.companies[|st.companies|].inviteCode
  {
    Companies.SpellDrawsOf(st.companies[k].inviteCode);
  }
}
