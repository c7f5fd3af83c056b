/** User profiles and company membership (convex/users.ts). Every lookup goes
    through the `by_clerkId` index and takes its first match. */
module Users {
  import opened Common
  import opened Store
  import opened Schema

  /** The image stored when neither an upload nor a URL is usable. */
  const Placeholder := "https://via.placeholder.com/150"

  /** Row selector of the `by_clerkId` index. */
  function HasClerkId(clerkId: string): Doc<User> -> bool {
    (d: Doc<User>) => d.val.clerkId == clerkId
  }

  /** Position of the first user with this clerkId (`.first()` on `by_clerkId`). */
  function UserIndex(users: Table<User>, clerkId: string): (r: Option<nat>)
    ensures r.Some? ==> r.value < |users| && users[r.value].val.clerkId == clerkId
    ensures r.Some? ==> forall j :: 0 <= j < r.value ==> users[j].val.clerkId != clerkId
    ensures r.None? <==> forall j :: 0 <= j < |users| ==> users[j].val.clerkId != clerkId
  {
    FindFirst(users, HasClerkId(clerkId))
  }

  /** The first user carrying the clerkId is the one found. */
  lemma UserIndexAt(users: Table<User>, clerkId: string, k: nat)
    requires k < |users| && users[k].val.clerkId == clerkId
    requires forall j :: 0 <= j < k ==> users[j].val.clerkId != clerkId
    ensures UserIndex(users, clerkId) == Some(k)
  {
  }

  /** With unique clerkIds, the only user carrying a clerkId is the one found. */
  lemma UserIndexUnique(users: Table<User>, clerkId: string, k: nat)
    requires ClerkIdsUnique(users)
    requires k < |users| && users[k].val.clerkId == clerkId
    ensures UserIndex(users, clerkId) == Some(k)
  {
  }

  /** `get`: the first user with this clerkId, or none. */
  function Get(db: Db, clerkId: string): (r: Option<Doc<User>>)
    ensures r.Some? <==> UserIndex(db.users, clerkId).Some?
    ensures r.Some? ==> r.value == db.users[UserIndex(db.users, clerkId).value]
    ensures r.Some? ==> r.value.val.clerkId == clerkId
  {
    match UserIndex(db.users, clerkId)
    case None => None
    case Some(k) => Some(db.users[k])
  }

  /** `getTeamMembers`: every user whose company is `companyId`. */
  function GetTeamMembers(db: Db, companyId: Id): (r: Table<User>)
    ensures forall d :: d in r <==> d in db.users && d.val.companyId == Some(companyId)
    ensures Ascending(db.users) ==> Ascending(r)
  {
    var p := (d: Doc<User>) => d.val.companyId == Some(companyId);
    FilterAscending(db.users, p);
    Filter(db.users, p)
  }

  /** The `imageUrl` stored by `createProfile`: the resolved upload URL if
      there is one, else the supplied URL, else the placeholder. `storageUrl`
      is what the file storage returned for the supplied storageId (absent
      when no storageId was given or it resolved to null). Empty strings are
      falsy in `||`, so they are skipped too. */
  function FinalImageUrl(imageUrl: Option<string>, storageUrl: Option<string>): (r: string)
    ensures r != ""
    ensures Truthy(storageUrl) ==> r == storageUrl.value
    ensures !Truthy(storageUrl) && Truthy(imageUrl) ==> r == imageUrl.value
    ensures !Truthy(storageUrl) && !Truthy(imageUrl) ==> r == Placeholder
  {
    var fallback := if Truthy(imageUrl) then imageUrl.value else Placeholder;
    if Truthy(storageUrl) then storageUrl.value else fallback
  }

  /** Patches the company of the first user with this clerkId; the shared
      write of `joinCompany`, `leaveCompany` and `companies.create`. */
  function WithCompany(users: Table<User>, clerkId: string, companyId: Option<Id>): (r: Table<User>)
    ensures |r| == |users|
    ensures forall i :: 0 <= i < |users| ==>
              r[i] == (if UserIndex(users, clerkId) == Some(i)
                       then Doc(users[i].id, users[i].val.(companyId := companyId))
                       else users[i])
    ensures forall n :: Keyed(users, n) ==> Keyed(r, n)
    ensures ClerkIdsUnique(users) ==> ClerkIdsUnique(r)
  {
    match UserIndex(users, clerkId)
    case None => users
    case Some(k) => users[k := Doc(users[k].id, users[k].val.(companyId := companyId))]
  }

  /** `createProfile`: an upsert keyed by clerkId. An existing user gets the
      new name, role and image and keeps its id and company; otherwise a user
      without company is inserted. Returns the user's id. */
  function CreateProfile(db: Db, clerkId: string, name: string, role: string,
                         imageUrl: Option<string>, storageUrl: Option<string>): (r: (Id, Db))
    ensures var url := FinalImageUrl(imageUrl, storageUrl);
            match UserIndex(db.users, clerkId)
            case Some(k) =>
              && r.0 == db.users[k].id
              && r.1 == db.(users := db.users[k := Doc(r.0, User(clerkId, name, role, url, db.users[k].val.companyId))])
            case None =>
              && r.0 == db.nextId
              && r.1 == db.(users := db.users + [Doc(r.0, User(clerkId, name, role, url, None))], nextId := db.nextId + 1)
    ensures var back := Get(r.1, clerkId);
            && back.Some? && back.value.id == r.0
            && back.value.val.name == name && back.value.val.role == role
            && back.value.val.imageUrl == FinalImageUrl(imageUrl, storageUrl)
    ensures Valid(db) ==> Valid(r.1)
  {
    var url := FinalImageUrl(imageUrl, storageUrl);
    match UserIndex(db.users, clerkId)
    case Some(k) =>
      var id := db.users[k].id;
      var u := User(clerkId, name, role, url, db.users[k].val.companyId);
      var users := db.users[k := Doc(id, u)];
      assert forall j :: 0 <= j < k ==> users[j] == db.users[j];
      UserIndexAt(users, clerkId, k);
      PatchKeepsValid(db, k, u);
      (id, db.(users := users))
    case None =>
      var u := User(clerkId, name, role, url, None);
      var users := db.users + [Doc(db.nextId, u)];
      assert forall j :: 0 <= j < |db.users| ==> users[j] == db.users[j];
      UserIndexAt(users, clerkId, |db.users|);
      AppendKeepsValid(db, u);
      (db.nextId, db.(users := users, nextId := db.nextId + 1))
  }

  /** Rewriting a user's fields under the same clerkId keeps the invariant. */
  lemma PatchKeepsValid(db: Db, k: nat, u: User)
    requires k < |db.users| && u.clerkId == db.users[k].val.clerkId
    ensures Valid(db) ==> Valid(db.(users := db.users[k := Doc(db.users[k].id, u)]))
  {
  }

  /** Appending a user under a fresh id and an unused clerkId keeps the
      invariant. */
  lemma AppendKeepsValid(db: Db, u: User)
    requires forall j :: 0 <= j < |db.users| ==> db.users[j].val.clerkId != u.clerkId
    ensures Valid(db) ==> Valid(db.(users := db.users + [Doc(db.nextId, u)], nextId := db.nextId + 1))
  {
  }

  /** `joinCompany`: sets the company of the user with this clerkId, or throws
      "User not found". The company id is not checked against `companies`. */
  function JoinCompany(db: Db, clerkId: string, companyId: Id): (r: Outcome<Id>)
    ensures r.result.Failure? <==> UserIndex(db.users, clerkId).None?
    ensures r.result.Failure? ==> r.result.error == UserNotFound && r.db == db
    ensures r.result.Success? ==>
              var k := UserIndex(db.users, clerkId).value;
              && r.result.value == db.users[k].id
              && r.db == db.(users := db.users[k := Doc(db.users[k].id, db.users[k].val.(companyId := Some(companyId)))])
    ensures Valid(db) ==> Valid(r.db)
  {
    match UserIndex(db.users, clerkId)
    case None => Fail(db, UserNotFound)
    case Some(k) => Outcome(Success(db.users[k].id), db.(users := WithCompany(db.users, clerkId, Some(companyId))))
  }

  /** `leaveCompany`: clears the company of the user with this clerkId, or
      throws "User not found". Sessions are not touched. */
  function LeaveCompany(db: Db, clerkId: string): (r: Outcome<Id>)
    ensures r.result.Failure? <==> UserIndex(db.users, clerkId).None?
    ensures r.result.Failure? ==> r.result.error == UserNotFound && r.db == db
    ensures r.result.Success? ==>
              var k := UserIndex(db.users, clerkId).value;
              && r.result.value == db.users[k].id
              && r.db == db.(users := db.users[k := Doc(db.users[k].id, db.users[k].val.(companyId := None))])
    ensures Valid(db) ==> Valid(r.db)
  {
    match UserIndex(db.users, clerkId)
    case None => Fail(db, UserNotFound)
    case Some(k) => Outcome(Success(db.users[k].id), db.(users := WithCompany(db.users, clerkId, None)))
  }

  /** Joining and then leaving returns the user to no company, with every
      other field and every other row as before. */
  lemma JoinThenLeave(db: Db, clerkId: string, companyId: Id)
    requires UserIndex(db.users, clerkId).Some?
    ensures var joined := JoinCompany(db, clerkId, companyId);
            var left := LeaveCompany(joined.db, clerkId);
            var k := UserIndex(db.users, clerkId).value;
            && joined.result.Success? && left.result.Success?
            && left.result.value == joined.result.value
            && left.db == db.(users := db.users[k := Doc(db.users[k].id, db.users[k].val.(companyId := None))])
  {
    var k := UserIndex(db.users, clerkId).value;
    var joined := JoinCompany(db, clerkId, companyId);
    assert forall j :: 0 <= j < |db.users| && j != k ==> joined.db.users[j] == db.users[j];
    assert UserIndex(joined.db.users, clerkId) == Some(k);
  }

  /** After leaving, the user is no longer among its former company's team,
      and the sessions table is exactly as before. */
  lemma LeaveRemovesFromTeam(db: Db, clerkId: string, companyId: Id)
    requires ClerkIdsUnique(db.users)
    requires UserIndex(db.users, clerkId).Some?
    ensures var left := LeaveCompany(db, clerkId);
            && left.db.sessions == db.sessions
            && forall d :: d in GetTeamMembers(left.db, companyId) ==> d.val.clerkId != clerkId
  {
    var k := UserIndex(db.users, clerkId).value;
    var left := LeaveCompany(db, clerkId);
    forall d | d in GetTeamMembers(left.db, companyId)
      ensures d.val.clerkId != clerkId
    {
      var i :| 0 <= i < |left.db.users| && left.db.users[i] == d;
      if i != k {
        assert d == db.users[i];
      }
    }
  }
}
