/** The four tables of the backend and the invariants every reachable
    database state keeps (convex/schema.ts). */
module Schema {
  import opened Common
  import opened Store

  /** `users`: one row per signed-up person. `clerkId` is the external
      identity; `companyId` is absent while the user belongs to no company. */
  datatype User = User(
    clerkId: string,
    name: string,
    role: string,
    imageUrl: string,
    companyId: Option<Id>)

  /** `companies`: an organisation and the code used to join it. */
  datatype Company = Company(name: string, inviteCode: string)

  /** `projects`: a named project, always owned by exactly one company. */
  datatype Project = Project(
    name: string,
    companyId: Id,
    description: Option<string>,
    githubUrl: Option<string>)

  /** The two values of a session's `status` union. */
  datatype Status = Active | Completed

  /** `sessions`: one tracked unit of work. `userId` holds the user's clerkId
      and `projectName` is a copy of the project's name, not a reference to a
      `projects` row. Times are epoch milliseconds. */
  datatype Session = Session(
    userId: string,
    startTime: int,
    endTime: Option<int>,
    projectName: string,
    tokensInput: Option<int>,
    tokensOutput: Option<int>,
    status: Status)

  /** The whole database; `nextId` is the id the next insert receives. */
  datatype Db = Db(
    users: Table<User>,
    companies: Table<Company>,
    projects: Table<Project>,
    sessions: Table<Session>,
    nextId: Id)

  /** What a handler throws. */
  datatype Error =
    | UserNotFound          // users.ts: `throw new Error('User not found')`
    | DocumentNotFound      // Convex: patch/delete of an id that is not stored
    | InviteCodeExhausted   // companies.ts: 'Failed to generate unique invite code'

  /** A mutation's result and the state after it. A Convex mutation that
      throws commits nothing, so a failure comes with the unchanged state. */
  datatype Outcome<T> = Outcome(result: Result<T, Error>, db: Db)

  function Fail<T>(db: Db, e: Error): Outcome<T> {
    Outcome(Failure(e), db)
  }

  /** The session invariant: an end time is present exactly when the
      session is completed. */
  predicate Consistent(s: Session) {
    s.endTime.Some? <==> s.status == Completed
  }

  predicate SessionsConsistent(t: Table<Session>) {
    forall i :: 0 <= i < |t| ==> Consistent(t[i].val)
  }

  /** At most one user per clerkId. */
  predicate ClerkIdsUnique(t: Table<User>) {
    forall i, j :: 0 <= i < j < |t| ==> t[i].val.clerkId != t[j].val.clerkId
  }

  /** At most one company per invite code. */
  predicate InviteCodesUnique(t: Table<Company>) {
    forall i, j :: 0 <= i < j < |t| ==> t[i].val.inviteCode != t[j].val.inviteCode
  }

  /** The invariant of every state the mutations can reach from the empty
      database. */
  predicate Valid(db: Db) {
    && Keyed(db.users, db.nextId)
    && Keyed(db.companies, db.nextId)
    && Keyed(db.projects, db.nextId)
    && Keyed(db.sessions, db.nextId)
    && SessionsConsistent(db.sessions)
    && ClerkIdsUnique(db.users)
    && InviteCodesUnique(db.companies)
  }

  const Empty := Db([], [], [], [], 0)

  lemma EmptyValid()
    ensures Valid(Empty)
  {
  }
}
