# Protoduct time-tracking core in Dafny

This project models the backend of Protoduct, a team time-tracking app. The
backend is a set of Convex handlers over four tables:

- `users`: profiles keyed by their Clerk id;
- `companies`: organisations, each joined through a six-character invite code;
- `projects`: projects owned by a company;
- `sessions`: tracked units of work, `active` until stopped, then `completed`.

The model also covers two pieces of the client:

- the in-memory mock of the same handlers that the app runs against in
  development (`app/mocks/convex.tsx`);
- the root layout's onboarding redirect rule (`app/_layout.tsx`).

Every handler is a pure function from a database state, its arguments and
the non-deterministic inputs to its result and the new state:

- `now` stands for `Date.now()`;
- a candidate-code stream stands for `Math.random()`;
- the window cutoff stands for local-midnight arithmetic;
- the resolved storage URL stands for `ctx.storage.getUrl`.

A table is the sequence of its documents in creation order, so:

- `.first()` is the first match;
- `.order('desc')` is the reverse of the index range.

Ids come from one counter (`Db.nextId`). A handler that throws returns a
`Failure` together with the unchanged state, because a Convex mutation that
throws commits nothing. `Schema.Valid` is the invariant the mutations keep:

- ids ascend and lie below the counter;
- `endTime` is present exactly when `status` is `completed`;
- clerkIds are unique;
- invite codes are unique.

The files and modules:

- `common.dfy` (Common): option and result types, JavaScript truthiness,
  and sequence helpers (filter, map, first match, reverse, take, de-duplication,
  ASCII case mapping, decimal rendering).
- `store.dfy` (Store): documents, ids, and `get`/`patch`/`delete`.
- `schema.dfy` (Schema): the four record types, the errors and `Valid`.
- `sessions.dfy`, `companies.dfy`, `users.dfy`, `projects.dfy`, `debug.dfy`:
  one module per backend file.
- `mock_store.dfy` (MockStore): the mock's query and mutation cases.
- `correspondence.dfy` (Correspondence): relates the mock to the backend.
  A backend state is seen as a mock state by renaming ids through an
  injective `name` and dropping `status`. Under that view, the `...Agrees`
  lemmas say when the two implementations coincide, and the `...Diverges`
  lemmas exhibit where they do not.
- `redirect.dfy` (Redirect): the routing guard.

## Model

| member | source | states |
|---|---|---|
| Sessions.GetActive | convex/sessions.ts:5-13 | exactly the sessions of that user whose status is active, in creation order |
| Sessions.GetAllActive | convex/sessions.ts:16-25 | exactly the active sessions of every user, in creation order |
| Sessions.Start | convex/sessions.ts:28-43 | appends one active session with the given user, project and `startTime = now`, with no end time or tokens and a fresh id; every other session and table is unchanged; `Valid` is preserved |
| Sessions.StartTwiceGivesTwoActive | convex/sessions.ts:33-41 | two starts for the same user and project give two distinct active sessions, so the user's active count grows by two |
| Sessions.Stop | convex/sessions.ts:46-62 | fails exactly when the id is not stored, and then changes nothing; otherwise sets end time `now`, status completed and tokens as supplied or 0, keeps user, project and start time, and touches no other session; `Valid` is preserved |
| Sessions.StopTwiceLastWriteWins | convex/sessions.ts:53-58 | stopping a completed session is not rejected; the second call's end time and token counts replace the first's |
| Sessions.StopThenGet | convex/sessions.ts:53-60 | the stopped session reads back with the supplied token counts and an end time not before its start |
| Sessions.GetRecentProjects | convex/sessions.ts:65-80 | no duplicates, at most 50 names, exactly the project names of the user's 50 newest sessions, in order of first occurrence in the newest-first scan |
| Sessions.List | convex/sessions.ts:83-95 | `min(limit, n)` sessions (default limit 10), all of that user, newest first; every session of the user that is left out is older than all returned ones |
| Sessions.SessionsSince | convex/sessions.ts:98-126 | exactly the user's sessions that started at or after the cutoff, in creation order |
| Sessions.GetCompanySessions | convex/sessions.ts:129-148 | exactly the completed sessions of listed members that started at or after the cutoff, each as often as it is stored; ascending ids in, ascending ids out; under the invariant each has an end time |
| Companies.GenerateInviteCode | convex/companies.ts:5-12 | the code has six characters from A-Z0-9, and character i is the alphabet letter of draw i |
| Companies.DrawsOf | convex/companies.ts:5-12 | for every code of that shape, the draws it returns are in range and make the generator produce that code, so the generator reaches the whole code space |
| Companies.Spell | convex/companies.ts:5-12 | one character per draw; six in-range draws spell a six-character code over A-Z0-9 |
| Companies.SpellDrawsOf | convex/companies.ts:5-12 | spelling the draws recovered from a well-formed code gives that code back |
| Companies.GetByInviteCode | convex/companies.ts:15-23 | a company stored under the upper-cased code with no earlier company under that code, or none exactly when no company uses it |
| Companies.LowerCaseLookupFindsCompany | convex/companies.ts:20 | the lower-case form of a stored code finds that very company when codes are unique |
| Companies.GetCompany | convex/companies.ts:26-31 | the company with that id, or none exactly when no company has it |
| Companies.PickCode | convex/companies.ts:45-57 | the first of the remaining attempts whose candidate is unused; none exactly when every remaining candidate is taken |
| Companies.Create | convex/companies.ts:34-79 | fails exactly when all ten candidates are taken, and then changes nothing; otherwise appends the company under an unused code, moves the creator into it, and leaves projects and sessions alone; `Valid` is preserved, so codes stay unique |
| Companies.CreateDrawsAtMostTen | convex/companies.ts:45-57 | two candidate streams that agree on their first ten codes give the same outcome |
| Companies.CreateStoresWellFormedCode | convex/companies.ts:47-65 | when the candidates are well-formed codes, the stored code is one |
| Companies.CreateJoinsCreator | convex/companies.ts:67-77 | an existing creator ends up in the new company with its other fields unchanged; without such a user no user changes |
| Users.Get | convex/users.ts:5-13 | the first user with that clerkId, or none exactly when there is no such user |
| Users.UserIndexUnique | convex/users.ts:8-11 | with unique clerkIds, the first match is the only user carrying that clerkId |
| Users.GetTeamMembers | convex/users.ts:16-24 | exactly the users whose company is the given one, in creation order |
| Users.FinalImageUrl | convex/users.ts:41-44 | never empty; the resolved upload URL if truthy, else the supplied URL if truthy, else the placeholder |
| Users.CreateProfile | convex/users.ts:32-69 | an existing user gets the new name, role and image and keeps its id and company; otherwise one user without company is appended; reading back gives the saved fields; `Valid` is preserved, so clerkIds stay unique |
| Users.JoinCompany | convex/users.ts:72-93 | throws "User not found" with no change exactly when no user has the clerkId; otherwise sets only that user's company and returns its id |
| Users.LeaveCompany | convex/users.ts:96-116 | throws "User not found" with no change exactly when no user has the clerkId; otherwise clears only that user's company |
| Users.JoinThenLeave | convex/users.ts:87-114 | join then leave gives the same id and leaves the user unaffiliated with every other field and row as before |
| Users.LeaveRemovesFromTeam | convex/users.ts:110-112 | after leaving, the user is not among the former company's team members, and sessions are untouched |
| Projects.List | convex/projects.ts:4-14 | no company gives no projects; otherwise exactly that company's projects, in creation order |
| Projects.Create | convex/projects.ts:16-31 | appends one project with exactly the given fields and a fresh id; other tables are unchanged |
| Projects.CreateThenGet | convex/projects.ts:23-30 | a created project reads back by id and is listed under its company |
| Projects.Remove | convex/projects.ts:33-38 | fails with no change exactly when the id is missing; otherwise removes only that project and leaves sessions and every other table alone |
| Projects.RemoveThenGet | convex/projects.ts:36 | after removal the project is not found |
| Projects.Patched | convex/projects.ts:48-49 | supplied fields take the new value; omitted fields and the company keep the old one |
| Projects.Update | convex/projects.ts:40-52 | fails with no change exactly when the id is missing; otherwise patches only that project and returns it |
| Projects.EmptyUpdateIsIdentity | convex/projects.ts:47-50 | an update that supplies no field changes nothing |
| Projects.UpdateIdempotent | convex/projects.ts:47-50 | applying the same update twice equals applying it once |
| Projects.GetProject | convex/projects.ts:54-59 | the project with that id, or none exactly when no project has it |
| Schema.EmptyValid | convex/schema.ts:4-38 | the empty database satisfies the invariant |
| Debug.CreateFakeSession | convex/debug.ts:3-22 | with no users, reports so and changes nothing; otherwise appends one completed session of the first user, with an end time after its start; `Valid` is preserved |
| MockStore.GetUser | app/mocks/convex.tsx:137-139 | null for a falsy clerkId; otherwise the first user with that clerkId, or null when there is none |
| MockStore.GetCompany | app/mocks/convex.tsx:142-144 | null for a falsy id; otherwise the first company with that id, or null when there is none |
| MockStore.GetByInviteCode | app/mocks/convex.tsx:146-148 | null for a falsy code; otherwise the first company stored under the upper-cased code, or null when there is none |
| MockStore.GetActive | app/mocks/convex.tsx:151-153 | null for a falsy user; otherwise exactly that user's sessions without a truthy end time, each as often as it is stored |
| MockStore.GetAllActive | app/mocks/convex.tsx:155-156 | exactly the sessions without a truthy end time, each as often as it is stored |
| MockStore.SessionsSince | app/mocks/convex.tsx:158-173 | null for a falsy user; otherwise exactly that user's sessions started at or after the cutoff, each as often as it is stored |
| MockStore.SortByStartDesc | app/mocks/convex.tsx:180 | the result is sorted by start time, latest first, and is a permutation of the input |
| MockStore.SortOfIncreasingIsReverse | app/mocks/convex.tsx:180 | sessions stored in strictly increasing start order come out exactly reversed |
| MockStore.List | app/mocks/convex.tsx:175-181 | null for a falsy user; otherwise a prefix of that user's sessions sorted latest start first, of length `min(limit, n)` with limit 20 when absent or 0, and `max(n + limit, 0)` for a negative limit |
| MockStore.ListKeepsLatest | app/mocks/convex.tsx:175-181 | the returned sessions are drawn from the user's without extra repeats, and every session of the user that is left out started no later than every returned one |
| MockStore.CreateProfile | app/mocks/convex.tsx:197-218 | users with the clerkId get the new name, role and image and keep id and company, and the first one's id is returned; otherwise a user without company is appended under `user_<now>` |
| MockStore.JoinCompany | app/mocks/convex.tsx:220-226 | always reports success; sets the company of every user with the clerkId, and changes nothing when none match |
| MockStore.CreateProfileThenGet | app/mocks/convex.tsx:197-218 | right after a save under a non-empty clerkId, `users.get` finds a user with that clerkId carrying the saved name, role and image |
| MockStore.CreateCompany | app/mocks/convex.tsx:229-253 | appends a company whose code is spelled from six draws, so it has six characters from A-Z0-9, without checking that the code is unused; moves every user with the creator's clerkId into it; returns `company_<now>` |
| MockStore.CreateCompanyAcceptsTakenCode | app/mocks/convex.tsx:231-243 | when the draws spell a code that is already stored, that code is stored a second time |
| MockStore.Start | app/mocks/convex.tsx:256-266 | appends a running session with id `session_<now>`, started at `now` |
| MockStore.Stop | app/mocks/convex.tsx:268-282 | every session with the id gets end time `now` and the token fields exactly as passed; others are unchanged; an unknown id changes nothing |
| MockStore.IdsFromDistinctClocksDiffer | app/mocks/convex.tsx:238 | ids taken at different milliseconds differ |
| MockStore.SameMillisecondStartsShareId | app/mocks/convex.tsx:259 | two starts in the same millisecond share an id, so one stop ends both |
| Correspondence.RunningIffActive | app/mocks/convex.tsx:153 | for a consistent session that did not end at 0, the mock's "no end time" is the backend's "active" |
| Correspondence.ZeroEndDiverges | app/mocks/convex.tsx:156 | a completed session that ended at epoch 0 still counts as running in the mock |
| Correspondence.GetAllActiveAgrees | app/mocks/convex.tsx:155-156 | under the session invariant and when no session ended at epoch 0, the mock's running sessions are the view of the backend's active ones |
| Correspondence.GetActiveAgrees | app/mocks/convex.tsx:151-153 | the same for one non-empty user id |
| Correspondence.SessionsSinceAgrees | app/mocks/convex.tsx:161-165 | given the same cutoff, as `getToday` computes on both sides, the mock's windowed sessions are the view of the backend's |
| Correspondence.WeekWindowDiverges | app/mocks/convex.tsx:166-172 | a session of the user that started after the backend's week cutoff (midnight seven days back) but before the mock's (now minus seven days) is in the backend's week and missing from the mock's |
| Correspondence.WeekWindowNarrower | app/mocks/convex.tsx:166-172 | when the mock's week cutoff is not earlier than the backend's, every session in the mock's week is the view of one in the backend's week |
| Correspondence.ListAgrees | app/mocks/convex.tsx:175-181 | with a positive limit and start times that follow creation order, the mock's sort by start gives the backend's newest-first history |
| Correspondence.ListDefaultDiverges | app/mocks/convex.tsx:181 | without a limit, the mock returns more sessions than the backend once a user has more than 10 |
| Correspondence.GetUserAgrees | app/mocks/convex.tsx:137-139 | the mock finds the view of the user the backend finds |
| Correspondence.GetCompanyAgrees | app/mocks/convex.tsx:142-144 | under an injective naming, the mock's lookup by the name of an id finds the view of the company the backend's `get` finds |
| Correspondence.GetByInviteCodeAgrees | app/mocks/convex.tsx:146-148 | the mock finds the view of the company the backend finds |
| Correspondence.StartAgrees | app/mocks/convex.tsx:256-266 | when the clock id names the backend's new id, both starts reach the same state and return the same id |
| Correspondence.StopAgrees | app/mocks/convex.tsx:268-282 | with both token counts supplied, both stops reach the same state |
| Correspondence.StopAgreesAt | app/mocks/convex.tsx:271-279 | row by row, the session the mock patches is the view of the session the backend patches |
| Correspondence.StopWithoutTokensDiverges | app/mocks/convex.tsx:276-277 | without token counts the backend stores 0 and the mock leaves them absent |
| Correspondence.StopMissingDiverges | app/mocks/convex.tsx:270-281 | for an unknown id the backend throws, while the mock changes nothing |
| Correspondence.JoinAgrees | app/mocks/convex.tsx:220-226 | for an existing user with unique clerkIds, both joins reach the same state |
| Correspondence.JoinMissingUserDiverges | app/mocks/convex.tsx:220-226 | for an unknown user the backend throws "User not found" while the mock reports success and changes nothing |
| Correspondence.CreateProfileAgrees | app/mocks/convex.tsx:197-218 | with a non-empty image URL and no upload, both upserts reach the same state and return the same user |
| Correspondence.CreateProfileExistingAgrees | app/mocks/convex.tsx:199-205 | for a clerkId that is already stored, both sides patch the same one user and return its id |
| Correspondence.CreateProfileNewAgrees | app/mocks/convex.tsx:199-217 | for a new clerkId whose clock id names the backend's new id, both sides append the same user |
| Correspondence.PatchAgrees | app/mocks/convex.tsx:204 | with unique clerkIds, patching the first matching user is the mock's merge into every matching user |
| Correspondence.CreateProfileEmptyImageDiverges | app/mocks/convex.tsx:213 | with an empty image URL the backend stores the placeholder and the mock stores the empty string |
| Correspondence.CreateCompanyAgrees | app/mocks/convex.tsx:229-253 | when the mock's draws spell the code the backend settled on, both creates reach the same state and return the same id |
| Correspondence.SetCompanyOfAgrees | app/mocks/convex.tsx:246-250 | with unique clerkIds, the mock's "set the company of every matching user" is the backend's patch of the first matching user |
| Correspondence.TakenCodeDiverges | app/mocks/convex.tsx:231-243 | the backend never stores a code already in use, while the mock does |
| Correspondence.DocNameInjective | app/mocks/convex.tsx:238 | `doc_` plus the decimal id is an injective naming, so the agreement lemmas' injectivity requirement can be met; the clock-id premises of the start and create lemmas are not met by this naming |
| Redirect.Decide | app/_layout.tsx:95-123 | no redirect before auth loads or while the profile loads; sign-in exactly for signed-out users outside sign-in/sign-up; profile onboarding exactly for a missing profile off the profile step; company onboarding exactly for a profile without company off the company step; the tabs exactly for a full profile inside the auth or onboarding group |
| Redirect.RedirectIsStable | app/_layout.tsx:101-121 | after a redirect, the rule applied on the target route with the same state does nothing |
| Redirect.ProfileOf | app/_layout.tsx:90 | the profile state is "no profile" exactly when the backend's `get` finds no user, else that user's company |
| Redirect.OnboardingReachesTabs | app/_layout.tsx:106-120 | a newcomer is sent to profile setup, then after saving the profile to company setup, then after creating a company into the tabs |

## Left out

- `users.generateUploadUrl` and `ctx.storage.getUrl` are foreign storage calls. The URL that `getUrl` resolves is the `storageUrl` parameter of `Users.CreateProfile`.
- `Date.now()` is the `now` parameter. `Math.random()` is a parameter too: `draws` for `Companies.GenerateInviteCode` and `MockStore.CreateCompany`, and the candidate stream for `Companies.Create`.
- Debug.CreateFakeSession: convex/debug.ts:16-17 reads `Date.now()` twice; the model reads one `now` for both, so the two readings cannot drift apart. MockStore.Start does the same for app/mocks/convex.tsx:259 and 262, so its id and start time always share the millisecond.
- JavaScript numbers (times, token counts, limits) are modelled as unbounded `int`; double-precision rounding is not modelled.
- Local-midnight and `setDate` calendar arithmetic is replaced by a `cutoff` parameter in `SessionsSince` and `GetCompanySessions`, because it depends on the time zone.
- Concurrency and Convex's transaction isolation are left out. Each mutation is one atomic step, so the invite-code read-then-insert race and racing stops are not modelled.
- `Common.Upper` maps ASCII letters only. JavaScript's `toUpperCase` also maps non-ASCII letters; generated codes are ASCII.
- Sessions.List: the limit is a natural number. Negative or fractional limits passed to Convex's `take` are not modelled.
- MockStore.SortByStartDesc: the sort is stable, like `Array.prototype.sort`, but the contract does not state stability. It states sortedness and permutation.
- MockStore.CreateProfile: the id returned for an existing user assumes React runs the `setUsers` updater before the handler returns. If the updater runs later, the handler returns `user_<now>` instead.
- The mock's seed data, its React context and global sync, and the `console.warn` fallback for unknown names (app/mocks/convex.tsx:1-128, 183-186, 284-286) are left out. They are wiring, not store logic.
- The rest of app/_layout.tsx (fonts, splash screen, token cache) is left out. It is UI and foreign I/O.
- Per-day grouping, team ranking and duration formatting are left out. None of the modelled files implements them.
- The behaviour of `ctx.db.patch` and `ctx.db.delete` on a missing id is an assumption. The handlers do not check for it, and Convex's store is not part of this model. The model assumes that either call throws, giving `DocumentNotFound`.
- Sessions.List: sessions are ordered by creation, newest first, which is what `.order('desc')` on the `by_user` index does (convex/sessions.ts:88-93); the history is not sorted by `startTime`. The two orders coincide when start times follow creation order, as `Correspondence.ListAgrees` assumes.
- No handler validates names, URLs or the shape of an invite code before storing them, so the model has no validation error.
- Correspondence.SessionsSinceAgrees: states agreement for one shared cutoff only. That fits `getToday`, where both sides use local midnight. For `getWeek` the backend uses midnight seven days back (convex/sessions.ts:121-123) and the mock uses now minus seven days without resetting the hour (app/mocks/convex.tsx:168-169). The two windows differ, as `Correspondence.WeekWindowDiverges` shows.
