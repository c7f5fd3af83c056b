/** The routing guard of the root layout (app/_layout.tsx): after the
    authentication state has loaded, it sends a visitor to sign-in, to
    onboarding or into the tabs according to whether they are signed in and
    what `users.get` returned for them. The effect is read as a pure function
    from what it observes to the route it replaces, if any. */
module Redirect {
  import opened Common
  import opened Store
  import opened Schema
  import Users
  import Companies

  /** What `useQuery(api.users.get, ...)` holds: `undefined` while loading (or
      skipped), `null` when there is no profile, else the profile, of which
      only the company matters here. */
  datatype ProfileState = Loading | NoProfile | Loaded(companyId: Option<Id>)

  /** The routes the guard can replace the current one with. */
  datatype Target = SignIn | OnboardingProfile | OnboardingCompany | Tabs

  /** `segments[i] === name`; a missing segment is `undefined` and equals
      no name. */
  predicate SegmentIs(segments: seq<string>, i: nat, name: string) {
    i < |segments| && segments[i] == name
  }

  predicate InAuthGroup(segments: seq<string>) {
    SegmentIs(segments, 0, "sign-in") || SegmentIs(segments, 0, "sign-up")
  }

  predicate InOnboardingGroup(segments: seq<string>) {
    SegmentIs(segments, 0, "onboarding")
  }

  /** The effect body: the route it replaces the current one with, or none. */
  function Decide(isLoaded: bool, isSignedIn: bool, profile: ProfileState, segments: seq<string>)
    : (r: Option<Target>)
    ensures !isLoaded ==> r.None?
    ensures isSignedIn && profile.Loading? ==> r.None?
    ensures r == Some(SignIn) <==> isLoaded && !isSignedIn && !InAuthGroup(segments)
    ensures r == Some(OnboardingProfile) <==>
              isLoaded && isSignedIn && profile.NoProfile? && !SegmentIs(segments, 1, "profile")
    ensures r == Some(OnboardingCompany) <==>
              isLoaded && isSignedIn && profile.Loaded? && profile.companyId.None?
              && !SegmentIs(segments, 1, "company")
    ensures r == Some(Tabs) <==>
              isLoaded && isSignedIn && profile.Loaded? && profile.companyId.Some?
              && (InAuthGroup(segments) || InOnboardingGroup(segments))
  {
    if !isLoaded then None
    else if !isSignedIn then
      if !InAuthGroup(segments) then Some(SignIn) else None
    else
      match profile
      case Loading => None
      case NoProfile => if !SegmentIs(segments, 1, "profile") then Some(OnboardingProfile) else None
      case Loaded(companyId) =>
        if companyId.None? then
          if !SegmentIs(segments, 1, "company") then Some(OnboardingCompany) else None
        else if InAuthGroup(segments) || InOnboardingGroup(segments) then Some(Tabs)
        else None
  }

  /** The segments of the route each target names. */
  function SegmentsOf(t: Target): (r: seq<string>)
    ensures |r| > 0
  {
    match t
    case SignIn => ["sign-in"]
    case OnboardingProfile => ["onboarding", "profile"]
    case OnboardingCompany => ["onboarding", "company"]
    case Tabs => ["(tabs)"]
  }

  /** Once the guard has redirected, running it again on the new route with
      the same state does nothing: it never redirects in a loop. */
  lemma RedirectIsStable(isSignedIn: bool, profile: ProfileState, segments: seq<string>)
    ensures var r := Decide(true, isSignedIn, profile, segments);
            r.Some? ==> Decide(true, isSignedIn, profile, SegmentsOf(r.value)).None?
  {
  }

  /** What the layout's query returns for a clerkId in a database state. */
  function ProfileOf(db: Db, clerkId: string): (r: ProfileState)
    ensures r.NoProfile? <==> Users.Get(db, clerkId).None?
    ensures r.Loaded? ==> r.companyId == Users.Get(db, clerkId).value.val.companyId
    ensures !r.Loading?
  {
    match Users.Get(db, clerkId)
    case None => NoProfile
    case Some(d) => Loaded(d.val.companyId)
  }

  /** The onboarding path: a signed-in newcomer is sent to the profile form;
      once the profile is saved, to the company step; once a company is
      created, out of onboarding into the tabs. */
  lemma OnboardingReachesTabs(db: Db, clerkId: string, name: string, role: string,
                              imageUrl: Option<string>, storageUrl: Option<string>,
                              company: string, candidates: nat -> string)
    requires Users.Get(db, clerkId).None?
    requires Companies.PickCode(db.companies, candidates, 0).Some?
    ensures Decide(true, true, ProfileOf(db, clerkId), ["(tabs)"]) == Some(OnboardingProfile)
    ensures var (_, db1) := Users.CreateProfile(db, clerkId, name, role, imageUrl, storageUrl);
            && Decide(true, true, ProfileOf(db1, clerkId), SegmentsOf(OnboardingProfile)) == Some(OnboardingCompany)
            && var r := Companies.Create(db1, company, clerkId, candidates);
               && r.result.Success?
               && Decide(true, true, ProfileOf(r.db, clerkId), SegmentsOf(OnboardingCompany)) == Some(Tabs)
  {
    var (_, db1) := Users.CreateProfile(db, clerkId, name, role, imageUrl, storageUrl);
    assert db1.companies == db.companies;
    var r := Companies.Create(db1, company, clerkId, candidates);
    Companies.CreateJoinsCreator(db1, company, clerkId, candidates);
  }
}
