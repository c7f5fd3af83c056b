/** The project registry (convex/projects.ts): projects scoped to a company.
    Sessions name their project by a copied string, so nothing here reads or
    writes the `sessions` table. */
module Projects {
  import opened Common
  import opened Store
  import opened Schema

  /** `list`: the projects of a company; no company gives no projects. */
  function List(db: Db, companyId: Option<Id>): (r: Table<Project>)
    ensures companyId.None? ==> r == []
    ensures companyId.Some? ==>
              forall d :: d in r <==> d in db.projects && d.val.companyId == companyId.value
    ensures Ascending(db.projects) ==> Ascending(r)
  {
    match companyId
    case None => []
    case Some(c) =>
      var p := (d: Doc<Project>) => d.val.companyId == c;
      FilterAscending(db.projects, p);
      Filter(db.projects, p)
  }

  /** `create`: inserts a project with exactly the given fields and returns
      its id. The company id is not checked against `companies`. */
  function Create(db: Db, name: string, companyId: Id, description: Option<string>, githubUrl: Option<string>)
    : (r: (Id, Db))
    ensures r.1.projects == db.projects + [Doc(r.0, Project(name, companyId, description, githubUrl))]
    ensures r.1 == db.(projects := r.1.projects, nextId := db.nextId + 1)
    ensures Below(db.projects, db.nextId) ==> forall i :: 0 <= i < |db.projects| ==> db.projects[i].id != r.0
    ensures Valid(db) ==> Valid(r.1)
  {
    var id := db.nextId;
    (id, db.(projects := db.projects + [Doc(id, Project(name, companyId, description, githubUrl))], nextId := id + 1))
  }

  /** `get`: the project with this id, or none. */
  function GetProject(db: Db, projectId: Id): (r: Option<Doc<Project>>)
    ensures r.Some? ==> r.value in db.projects && r.value.id == projectId
    ensures r.None? <==> forall i :: 0 <= i < |db.projects| ==> db.projects[i].id != projectId
  {
    Get(db.projects, projectId)
  }

  /** `remove`: deletes the project with this id; a missing id throws. */
  function Remove(db: Db, projectId: Id): (r: Outcome<()>)
    ensures r.result.Failure? <==> GetProject(db, projectId).None?
    ensures r.result.Failure? ==> r.result.error == DocumentNotFound && r.db == db
    ensures r.result.Success? ==>
              && r.db == db.(projects := r.db.projects)
              && forall d :: d in r.db.projects <==> d in db.projects && d.id != projectId
    ensures Valid(db) ==> Valid(r.db)
  {
    match GetProject(db, projectId)
    case None => Fail(db, DocumentNotFound)
    case Some(_) =>
      Outcome(Success(()), db.(projects := Delete(db.projects, projectId)))
  }

  /** The patch `update` applies: only the supplied fields change. */
  function Patched(p: Project, name: Option<string>, description: Option<string>, githubUrl: Option<string>)
    : (r: Project)
    ensures r.companyId == p.companyId
    ensures r.name == name.GetOr(p.name)
    ensures description.Some? ==> r.description == description
    ensures description.None? ==> r.description == p.description
    ensures githubUrl.Some? ==> r.githubUrl == githubUrl
    ensures githubUrl.None? ==> r.githubUrl == p.githubUrl
  {
    var withName := if name.Some? then p.(name := name.value) else p;
    var withDescription := if description.Some? then withName.(description := description) else withName;
    if githubUrl.Some? then withDescription.(githubUrl := githubUrl) else withDescription
  }

  /** `update`: patches the supplied fields of one project and returns it;
      a missing id throws. */
  function Update(db: Db, projectId: Id, name: Option<string>, description: Option<string>, githubUrl: Option<string>)
    : (r: Outcome<Doc<Project>>)
    ensures r.result.Failure? <==> GetProject(db, projectId).None?
    ensures r.result.Failure? ==> r.result.error == DocumentNotFound && r.db == db
    ensures r.result.Success? ==>
              && r.result.value.id == projectId
              && r.result.value.val == Patched(GetProject(db, projectId).value.val, name, description, githubUrl)
              && r.db == db.(projects := r.db.projects)
              && |r.db.projects| == |db.projects|
              && forall i :: 0 <= i < |db.projects| ==>
                   r.db.projects[i] == (if db.projects[i].id == projectId then r.result.value else db.projects[i])
    ensures Valid(db) ==> Valid(r.db)
  {
    match GetProject(db, projectId)
    case None => Fail(db, DocumentNotFound)
    case Some(d) =>
      var v := Patched(d.val, name, description, githubUrl);
      ReplaceKeyed(db.projects, db.nextId, projectId, v);
      Outcome(Success(Doc(projectId, v)), db.(projects := Replace(db.projects, projectId, v)))
  }

  // ---------------------------------------------------------------------
  // Properties relating several calls
  // ---------------------------------------------------------------------

  /** A created project can be read back, and is listed under its company. */
  lemma CreateThenGet(db: Db, name: string, companyId: Id, description: Option<string>, githubUrl: Option<string>)
    requires Valid(db)
    ensures var (id, db') := Create(db, name, companyId, description, githubUrl);
            && GetProject(db', id) == Some(Doc(id, Project(name, companyId, description, githubUrl)))
            && Doc(id, Project(name, companyId, description, githubUrl)) in List(db', Some(companyId))
  {
    var (id, db') := Create(db, name, companyId, description, githubUrl);
    GetUnique(db'.projects, id, |db.projects|);
  }

  /** After a removal the project is gone. */
  lemma RemoveThenGet(db: Db, projectId: Id)
    requires GetProject(db, projectId).Some?
    ensures var r := Remove(db, projectId);
            r.result.Success? && GetProject(r.db, projectId).None?
  {
    var r := Remove(db, projectId);
    forall i | 0 <= i < |r.db.projects|
      ensures r.db.projects[i].id != projectId
    {
      assert r.db.projects[i] in r.db.projects;
    }
  }

  /** An update that supplies no field changes nothing. */
  lemma EmptyUpdateIsIdentity(db: Db, projectId: Id)
    requires Valid(db)
    requires GetProject(db, projectId).Some?
    ensures var r := Update(db, projectId, None, None, None);
            r.result.Success? && r.db == db && r.result.value == GetProject(db, projectId).value
  {
    var r := Update(db, projectId, None, None, None);
    var d := GetProject(db, projectId).value;
    assert r.result.value == d;
    forall i | 0 <= i < |db.projects| && db.projects[i].id == projectId
      ensures db.projects[i] == d
    {
      GetUnique(db.projects, projectId, i);
    }
    assert r.db.projects == db.projects;
  }

  /** Applying the same update twice is the same as applying it once. */
  lemma UpdateIdempotent(db: Db, projectId: Id, name: Option<string>, description: Option<string>,
                         githubUrl: Option<string>)
    requires Valid(db)
    requires GetProject(db, projectId).Some?
    ensures var once := Update(db, projectId, name, description, githubUrl);
            var twice := Update(once.db, projectId, name, description, githubUrl);
            twice.result == once.result && twice.db == once.db
  {
    var once := Update(db, projectId, name, description, githubUrl);
    var k :| 0 <= k < |db.projects| && db.projects[k] == GetProject(db, projectId).value;
    GetUnique(once.db.projects, projectId, k);
    var twice := Update(once.db, projectId, name, description, githubUrl);
    assert twice.db.projects == once.db.projects;
  }
}
