/** ProjectController: every project belongs to the member who created it,
    and reading, renaming or deleting one is gated on the caller owning it.
    The owner is kept as the owning member's id. */
module Projects {
  import opened Common
  import Members

  datatype Project = Project(
    id: int, name: Option<string>, description: Option<string>, ownerId: int, createdAt: int)

  /** The projects table in insertion order, and the next identity value. */
  datatype ProjectStore = ProjectStore(rows: seq<Project>, nextId: int)

  /** The request body of create and update; the owner it may carry is never used. */
  datatype ProjectPayload = ProjectPayload(name: Option<string>, description: Option<string>, ownerId: Option<int>)

  const MemberMissing := "Member not found"
  const MemberMissingZh := "錯誤：找不到會員"
  const ProjectMissing := "錯誤：找不到專案"
  const NoRightToUpdate := "錯誤：您沒有權限修改此專案"
  const NoRightToDelete := "錯誤：您沒有權限刪除此專案"

  /** Identities are distinct and below the next identity value. */
  ghost predicate Valid(ps: ProjectStore) {
    && (forall i :: 0 <= i < |ps.rows| ==> ps.rows[i].id < ps.nextId)
    && (forall i, j :: 0 <= i < j < |ps.rows| ==> ps.rows[i].id != ps.rows[j].id)
  }

  /** `findByMemberId`: the rows owned by `ownerId`, each exactly once
      per occurrence in the table (the query has no ORDER BY). */
  function OwnedBy(rows: seq<Project>, ownerId: int): (r: seq<Project>)
    ensures forall p :: multiset(r)[p] == if p.ownerId == ownerId then multiset(rows)[p] else 0
    ensures forall p :: p in r <==> p in rows && p.ownerId == ownerId
  {
    Filter(rows, (p: Project) => p.ownerId == ownerId)
  }

  /** `projectRepository.findById`. */
  function FindById(ps: ProjectStore, id: int): (r: Option<nat>)
    ensures r.Some? ==> r.value < |ps.rows| && ps.rows[r.value].id == id
    ensures r.None? <==> forall i :: 0 <= i < |ps.rows| ==> ps.rows[i].id != id
  {
    FirstIndex(ps.rows, (p: Project) => p.id == id)
  }

  /** The caller's member id, looked up from the principal's email. */
  function CallerId(members: Members.MemberStore, email: string): (r: Option<int>)
    requires Members.Valid(members)
    ensures r.None? <==> forall i :: 0 <= i < |members.rows| ==> members.rows[i].email != email
    ensures forall i :: 0 <= i < |members.rows| && members.rows[i].email == email ==> r == Some(members.rows[i].id)
  {
    match Members.FindByEmail(members, email)
    case Unique(i) => Some(members.rows[i].id)
    case _ => None
  }

  /** `getAllProjects`: exactly the caller's projects. */
  function GetAllProjects(members: Members.MemberStore, ps: ProjectStore, email: string): (r: Response<seq<Project>>)
    requires Members.Valid(members)
    ensures CallerId(members, email).None? ==> r == Thrown(Runtime(MemberMissing))
    ensures CallerId(members, email).Some? ==>
      && r.Ok?
      && forall p :: multiset(r.body)[p] == if p.ownerId == CallerId(members, email).value then multiset(ps.rows)[p] else 0
  {
    match CallerId(members, email)
    case None => Thrown(Runtime(MemberMissing))
    case Some(owner) => Ok(OwnedBy(ps.rows, owner))
  }

  /** `createProject`: a new row owned by the caller, whatever owner the
      payload names. */
  function CreateProject(members: Members.MemberStore, ps: ProjectStore, email: string, payload: ProjectPayload, now: int)
    : (r: (ProjectStore, Response<Project>))
    requires Members.Valid(members)
    ensures CallerId(members, email).None? ==> r == (ps, Thrown(Runtime(MemberMissing)))
    ensures CallerId(members, email).Some? ==>
      && r.1.Ok?
      && r.1.body.ownerId == CallerId(members, email).value
      && r.1.body.name == payload.name && r.1.body.description == payload.description
      && r.1.body.id == ps.nextId && r.1.body.createdAt == now
      && r.0 == ProjectStore(ps.rows + [r.1.body], ps.nextId + 1)
    ensures Valid(ps) ==> Valid(r.0)
  {
    match CallerId(members, email)
    case None => (ps, Thrown(Runtime(MemberMissing)))
    case Some(owner) =>
      var p := Project(ps.nextId, payload.name, payload.description, owner, now);
      (ProjectStore(ps.rows + [p], ps.nextId + 1), Ok(p))
  }

  /** The project with this id exists and belongs to `owner`. */
  predicate Owns(ps: ProjectStore, id: int, owner: int) {
    exists i :: 0 <= i < |ps.rows| && ps.rows[i].id == id && ps.rows[i].ownerId == owner
  }

  /** `getProjectById`: the project, only for its owner; not-found otherwise. */
  function GetProjectById(members: Members.MemberStore, ps: ProjectStore, email: string, id: int): (r: Response<Project>)
    requires Members.Valid(members) && Valid(ps)
    ensures CallerId(members, email).None? ==> r == Thrown(Runtime(MemberMissing))
    ensures CallerId(members, email).Some? ==>
      && (r.Ok? || r == NotFound)
      && (r.Ok? <==> Owns(ps, id, CallerId(members, email).value))
      && (r.Ok? ==> r.body in ps.rows && r.body.id == id)
  {
    match CallerId(members, email)
    case None => Thrown(Runtime(MemberMissing))
    case Some(owner) =>
      match FindById(ps, id)
      case None => NotFound
      case Some(k) => if ps.rows[k].ownerId == owner then Ok(ps.rows[k]) else NotFound
  }

  /** `updateProject`: the owner may replace name and description; id, owner
      and creation time are kept and no other row changes. */
  function UpdateProject(members: Members.MemberStore, ps: ProjectStore, email: string, id: int, payload: ProjectPayload)
    : (r: (ProjectStore, Response<Project>))
    requires Members.Valid(members) && Valid(ps)
    ensures CallerId(members, email).None? ==> r == (ps, Thrown(Runtime(MemberMissingZh)))
    ensures r.1.Ok? || r.0 == ps
    ensures CallerId(members, email).Some? && FindById(ps, id).None? ==> r.1 == Thrown(Runtime(ProjectMissing))
    ensures CallerId(members, email).Some? && FindById(ps, id).Some? && !Owns(ps, id, CallerId(members, email).value) ==>
      r.1 == Thrown(Runtime(NoRightToUpdate))
    ensures r.1.Ok? <==> CallerId(members, email).Some? && Owns(ps, id, CallerId(members, email).value)
    ensures r.1.Ok? ==>
      && |r.0.rows| == |ps.rows| && r.0.nextId == ps.nextId
      && forall i :: 0 <= i < |ps.rows| ==>
           if ps.rows[i].id == id
           then r.0.rows[i] == ps.rows[i].(name := payload.name, description := payload.description) && r.1.body == r.0.rows[i]
           else r.0.rows[i] == ps.rows[i]
    ensures Valid(r.0)
  {
    match CallerId(members, email)
    case None => (ps, Thrown(Runtime(MemberMissingZh)))
    case Some(owner) =>
      match FindById(ps, id)
      case None => (ps, Thrown(Runtime(ProjectMissing)))
      case Some(k) =>
        if ps.rows[k].ownerId != owner then (ps, Thrown(Runtime(NoRightToUpdate)))
        else
          var p := ps.rows[k].(name := payload.name, description := payload.description);
          (ps.(rows := ps.rows[k := p]), Ok(p))
  }

  /** `projectRepository.delete` of the row at `k`: with distinct ids,
      exactly the rows with another id remain. */
  function RemoveRow(ps: ProjectStore, k: nat): (r: ProjectStore)
    requires Valid(ps) && k < |ps.rows|
    ensures |r.rows| == |ps.rows| - 1
    ensures forall p :: p in r.rows <==> p in ps.rows && p.id != ps.rows[k].id
    ensures Valid(r)
  {
    var rest := ps.rows[..k] + ps.rows[k + 1..];
    assert forall i :: 0 <= i < |rest| ==> rest[i] == if i < k then ps.rows[i] else ps.rows[i + 1];
    assert forall p :: p in rest <==> p in ps.rows && p.id != ps.rows[k].id by {
      forall p
        ensures p in rest <==> p in ps.rows && p.id != ps.rows[k].id
      {
        if p in ps.rows && p.id != ps.rows[k].id {
          var j :| 0 <= j < |ps.rows| && ps.rows[j] == p;
          if j < k {
            assert rest[j] == p;
          } else {
            assert rest[j - 1] == p;
          }
        }
      }
    }
    ps.(rows := rest)
  }

  /** `deleteProject`: the owner removes exactly that project; anyone else,
      or a missing project, gets an exception and nothing is removed. */
  function DeleteProject(members: Members.MemberStore, ps: ProjectStore, email: string, id: int)
    : (r: (ProjectStore, Response<()>))
    requires Members.Valid(members) && Valid(ps)
    ensures CallerId(members, email).None? ==> r == (ps, Thrown(Runtime(MemberMissingZh)))
    ensures r.1.Ok? || r.0 == ps
    ensures CallerId(members, email).Some? && FindById(ps, id).None? ==> r.1 == Thrown(Runtime(ProjectMissing))
    ensures CallerId(members, email).Some? && FindById(ps, id).Some? && !Owns(ps, id, CallerId(members, email).value) ==>
      r.1 == Thrown(Runtime(NoRightToDelete))
    ensures r.1.Ok? <==> CallerId(members, email).Some? && Owns(ps, id, CallerId(members, email).value)
    ensures r.1.Ok? ==> |r.0.rows| == |ps.rows| - 1 && forall p :: p in r.0.rows <==> p in ps.rows && p.id != id
    ensures Valid(r.0)
  {
    match CallerId(members, email)
    case None => (ps, Thrown(Runtime(MemberMissingZh)))
    case Some(owner) =>
      match FindById(ps, id)
      case None => (ps, Thrown(Runtime(ProjectMissing)))
      case Some(k) =>
        if ps.rows[k].ownerId != owner then (ps, Thrown(Runtime(NoRightToDelete)))
        else
          (RemoveRow(ps, k), Ok(()))
  }
}
