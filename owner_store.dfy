/** The Express backend's store (`DatabaseStorage` over the drizzle tables):
    a projects table and one table per kind of item, each row with a serial
    id and a `created_at` timestamp. Reads are scoped to the calling user;
    the project writes match on the id alone, and the item operations take no
    user at all. Nothing here keeps an activity log, and the tables declare no
    foreign key, so deleting a project leaves its items in place.

    `created_at` comes from the store's clock, which every insert advances. */
module OwnerStore {
  import opened Common
  import Models

  /** The nullable text columns of the projects table. */
  datatype Column =
    | DescriptionCol | ProductionLinkCol | RepoLinkCol | FrontendLinkCol
    | BackendLinkCol | EnvDetailsCol | TestUserDetailsCol | AuthDetailsCol

  /** A projects row. `userId` and `name` are not null; a nullable column
      missing from `details` reads as null. */
  datatype ProjectRow = ProjectRow(id: nat, userId: string, name: string,
                                   details: map<Column, Option<string>>, createdAt: nat)

  /** A features, bugs or improvements row. `projectId` and `description`
      are not null; `status` is a nullable text column with a default. */
  datatype ChildRow = ChildRow(id: nat, projectId: int, description: string,
                               status: Option<string>, createdAt: nat)

  /** The body of a project insert: the insert schema leaves out `id`,
      `createdAt` and `userId`, but a `userId` may still travel in the
      object that is spread into the insert. */
  datatype ProjectInput = ProjectInput(userId: Option<string>, name: string,
                                       details: map<Column, Option<string>>)

  /** A partial project update: only the supplied keys are set. */
  datatype ProjectPatch = ProjectPatch(name: Option<string>, details: map<Column, Option<string>>)

  /** The body of an item insert: `id` and `createdAt` are left out,
      `projectId` is kept. `status` is None when the key is absent and
      Some(v) when it is given, v itself possibly null. */
  datatype ChildInput = ChildInput(projectId: int, description: string, status: Option<Option<string>>)

  /** A partial item update: only the supplied keys are set. */
  datatype ChildPatch = ChildPatch(projectId: Option<int>, description: Option<string>,
                                   status: Option<Option<string>>)

  /** A project as the queries return it, with its items of each kind. */
  datatype ProjectWith = ProjectWith(project: ProjectRow, features: map<nat, ChildRow>,
                                     bugs: map<nat, ChildRow>, improvements: map<nat, ChildRow>)

  // ---------------------------------------------------------------------------
  // Column defaults

  /** The `status` column default of a kind's table. */
  function StatusDefault(kind: Models.Kind): (r: string)
    ensures Models.IsStatusOf(kind, r)
  {
    match kind
    case Bug => "open"
    case _ => "pending"
  }

  /** Both backends give a new item the same status when none is given. */
  lemma StatusDefaultsAgree(kind: Models.Kind)
    ensures StatusDefault(kind) == Models.DefaultStatus(kind)
    ensures StatusDefault(Models.Feature) == "pending" && StatusDefault(Models.Improvement) == "pending"
    ensures StatusDefault(Models.Bug) == "open"
  {
  }

  /** The status an inserted row gets: the column default when the key is
      absent, otherwise the given value. */
  function InsertedStatus(kind: Models.Kind, given: Option<Option<string>>): (r: Option<string>)
    ensures given.None? ==> r == Some(StatusDefault(kind))
    ensures given.Some? ==> r == given.value
  {
    given.GetOr(Some(StatusDefault(kind)))
  }

  /** The value a row shows for a nullable project column. */
  function DetailOf(p: ProjectRow, c: Column): Option<string> {
    if c in p.details then p.details[c] else None
  }

  // ---------------------------------------------------------------------------
  // Partial updates

  /** `set(updates)` on one project row. */
  function PatchProject(p: ProjectRow, patch: ProjectPatch): (r: ProjectRow)
    ensures r.id == p.id && r.userId == p.userId && r.createdAt == p.createdAt
    ensures r.name == patch.name.GetOr(p.name)
    ensures forall c :: DetailOf(r, c) == (if c in patch.details then patch.details[c] else DetailOf(p, c))
  {
    p.(name := patch.name.GetOr(p.name), details := p.details + patch.details)
  }

  /** Setting the same keys twice is setting them once, and setting no key
      changes nothing. */
  lemma PatchProjectIdempotent(p: ProjectRow, patch: ProjectPatch)
    ensures PatchProject(PatchProject(p, patch), patch) == PatchProject(p, patch)
    ensures PatchProject(p, ProjectPatch(None, map[])) == p
  {
    var once := PatchProject(p, patch);
    assert once.details + patch.details == once.details;
    assert p.details + map[] == p.details;
  }

  /** `set(updates)` on one item row. */
  function PatchChild(c: ChildRow, patch: ChildPatch): (r: ChildRow)
    ensures r.id == c.id && r.createdAt == c.createdAt
    ensures r.projectId == patch.projectId.GetOr(c.projectId)
    ensures r.description == patch.description.GetOr(c.description)
    ensures r.status == patch.status.GetOr(c.status)
  {
    c.(projectId := patch.projectId.GetOr(c.projectId),
       description := patch.description.GetOr(c.description),
       status := patch.status.GetOr(c.status))
  }

  lemma PatchChildIdempotent(c: ChildRow, patch: ChildPatch)
    ensures PatchChild(PatchChild(c, patch), patch) == PatchChild(c, patch)
    ensures PatchChild(c, ChildPatch(None, None, None)) == c
  {
  }

  // ---------------------------------------------------------------------------
  // Tables

  /** Rows are stored under their own id; ids stay below the table's next
      serial value and timestamps below the clock; a later id has a later
      timestamp. */
  predicate ProjectsOk(ps: map<nat, ProjectRow>, next: nat, clock: nat) {
    && (forall id :: id in ps ==> ps[id].id == id && id < next && ps[id].createdAt < clock)
    && (forall a, b :: a in ps && b in ps && a < b ==> ps[a].createdAt < ps[b].createdAt)
  }

  predicate ChildrenOk(m: map<nat, ChildRow>, next: nat) {
    forall id :: id in m ==> m[id].id == id && id < next
  }

  /** The rows whose `projectId` is `pid`, as the `with` clause loads them. */
  function ItemsOf(m: map<nat, ChildRow>, pid: nat): (r: map<nat, ChildRow>)
    ensures forall id :: id in r <==> id in m && m[id].projectId == pid
    ensures forall id :: id in r ==> r[id] == m[id]
  {
    map id | id in m && m[id].projectId == pid :: m[id]
  }

  function With(p: ProjectRow, children: Models.PerKind<map<nat, ChildRow>>): ProjectWith {
    ProjectWith(p, ItemsOf(children.feature, p.id), ItemsOf(children.bug, p.id),
                ItemsOf(children.improvement, p.id))
  }

  /** The rows of `user` among the ids below `n`, highest id first. */
  function OwnedBelow(ps: map<nat, ProjectRow>, children: Models.PerKind<map<nat, ChildRow>>,
                      user: string, n: nat): (r: seq<ProjectWith>)
    ensures forall i :: 0 <= i < |r| ==> r[i] == With(r[i].project, children)
  {
    if n == 0 then []
    else
      var rest := OwnedBelow(ps, children, user, n - 1);
      if n - 1 in ps && ps[n - 1].userId == user then [With(ps[n - 1], children)] + rest else rest
  }

  /** Every listed row is one of the user's rows below `n`, and the ids
      decrease along the listing. */
  predicate ListingSound(ps: map<nat, ProjectRow>, user: string, n: nat, r: seq<ProjectWith>) {
    && (forall i :: 0 <= i < |r| ==> ListedRow(ps, user, n, r[i].project))
    && (forall i, j :: 0 <= i < j < |r| ==> r[i].project.id > r[j].project.id)
  }

  predicate ListedRow(ps: map<nat, ProjectRow>, user: string, n: nat, p: ProjectRow) {
    p.id < n && p.id in ps && ps[p.id] == p && p.userId == user
  }

  lemma {:induction false} OwnedBelowSound(ps: map<nat, ProjectRow>, children: Models.PerKind<map<nat, ChildRow>>,
                                           user: string, n: nat)
    requires forall id :: id in ps ==> ps[id].id == id
    ensures ListingSound(ps, user, n, OwnedBelow(ps, children, user, n))
  {
    if n > 0 {
      var r := OwnedBelow(ps, children, user, n);
      var rest := OwnedBelow(ps, children, user, n - 1);
      OwnedBelowSound(ps, children, user, n - 1);
      if n - 1 in ps && ps[n - 1].userId == user {
        assert r == [With(ps[n - 1], children)] + rest;
        forall i | 1 <= i < |r| ensures ListedRow(ps, user, n, r[i].project) && r[i].project.id < n - 1 {
          assert r[i] == rest[i - 1];
          assert ListedRow(ps, user, n - 1, rest[i - 1].project);
        }
      } else {
        assert r == rest;
        forall i | 0 <= i < |r| ensures ListedRow(ps, user, n, r[i].project) {
          assert ListedRow(ps, user, n - 1, rest[i].project);
        }
      }
    }
  }

  /** Every row of the user below `n` is listed. */
  lemma {:induction false} OwnedBelowComplete(ps: map<nat, ProjectRow>, children: Models.PerKind<map<nat, ChildRow>>,
                                              user: string, n: nat, id: nat)
    requires id < n && id in ps && ps[id].userId == user
    ensures exists i :: 0 <= i < |OwnedBelow(ps, children, user, n)| && OwnedBelow(ps, children, user, n)[i].project == ps[id]
  {
    var r := OwnedBelow(ps, children, user, n);
    var rest := OwnedBelow(ps, children, user, n - 1);
    if id == n - 1 {
      assert r[0].project == ps[id];
    } else {
      OwnedBelowComplete(ps, children, user, n - 1, id);
      var i :| 0 <= i < |rest| && rest[i].project == ps[id];
      if n - 1 in ps && ps[n - 1].userId == user {
        assert r[i + 1] == rest[i];
      } else {
        assert r[i] == rest[i];
      }
    }
  }

  /** `findFirst` with both conditions: the row when the id exists and
      belongs to the user. */
  function Owned(ps: map<nat, ProjectRow>, id: nat, user: string): (r: Option<ProjectRow>)
    ensures r.Some? <==> id in ps && ps[id].userId == user
    ensures r.Some? ==> r.value == ps[id]
  {
    if id in ps && ps[id].userId == user then Some(ps[id]) else None
  }

  /** The projects table after `updateProject(id, userId, updates)`: the
      row with that id is patched whoever owns it. */
  function UpdatedProjects(ps: map<nat, ProjectRow>, id: nat, patch: ProjectPatch): (r: map<nat, ProjectRow>)
    ensures r.Keys == ps.Keys
    ensures id in ps ==> r[id] == PatchProject(ps[id], patch)
    ensures forall other :: other in ps && other != id ==> r[other] == ps[other]
  {
    if id in ps then ps[id := PatchProject(ps[id], patch)] else ps
  }

  /** The projects table after `deleteProject(id, userId)`: the row with
      that id is gone whoever asks, and every other row stays. */
  function DeletedProjects(ps: map<nat, ProjectRow>, id: nat, user: string): (r: map<nat, ProjectRow>)
    ensures r.Keys == ps.Keys - {id}
    ensures forall other :: other in r ==> r[other] == ps[other]
  {
    ps - {id}
  }

  /** The ownership gap: a user for whom `getProject` finds nothing can still
      rename the project, and can delete it, with the same effect as its
      owner deleting it. */
  lemma OwnershipGap(ps: map<nat, ProjectRow>, id: nat, user: string, newName: string)
    requires id in ps && ps[id].userId != user
    ensures Owned(ps, id, user) == None
    ensures UpdatedProjects(ps, id, ProjectPatch(Some(newName), map[]))[id].name == newName
    ensures id !in DeletedProjects(ps, id, user)
    ensures DeletedProjects(ps, id, user) == DeletedProjects(ps, id, ps[id].userId)
  {
  }

  // ---------------------------------------------------------------------------
  // The store

  class Store {
    var projects: map<nat, ProjectRow>
    var children: Models.PerKind<map<nat, ChildRow>>
    var nextProjectId: nat
    var nextChildIds: Models.PerKind<nat>
    var clock: nat

    predicate Valid()
      reads this
    {
      && ProjectsOk(projects, nextProjectId, clock)
      && ChildrenOk(children.feature, nextChildIds.feature)
      && ChildrenOk(children.bug, nextChildIds.bug)
      && ChildrenOk(children.improvement, nextChildIds.improvement)
    }

    /** Empty tables whose serials start at 1. */
    constructor ()
      ensures Valid()
      ensures projects == map[] && children == Models.PerKind(map[], map[], map[])
    {
      projects := map[];
      children := Models.PerKind(map[], map[], map[]);
      nextProjectId := 1;
      nextChildIds := Models.PerKind(1, 1, 1);
      clock := 0;
    }

    /** `getProjects(userId)`: the user's projects with their items, newest
        `createdAt` first; `failed` stands for a database error, on which
        the method returns an empty list. */
    function GetProjects(user: string, failed: bool): (r: seq<ProjectWith>)
      reads this
    {
      if failed then [] else OwnedBelow(projects, children, user, nextProjectId)
    }

    /** `getProject(id, userId)`: the project with its items when both the
        id and the owner match. */
    function GetProject(id: nat, user: string): (r: Option<ProjectWith>)
      reads this
      ensures r.Some? <==> id in projects && projects[id].userId == user
      ensures r.Some? ==> r.value == With(projects[id], children)
    {
      match Owned(projects, id, user)
      case Some(p) => Some(With(p, children))
      case None => None
    }

    /** The listing holds only the user's projects, each with its items,
        newest first; a database error gives the empty list. */
    lemma GetProjectsSound(user: string, failed: bool)
      requires Valid()
      ensures failed ==> GetProjects(user, failed) == []
      ensures var r := GetProjects(user, failed);
        && (forall i :: 0 <= i < |r| ==>
              r[i].project.id in projects && projects[r[i].project.id] == r[i].project
              && r[i].project.userId == user && r[i] == With(r[i].project, children))
        && (forall i, j :: 0 <= i < j < |r| ==> r[i].project.createdAt > r[j].project.createdAt)
    {
      if !failed {
        var r := GetProjects(user, failed);
        OwnedBelowSound(projects, children, user, nextProjectId);
        assert ListingSound(projects, user, nextProjectId, r);
        forall i, j | 0 <= i < j < |r| ensures r[i].project.createdAt > r[j].project.createdAt {
          assert ListedRow(projects, user, nextProjectId, r[i].project);
          assert ListedRow(projects, user, nextProjectId, r[j].project);
        }
      }
    }

    /** Without a database error every project of the user is listed. */
    lemma GetProjectsComplete(user: string, id: nat)
      requires Valid() && id in projects && projects[id].userId == user
      ensures exists i :: 0 <= i < |GetProjects(user, false)| && GetProjects(user, false)[i].project == projects[id]
    {
      OwnedBelowComplete(projects, children, user, nextProjectId, id);
      assert GetProjects(user, false) == OwnedBelow(projects, children, user, nextProjectId);
    }

    /** `getProject` finds exactly the projects `getProjects` lists. */
    lemma GetProjectListed(id: nat, user: string)
      requires Valid()
      ensures GetProject(id, user).Some? <==>
              exists i :: 0 <= i < |GetProjects(user, false)| && GetProjects(user, false)[i].project.id == id
    {
      GetProjectsSound(user, false);
      var r := GetProjects(user, false);
      if id in projects && projects[id].userId == user {
        GetProjectsComplete(user, id);
        var i :| 0 <= i < |r| && r[i].project == projects[id];
        assert r[i].project.id == id;
      }
    }

    /** `createProject(userId, insertProject)`: the caller's id overrides
        any `userId` in the input. */
    method CreateProject(user: string, input: ProjectInput) returns (p: ProjectRow)
      requires Valid()
      modifies this
      ensures Valid()
      ensures p == ProjectRow(old(nextProjectId), user, input.name, input.details, old(clock))
      ensures p.id !in old(projects) && projects == old(projects)[p.id := p]
      ensures Owned(projects, p.id, user) == Some(p)
      ensures children == old(children) && nextChildIds == old(nextChildIds)
      ensures nextProjectId == old(nextProjectId) + 1 && clock == old(clock) + 1
    {
      p := ProjectRow(nextProjectId, user, input.name, input.details, clock);
      projects := projects[p.id := p];
      nextProjectId := nextProjectId + 1;
      clock := clock + 1;
    }

    /** `updateProject(id, userId, updates)`: matches on the id alone; the
        result is the updated row, or None when no row has that id. */
    method UpdateProject(id: nat, user: string, patch: ProjectPatch) returns (r: Option<ProjectRow>)
      requires Valid()
      modifies this
      ensures Valid()
      ensures projects == UpdatedProjects(old(projects), id, patch)
      ensures r.Some? <==> id in old(projects)
      ensures r.Some? ==> r.value == projects[id]
      ensures children == old(children) && nextProjectId == old(nextProjectId)
      ensures nextChildIds == old(nextChildIds) && clock == old(clock)
    {
      if id in projects {
        var p := PatchProject(projects[id], patch);
        projects := projects[id := p];
        r := Some(p);
      } else {
        r := None;
      }
    }

    /** `deleteProject(id, userId)`: removes the row with that id whoever
        owns it, and leaves its items where they are. */
    method DeleteProject(id: nat, user: string)
      requires Valid()
      modifies this
      ensures Valid()
      ensures projects == DeletedProjects(old(projects), id, user)
      ensures children == old(children) && nextProjectId == old(nextProjectId)
      ensures nextChildIds == old(nextChildIds) && clock == old(clock)
    {
      projects := projects - {id};
    }

    /** `createFeature`, `createBug`, `createImprovement`. */
    method CreateChild(kind: Models.Kind, input: ChildInput) returns (c: ChildRow)
      requires Valid()
      modifies this
      ensures Valid()
      ensures c == ChildRow(old(nextChildIds.Get(kind)), input.projectId, input.description,
                            InsertedStatus(kind, input.status), old(clock))
      ensures c.id !in old(children.Get(kind))
      ensures children == old(children).Set(kind, old(children.Get(kind))[c.id := c])
      ensures nextChildIds == old(nextChildIds).Set(kind, c.id + 1)
      ensures projects == old(projects) && nextProjectId == old(nextProjectId) && clock == old(clock) + 1
    {
      c := ChildRow(nextChildIds.Get(kind), input.projectId, input.description,
                    InsertedStatus(kind, input.status), clock);
      children := children.Set(kind, children.Get(kind)[c.id := c]);
      nextChildIds := nextChildIds.Set(kind, c.id + 1);
      clock := clock + 1;
    }

    /** `updateFeature`, `updateBug`, `updateImprovement`: the updated row,
        or None when no row has that id. */
    method UpdateChild(kind: Models.Kind, id: nat, patch: ChildPatch) returns (r: Option<ChildRow>)
      requires Valid()
      modifies this
      ensures Valid()
      ensures r.Some? <==> id in old(children.Get(kind))
      ensures r.Some? ==> (r.value == PatchChild(old(children.Get(kind))[id], patch)
                           && children == old(children).Set(kind, old(children.Get(kind))[id := r.value]))
      ensures r.None? ==> children == old(children)
      ensures projects == old(projects) && nextProjectId == old(nextProjectId)
      ensures nextChildIds == old(nextChildIds) && clock == old(clock)
    {
      var table := children.Get(kind);
      if id in table {
        var c := PatchChild(table[id], patch);
        children := children.Set(kind, table[id := c]);
        r := Some(c);
      } else {
        r := None;
      }
    }

    /** `deleteFeature`, `deleteBug`, `deleteImprovement`: deleting an id
        that is not there changes nothing and reports nothing. */
    method DeleteChild(kind: Models.Kind, id: nat)
      requires Valid()
      modifies this
      ensures Valid()
      ensures children == old(children).Set(kind, old(children.Get(kind)) - {id})
      ensures id !in old(children.Get(kind)) ==> children == old(children)
      ensures projects == old(projects) && nextProjectId == old(nextProjectId)
      ensures nextChildIds == old(nextChildIds) && clock == old(clock)
    {
      var table := children.Get(kind);
      if id !in table {
        assert table - {id} == table;
      }
      children := children.Set(kind, table - {id});
    }
  }
}
