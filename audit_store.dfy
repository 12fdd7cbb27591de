/** The Django backend as a store: projects owned by users, the three kinds
    of item a project holds, and the append-only Activity log that the
    serializers write on every create, update and status update. The view
    sets scope every lookup to the requesting user's projects; deleting a
    project or a user cascades along the foreign keys.

    `created_at` timestamps come from the store's clock, which every insert
    advances, so "newest first" is the reverse of insertion order. */
module AuditStore {
  import opened Common
  import opened Strings
  import opened Json
  import opened Models
  import opened Changes
  import opened ActivityText
  import opened Validation

  datatype Project = Project(userId: nat, attrs: Instance, createdAt: nat)

  /** A Feature, Bug or Improvement row. */
  datatype Child = Child(projectId: nat, attrs: Instance, createdAt: nat)

  datatype Activity = Activity(id: nat, projectId: nat, atype: string, entity: string,
                               entityId: Option<int>, description: string, createdAt: nat)

  /** The objects the `IsOwner` permission can be asked about. */
  datatype Obj = ProjectObj(project: Project) | ChildObj(child: Child) | ActivityObj(activity: Activity) | OtherObj

  // ---------------------------------------------------------------------------
  // Serializer helpers

  /** `get_tags`: the decoded tags text; `[]` when the text is empty or is
      not JSON. */
  function GetTags(tags: string): Json {
    if tags == [] then JArray([])
    else match Loads(tags)
      case Some(v) => v
      case None => JArray([])
  }

  /** Tags stored as `json.dumps(v)` read back as `v`. */
  lemma GetTagsDumps(v: Json)
    requires WellFormed(v)
    ensures GetTags(Dumps(v)) == v
  {
    LoadsDumps(v);
  }

  /** Empty or malformed tags text reads as the empty list. */
  lemma GetTagsFallback(tags: string)
    requires tags == [] || Loads(tags).None?
    ensures GetTags(tags) == JArray([])
  {
  }

  /** The attributes of a new item: the validated data over the defaults,
      with `tags` set to `json.dumps([])`, since `tags` is a read-only method
      field and never reaches the validated data. */
  function NewChildAttrs(kind: Kind, data: Patch): Instance {
    ApplyPatch(ItemDefaults(kind), data)[Tags := VText(Dumps(JArray([])))]
  }

  /** The tags text every item is created with is "[]", which reads as no
      tags. */
  lemma CreatedTags()
    ensures Dumps(JArray([])) == DefaultTags
    ensures GetTags(DefaultTags) == JArray([])
  {
    assert Dumps(JArray([])) == DefaultTags;
    LoadsDumps(JArray([]));
  }

  /** A new item is well typed. */
  lemma NewChildTyped(kind: Kind, body: Body)
    requires ItemData(kind, body, false).Ok?
    ensures ItemAttrsOk(kind, NewChildAttrs(kind, ItemData(kind, body, false).value))
  {
    ItemDataShape(kind, body, false);
    ItemPatchKeeps(kind, ItemDefaults(kind), ItemData(kind, body, false).value);
  }

  /** A new item takes the given description, status and rank, the defaults
      for those not given, and the tags text "[]". */
  lemma NewChildFields(kind: Kind, body: Body)
    requires ItemData(kind, body, false).Ok?
    ensures var attrs := NewChildAttrs(kind, ItemData(kind, body, false).value);
      && "description" in body
      && ItemAttrsOk(kind, attrs)
      && attrs[Description] == RequiredText("description", body["description"]).value
      && attrs[Status] == (if "status" in body then VText(body["status"].s) else VText(DefaultStatus(kind)))
      && attrs[Rank] == (if "rank" in body then IntegerInput("rank", body["rank"]).value else VInt(DefaultRank))
      && attrs[Tags] == VText(DefaultTags)
  {
    ItemDataShape(kind, body, false);
    NewChildTyped(kind, body);
    NewChildDescription(kind, body);
    NewChildStatus(kind, body);
    NewChildRank(kind, body);
    CreatedTags();
  }

  lemma NewChildDescription(kind: Kind, body: Body)
    requires ItemData(kind, body, false).Ok? && "description" in body
    ensures var attrs := NewChildAttrs(kind, ItemData(kind, body, false).value);
      Description in attrs && attrs[Description] == RequiredText("description", body["description"]).value
  {
    NewChildValue(kind, body, Description);
  }

  lemma NewChildStatus(kind: Kind, body: Body)
    requires ItemData(kind, body, false).Ok?
    ensures "status" in body ==> body["status"].JStr?
    ensures var attrs := NewChildAttrs(kind, ItemData(kind, body, false).value);
      Status in attrs &&
      attrs[Status] == (if "status" in body then VText(body["status"].s) else VText(DefaultStatus(kind)))
  {
    NewChildValue(kind, body, Status);
  }

  lemma NewChildRank(kind: Kind, body: Body)
    requires ItemData(kind, body, false).Ok?
    ensures "rank" in body ==> IntegerInput("rank", body["rank"]).Ok?
    ensures var attrs := NewChildAttrs(kind, ItemData(kind, body, false).value);
      Rank in attrs &&
      attrs[Rank] == (if "rank" in body then IntegerInput("rank", body["rank"]).value else VInt(DefaultRank))
  {
    NewChildValue(kind, body, Rank);
  }

  /** A new item's description, status or rank is the converted body value
      when there is one and the default otherwise. */
  lemma NewChildValue(kind: Kind, body: Body, attr: Attr)
    requires ItemData(kind, body, false).Ok?
    requires attr == Description || attr == Status || attr == Rank
    ensures var attrs := NewChildAttrs(kind, ItemData(kind, body, false).value);
      attr in attrs &&
      attrs[attr] == match ItemInput(kind, body, attr)
        case Some(v) => v
        case None => ItemDefaults(kind)[attr]
  {
    var data := ItemData(kind, body, false).value;
    ItemDataShape(kind, body, false);
    ItemDataValue(kind, body, false, attr);
    PatchValueApplied(ItemDefaults(kind), data, attr);
  }

  /** What the store needs of a new item: every item attribute and a valid
      status. */
  lemma NewChildRow(kind: Kind, body: Body)
    requires ItemData(kind, body, false).Ok?
    ensures ItemRowOk(kind, NewChildAttrs(kind, ItemData(kind, body, false).value))
  {
    NewChildTyped(kind, body);
  }

  /** The status serializer's data sets `status` when the body has it and
      leaves the attributes as they are otherwise. */
  lemma StatusPatch(kind: Kind, body: Body, attrs: Instance)
    requires StatusData(kind, body).Ok? && Status in attrs
    ensures ApplyPatch(attrs, StatusData(kind, body).value) ==
      attrs[Status := if "status" in body then VText(body["status"].s) else attrs[Status]]
  {
    if "status" in body {
      assert ApplyPatch(attrs, StatusData(kind, body).value) == ApplyPatch(attrs, [])[Status := VText(body["status"].s)];
    } else {
      assert attrs[Status := attrs[Status]] == attrs;
    }
  }

  /** A patch of well-typed item attributes keeps an item row well typed. */
  lemma ItemPatchKeeps(kind: Kind, attrs: Instance, patch: Patch)
    requires ItemAttrsOk(kind, attrs)
    requires forall i :: 0 <= i < |patch| ==> patch[i].0 in ItemAttrNames() && ItemValueOk(kind, patch[i].0, patch[i].1)
    ensures ItemAttrsOk(kind, ApplyPatch(attrs, patch))
  {
    ApplyPatchFrom(attrs, patch, Description);
    ApplyPatchFrom(attrs, patch, Status);
    ApplyPatchFrom(attrs, patch, Rank);
    ApplyPatchFrom(attrs, patch, Tags);
  }

  /** A patch of well-typed project attributes keeps a project row well typed. */
  lemma ProjectPatchKeeps(attrs: Instance, patch: Patch)
    requires ProjectAttrsOk(attrs)
    requires forall i :: 0 <= i < |patch| ==> patch[i].0 in ProjectAttrNames() && ProjectValueOk(patch[i].0, patch[i].1)
    ensures ProjectAttrsOk(ApplyPatch(attrs, patch))
  {
    forall a | a in ProjectAttrNames() ensures ProjectAttrOk(ApplyPatch(attrs, patch), a) {
      ApplyPatchFrom(attrs, patch, a);
    }
  }

  /** The `setup_steps` a new project stores. `ProjectSerializer.create`
      pops it from the data and, when it is truthy, puts back the text
      `json.dumps(setup_steps)`; otherwise the model default, the empty
      list, applies. */
  function StoredSetupSteps(data: Patch): Value {
    match PatchValue(data, SetupSteps)
    case Some(VJson(j)) => if Truthy(j) then VJson(JStr(Dumps(j))) else DefaultSetupSteps
    case _ => DefaultSetupSteps
  }

  /** The attributes of a new project: the validated data over the
      defaults, with `setup_steps` as stored above. */
  function NewProjectAttrs(data: Patch): Instance {
    ApplyPatch(ProjectDefaults(), data)[SetupSteps := StoredSetupSteps(data)]
  }

  /** A new project is well typed. */
  lemma NewProjectTyped(body: Body)
    requires ProjectData(body, false).Ok?
    ensures ProjectAttrsOk(NewProjectAttrs(ProjectData(body, false).value))
  {
    ProjectDataShape(body, false);
    ProjectPatchKeeps(ProjectDefaults(), ProjectData(body, false).value);
  }

  /** A new project takes the given name, which is a non-blank text. */
  lemma NewProjectName(body: Body)
    requires ProjectData(body, false).Ok?
    ensures var data := ProjectData(body, false).value;
      var attrs := NewProjectAttrs(data);
      && data != [] && Name in attrs && attrs[Name] == data[0].1 && attrs[Name].VText? && attrs[Name].text != []
  {
    var data := ProjectData(body, false).value;
    ProjectDataShape(body, false);
    PatchValueApplied(ProjectDefaults(), data, Name);
    assert PatchValue(data, Name) == Some(data[0].1);
  }

  /** A new project's `setup_steps` is a JSON string that decodes to the
      given steps when they are truthy, and the empty list otherwise. */
  lemma NewProjectSetupSteps(body: Body)
    requires ProjectData(body, false).Ok?
    ensures var data := ProjectData(body, false).value;
      var attrs := NewProjectAttrs(data);
      && SetupSteps in attrs
      && (PatchValue(data, SetupSteps).None? ==> attrs[SetupSteps] == DefaultSetupSteps)
      && (PatchValue(data, SetupSteps).Some? ==>
            var given := PatchValue(data, SetupSteps).value;
            && given.VJson?
            && (!Truthy(given.json) ==> attrs[SetupSteps] == DefaultSetupSteps)
            && (Truthy(given.json) ==> attrs[SetupSteps] == VJson(JStr(Dumps(given.json))))
            && (Truthy(given.json) && WellFormed(given.json) ==> Loads(Dumps(given.json)) == Some(given.json)))
  {
    var data := ProjectData(body, false).value;
    ProjectDataShape(body, false);
    var given := PatchValue(data, SetupSteps);
    if given.Some? {
      var i :| 0 <= i < |data| && data[i] == (SetupSteps, given.value);
      if Truthy(given.value.json) && WellFormed(given.value.json) {
        LoadsDumps(given.value.json);
      }
    }
  }

  /** What the store needs of a new project: every project attribute. */
  lemma NewProjectRow(body: Body)
    requires ProjectData(body, false).Ok?
    ensures ProjectRowOk(NewProjectAttrs(ProjectData(body, false).value))
  {
    ProjectRowPatch(ProjectDefaults(), ProjectData(body, false).value);
  }

  // ---------------------------------------------------------------------------
  // Row shapes

  /** The part of an item row's typing the store relies on: every item
      attribute is present, and the status is one of its kind's choices. */
  predicate ItemRowOk(kind: Kind, attrs: Instance) {
    && Description in attrs && Rank in attrs && Tags in attrs
    && Status in attrs && attrs[Status].VText? && IsStatusOf(kind, attrs[Status].text)
  }

  /** The part of a project row's typing the store relies on: every project
      attribute is present. */
  predicate ProjectRowOk(attrs: Instance) {
    Name in attrs && ProjectAttrNames() <= attrs.Keys
  }

  /** Validated item data fits every item row. */
  lemma ItemRowFits(kind: Kind, attrs: Instance, patch: Patch)
    requires ItemRowOk(kind, attrs)
    requires forall i :: 0 <= i < |patch| ==> patch[i].0 in ItemAttrNames()
    ensures PatchFits(attrs, patch)
  {
  }

  /** Validated project data fits every project row. */
  lemma ProjectRowFits(attrs: Instance, patch: Patch)
    requires ProjectRowOk(attrs)
    requires forall i :: 0 <= i < |patch| ==> patch[i].0 in ProjectAttrNames()
    ensures PatchFits(attrs, patch)
  {
  }

  /** A patch of well-typed item attributes keeps an item row's shape. */
  lemma ItemRowPatch(kind: Kind, attrs: Instance, patch: Patch)
    requires ItemRowOk(kind, attrs)
    requires forall i :: 0 <= i < |patch| ==> ItemValueOk(kind, patch[i].0, patch[i].1)
    ensures ItemRowOk(kind, ApplyPatch(attrs, patch))
  {
    ApplyPatchFrom(attrs, patch, Description);
    ApplyPatchFrom(attrs, patch, Status);
    ApplyPatchFrom(attrs, patch, Rank);
    ApplyPatchFrom(attrs, patch, Tags);
  }

  /** Any patch keeps a project row's shape. */
  lemma ProjectRowPatch(attrs: Instance, patch: Patch)
    requires ProjectRowOk(attrs)
    ensures ProjectRowOk(ApplyPatch(attrs, patch))
  {
    forall a | a in ProjectAttrNames() ensures a in ApplyPatch(attrs, patch) {
      ApplyPatchFrom(attrs, patch, a);
    }
  }

  /** Django's `int()` cast of a primary-key lookup value; `None` where the
      cast raises. A text goes through Python's `int()`, so it may carry
      whitespace, a sign and underscores between digits. */
  function PkOf(j: Json): (r: Option<int>)
    ensures j.JInt? ==> r == Some(j.i)
    ensures j.JBool? ==> r == Some(if j.b then 1 else 0)
    ensures j.JNull? || j.JArray? || j.JObject? ==> r.None?
    ensures j.JStr? && r.Some? ==> PyStrip(j.s) != []
  {
    match j
    case JInt(i) => Some(i)
    case JBool(b) => Some(if b then 1 else 0)
    case JStr(s) => PyInt(s)
    case _ => None
  }

  /** The text of an integer, with whitespace around it, casts to that
      integer: `" 5 "` is 5 and `"-1"` is -1. */
  lemma PkOfText(pre: string, i: int, post: string)
    requires AllSpace(PySpace, pre) && AllSpace(PySpace, post)
    ensures PkOf(JStr(pre + IntToString(i) + post)) == Some(i)
  {
    PyIntOfString(pre, i, post);
  }

  /** `request.data.get('projectId') or self.kwargs.get('project_id')`. */
  function ProjectIdArg(body: Body, urlProjectId: Option<int>): (r: Option<Json>)
    ensures "projectId" in body && Truthy(body["projectId"]) ==> r == Some(body["projectId"])
    ensures !("projectId" in body && Truthy(body["projectId"])) ==>
      (r.Some? <==> urlProjectId.Some?) && (r.Some? ==> r.value == JInt(urlProjectId.value))
  {
    if "projectId" in body && Truthy(body["projectId"]) then Some(body["projectId"])
    else match urlProjectId
      case Some(i) => Some(JInt(i))
      case None => None
  }

  // ---------------------------------------------------------------------------
  // Activity listings

  /** Every activity is older, and has a smaller id, than each one after it. */
  predicate Chronological(acts: seq<Activity>) {
    forall i, j :: 0 <= i < j < |acts| ==> acts[i].createdAt < acts[j].createdAt && acts[i].id < acts[j].id
  }

  /** `Activity.objects.filter(project__in=pids).order_by('-created_at')` over
      a chronological log: its rows of those projects, newest first. */
  function ActivitiesOf(acts: seq<Activity>, pids: set<nat>): (r: seq<Activity>)
    ensures forall a :: a in r <==> a in acts && a.projectId in pids
    ensures |r| <= |acts|
  {
    if acts == [] then []
    else
      var last := acts[|acts| - 1];
      var rest := ActivitiesOf(acts[..|acts| - 1], pids);
      assert forall a :: a in acts <==> a in acts[..|acts| - 1] || a == last;
      (if last.projectId in pids then [last] else []) + rest
  }

  /** In a chronological log the last row is newer than every earlier one. */
  lemma LastIsNewest(acts: seq<Activity>)
    requires Chronological(acts) && acts != []
    ensures forall a :: a in acts[..|acts| - 1] ==> a.createdAt < acts[|acts| - 1].createdAt && a.id < acts[|acts| - 1].id
  {
    var front := acts[..|acts| - 1];
    forall a | a in front ensures a.createdAt < acts[|acts| - 1].createdAt && a.id < acts[|acts| - 1].id {
      var k :| 0 <= k < |front| && front[k] == a;
      assert acts[k] == a;
    }
  }

  /** Every row is newer than each one after it. */
  predicate NewestFirst(r: seq<Activity>) {
    forall i, j :: 0 <= i < j < |r| ==> r[i].createdAt > r[j].createdAt
  }

  /** A row older than none of `rest` can go in front of it. */
  lemma NewestFirstCons(last: Activity, rest: seq<Activity>)
    requires NewestFirst(rest)
    requires forall a :: a in rest ==> a.createdAt < last.createdAt
    ensures NewestFirst([last] + rest)
  {
    var r := [last] + rest;
    forall i, j | 0 <= i < j < |r| ensures r[i].createdAt > r[j].createdAt {
      assert r[j] == rest[j - 1] && rest[j - 1] in rest;
      if i > 0 {
        assert r[i] == rest[i - 1];
      }
    }
  }

  /** The listing really is newest first. */
  lemma {:induction false} ActivitiesOfNewestFirst(acts: seq<Activity>, pids: set<nat>)
    requires Chronological(acts)
    ensures NewestFirst(ActivitiesOf(acts, pids))
  {
    if acts != [] {
      var front := acts[..|acts| - 1];
      var last := acts[|acts| - 1];
      assert Chronological(front);
      ActivitiesOfNewestFirst(front, pids);
      if last.projectId in pids {
        LastIsNewest(acts);
        NewestFirstCons(last, ActivitiesOf(front, pids));
      }
    }
  }

  /** The log without the rows of the projects `pids`, in the same order. */
  function ActivitiesOutside(acts: seq<Activity>, pids: set<nat>): (r: seq<Activity>)
    ensures forall a :: a in r <==> a in acts && a.projectId !in pids
  {
    if acts == [] then []
    else
      var last := acts[|acts| - 1];
      assert forall a :: a in acts <==> a in acts[..|acts| - 1] || a == last;
      ActivitiesOutside(acts[..|acts| - 1], pids) + (if last.projectId in pids then [] else [last])
  }

  /** A row newer than all of `rest` can go after it. */
  lemma ChronologicalSnoc(rest: seq<Activity>, last: Activity)
    requires Chronological(rest)
    requires forall a :: a in rest ==> a.createdAt < last.createdAt && a.id < last.id
    ensures Chronological(rest + [last])
  {
    var r := rest + [last];
    forall i, j | 0 <= i < j < |r| ensures r[i].createdAt < r[j].createdAt && r[i].id < r[j].id {
      assert r[i] == rest[i] && rest[i] in rest;
      if j < |rest| {
        assert r[j] == rest[j];
      }
    }
  }

  /** The cascade keeps the log in time order. */
  lemma {:induction false} ActivitiesOutsideChronological(acts: seq<Activity>, pids: set<nat>)
    requires Chronological(acts)
    ensures Chronological(ActivitiesOutside(acts, pids))
  {
    if acts != [] {
      var front := acts[..|acts| - 1];
      var last := acts[|acts| - 1];
      assert Chronological(front);
      ActivitiesOutsideChronological(front, pids);
      if last.projectId !in pids {
        LastIsNewest(acts);
        ChronologicalSnoc(ActivitiesOutside(front, pids), last);
      }
    }
  }

  // ---------------------------------------------------------------------------
  // Table invariants

  /** Ids are handed out from 1, as a PostgreSQL serial column does; every
      project has an id below the next one, a stored owner, and every
      project attribute. */
  predicate ProjectTableOk(ps: map<nat, Project>, next: nat, users: set<nat>) {
    && 1 <= next
    && forall pid :: pid in ps ==> 1 <= pid < next && ps[pid].userId in users && ProjectRowOk(ps[pid].attrs)
  }

  /** Every item has an id below the next one, a stored project, every
      item attribute and a valid status. */
  predicate ChildTableOk(kind: Kind, m: map<nat, Child>, next: nat, pids: set<nat>) {
    && 1 <= next
    && forall id :: id in m ==> 1 <= id < next && m[id].projectId in pids && ItemRowOk(kind, m[id].attrs)
  }

  /** Every activity belongs to a stored project and is older than the
      clock, and the log is in time order. */
  predicate LogOk(acts: seq<Activity>, pids: set<nat>, next: nat, clock: nat) {
    && 1 <= next
    && (forall i :: 0 <= i < |acts| ==> acts[i].projectId in pids && 1 <= acts[i].id < next && acts[i].createdAt < clock)
    && Chronological(acts)
  }

  /** The rows of `m` whose project is not one of `pids` (the cascade). */
  function ChildrenOutside(m: map<nat, Child>, pids: set<nat>): (r: map<nat, Child>)
    ensures forall id :: id in r <==> id in m && m[id].projectId !in pids
    ensures forall id :: id in r ==> r[id] == m[id]
  {
    map id | id in m && m[id].projectId !in pids :: m[id]
  }

  /** The cascade applied to every kind's table. */
  function CascadeChildren(children: PerKind<map<nat, Child>>, pids: set<nat>): (r: PerKind<map<nat, Child>>)
    ensures forall k :: r.Get(k) == ChildrenOutside(children.Get(k), pids)
  {
    PerKind(ChildrenOutside(children.feature, pids), ChildrenOutside(children.bug, pids),
            ChildrenOutside(children.improvement, pids))
  }

  /** Each kind's table is valid. */
  predicate ChildrenOk(children: PerKind<map<nat, Child>>, nextIds: PerKind<nat>, pids: set<nat>) {
    forall k :: ChildTableOk(k, children.Get(k), nextIds.Get(k), pids)
  }

  lemma ChildrenPut(children: PerKind<map<nat, Child>>, nextIds: PerKind<nat>, pids: set<nat>,
                    kind: Kind, id: nat, c: Child)
    requires ChildrenOk(children, nextIds, pids)
    requires 1 <= id < nextIds.Get(kind) && c.projectId in pids && ItemRowOk(kind, c.attrs)
    ensures ChildrenOk(children.Set(kind, children.Get(kind)[id := c]), nextIds, pids)
  {
    assert ChildTableOk(kind, children.Get(kind), nextIds.Get(kind), pids);
  }

  lemma ChildrenInsert(children: PerKind<map<nat, Child>>, nextIds: PerKind<nat>, pids: set<nat>,
                       kind: Kind, c: Child)
    requires ChildrenOk(children, nextIds, pids)
    requires c.projectId in pids && ItemRowOk(kind, c.attrs)
    ensures nextIds.Get(kind) !in children.Get(kind)
    ensures ChildrenOk(children.Set(kind, children.Get(kind)[nextIds.Get(kind) := c]),
                       nextIds.Set(kind, nextIds.Get(kind) + 1), pids)
  {
    assert ChildTableOk(kind, children.Get(kind), nextIds.Get(kind), pids);
  }

  lemma ChildrenRemove(children: PerKind<map<nat, Child>>, nextIds: PerKind<nat>, pids: set<nat>,
                       kind: Kind, id: nat)
    requires ChildrenOk(children, nextIds, pids)
    ensures ChildrenOk(children.Set(kind, children.Get(kind) - {id}), nextIds, pids)
  {
    assert ChildTableOk(kind, children.Get(kind), nextIds.Get(kind), pids);
  }

  /** The cascade leaves every kept item's project among the kept projects. */
  lemma ChildrenCascade(children: PerKind<map<nat, Child>>, nextIds: PerKind<nat>, pids: set<nat>, removed: set<nat>)
    requires ChildrenOk(children, nextIds, pids)
    ensures ChildrenOk(CascadeChildren(children, removed), nextIds, pids - removed)
  {
    var after := CascadeChildren(children, removed);
    forall k ensures ChildTableOk(k, after.Get(k), nextIds.Get(k), pids - removed) {
      assert ChildTableOk(k, children.Get(k), nextIds.Get(k), pids);
    }
  }

  lemma ChildrenMoreProjects(children: PerKind<map<nat, Child>>, nextIds: PerKind<nat>, pids: set<nat>, more: set<nat>)
    requires ChildrenOk(children, nextIds, pids) && pids <= more
    ensures ChildrenOk(children, nextIds, more)
  {
    forall k ensures ChildTableOk(k, children.Get(k), nextIds.Get(k), more) {
      assert ChildTableOk(k, children.Get(k), nextIds.Get(k), pids);
    }
  }

  lemma ProjectsPut(ps: map<nat, Project>, next: nat, users: set<nat>, pid: nat, p: Project)
    requires ProjectTableOk(ps, next, users)
    requires 1 <= pid < next && p.userId in users && ProjectRowOk(p.attrs)
    ensures ProjectTableOk(ps[pid := p], next, users)
  {
  }

  lemma ProjectsInsert(ps: map<nat, Project>, next: nat, users: set<nat>, p: Project)
    requires ProjectTableOk(ps, next, users)
    requires p.userId in users && ProjectRowOk(p.attrs)
    ensures ProjectTableOk(ps[next := p], next + 1, users)
  {
  }

  /** Dropping the projects `removed` keeps the table valid. */
  lemma ProjectsRemove(ps: map<nat, Project>, next: nat, users: set<nat>, removed: set<nat>)
    requires ProjectTableOk(ps, next, users)
    ensures var kept := map p | p in ps && p !in removed :: ps[p];
      ProjectTableOk(kept, next, users) && kept.Keys == ps.Keys - removed
  {
  }

  /** Once a user owns no project, the user can go. */
  lemma ProjectsWithoutUser(ps: map<nat, Project>, next: nat, users: set<nat>, user: nat)
    requires ProjectTableOk(ps, next, users)
    requires forall p :: p in ps ==> ps[p].userId != user
    ensures ProjectTableOk(ps, next, users - {user})
  {
  }

  /** The cascade leaves every kept activity's project among the kept
      projects, and the log in time order. */
  lemma LogCascade(acts: seq<Activity>, pids: set<nat>, next: nat, clock: nat, removed: set<nat>)
    requires LogOk(acts, pids, next, clock)
    ensures LogOk(ActivitiesOutside(acts, removed), pids - removed, next, clock)
  {
    var r := ActivitiesOutside(acts, removed);
    ActivitiesOutsideChronological(acts, removed);
    forall i | 0 <= i < |r| ensures r[i].projectId in pids - removed && r[i].id < next && r[i].createdAt < clock {
      assert r[i] in r;
      var j :| 0 <= j < |acts| && acts[j] == r[i];
    }
  }

  /** Appending a row stamped no earlier than the clock keeps the log
      valid, also when projects have been added meanwhile. */
  lemma LogAppend(acts: seq<Activity>, pids: set<nat>, next: nat, clock: nat, more: set<nat>, a: Activity)
    requires LogOk(acts, pids, next, clock) && pids <= more
    requires a.id == next && a.createdAt >= clock && a.projectId in more
    ensures LogOk(acts + [a], more, next + 1, a.createdAt + 1)
  {
    assert forall i :: 0 <= i < |acts| ==> acts[i].createdAt < a.createdAt && acts[i].id < a.id;
  }

  /** A log stays valid when the clock moves on. */
  lemma LogLater(acts: seq<Activity>, pids: set<nat>, next: nat, clock: nat)
    requires LogOk(acts, pids, next, clock)
    ensures LogOk(acts, pids, next, clock + 1)
  {
  }

  /** A log stays valid when projects are added and the clock moves on. */
  lemma LogMoreProjects(acts: seq<Activity>, pids: set<nat>, next: nat, clock: nat, more: set<nat>)
    requires LogOk(acts, pids, next, clock) && pids <= more
    ensures LogOk(acts, more, next, clock + 1)
  {
  }

  /** `after` is `before` with one row appended. */
  predicate OneMore(before: seq<Activity>, after: seq<Activity>) {
    |after| == |before| + 1 && after[..|before|] == before
  }

  // ---------------------------------------------------------------------------
  // The store

  /** The foreign keys hold, every row is well typed, and the log is in
      time order. */
  predicate TablesOk(users: set<nat>, projects: map<nat, Project>, nextProjectId: nat,
                     children: PerKind<map<nat, Child>>, nextChildIds: PerKind<nat>,
                     activities: seq<Activity>, nextActivityId: nat, clock: nat)
  {
    && ProjectTableOk(projects, nextProjectId, users)
    && ChildrenOk(children, nextChildIds, projects.Keys)
    && LogOk(activities, projects.Keys, nextActivityId, clock)
  }

  class Store {
    var users: set<nat>
    var projects: map<nat, Project>
    /** The Feature, Bug and Improvement tables. */
    var children: PerKind<map<nat, Child>>
    var activities: seq<Activity>
    var nextProjectId: nat
    var nextChildIds: PerKind<nat>
    var nextActivityId: nat
    var clock: nat

    /** The tables, counters and clock satisfy `TablesOk`. */
    predicate Valid()
      reads this
    {
      TablesOk(users, projects, nextProjectId, children, nextChildIds, activities, nextActivityId, clock)
    }

    constructor(users: set<nat>)
      ensures Valid()
      ensures this.users == users && projects == map[] && activities == []
      ensures forall k :: children.Get(k) == map[]
    {
      this.users := users;
      projects := map[];
      children := PerKind(map[], map[], map[]);
      activities := [];
      nextProjectId := 1;
      nextChildIds := PerKind(1, 1, 1);
      nextActivityId := 1;
      clock := 0;
    }

    // -------------------------------------------------------------------------
    // Permissions and querysets

    predicate OwnsProject(user: nat, pid: int)
      reads this
    {
      pid >= 0 && pid in projects && projects[pid].userId == user
    }

    /** `IsOwner.has_object_permission`. */
    predicate IsOwner(user: nat, obj: Obj)
      reads this
    {
      match obj
      case ProjectObj(p) => p.userId == user
      case ChildObj(c) => OwnsProject(user, c.projectId)
      case ActivityObj(a) => OwnsProject(user, a.projectId)
      case OtherObj => false
    }

    /** `Project.objects.filter(user=user)`. */
    function OwnedProjects(user: nat): (r: map<nat, Project>)
      reads this
      ensures forall pid :: pid in r <==> pid in projects && IsOwner(user, ProjectObj(projects[pid]))
      ensures forall pid :: pid in r ==> r[pid] == projects[pid]
    {
      map pid | pid in projects && projects[pid].userId == user :: projects[pid]
    }

    /** `Feature.objects.filter(project__user=user)` and its Bug and
        Improvement counterparts. */
    function OwnedChildren(user: nat, kind: Kind): (r: map<nat, Child>)
      reads this
      ensures forall id :: id in r <==> id in children.Get(kind) && IsOwner(user, ChildObj(children.Get(kind)[id]))
      ensures forall id :: id in r ==> r[id] == children.Get(kind)[id]
    {
      map id | id in children.Get(kind) && OwnsProject(user, children.Get(kind)[id].projectId) :: children.Get(kind)[id]
    }

    /** The `ActivityViewSet` queryset: the user's activities, newest first. */
    function ActivityList(user: nat): (r: seq<Activity>)
      reads this
      ensures forall a :: a in r <==> a in activities && IsOwner(user, ActivityObj(a))
    {
      ActivitiesOf(activities, OwnedProjects(user).Keys)
    }

    /** `ProjectViewSet.activities`: 404 unless the user owns the project,
        else its activities, newest first. */
    function ProjectActivities(user: nat, pid: nat): (r: Result<seq<Activity>>)
      reads this
      ensures r.Err? <==> !OwnsProject(user, pid)
      ensures r.Err? ==> r.error == NotFound
      ensures r.Ok? ==> forall a :: a in r.value <==> a in activities && a.projectId == pid
    {
      if OwnsProject(user, pid) then Ok(ActivitiesOf(activities, {pid})) else Err(NotFound)
    }

    /** Both listings are ordered newest first. */
    lemma ListingsNewestFirst(user: nat, pid: nat)
      requires Valid()
      ensures NewestFirst(ActivityList(user))
      ensures ProjectActivities(user, pid).Ok? ==> NewestFirst(ProjectActivities(user, pid).value)
    {
      ActivitiesOfNewestFirst(activities, OwnedProjects(user).Keys);
      ActivitiesOfNewestFirst(activities, {pid});
    }

    /** `get_object_or_404(Project, id=arg, user=user)` in `perform_create`:
        no id or an id of no owned project is 404, an id `int()` rejects is
        an uncaught error. */
    function FindOwnedProject(user: nat, arg: Option<Json>): (r: Result<nat>)
      reads this
      ensures r.Ok? <==> arg.Some? && PkOf(arg.value).Some? && OwnsProject(user, PkOf(arg.value).value)
      ensures r.Ok? ==> r.value == PkOf(arg.value).value
      ensures r.Err? && arg.Some? && PkOf(arg.value).None? ==> r.error == ServerError
      ensures r.Err? && !(arg.Some? && PkOf(arg.value).None?) ==> r.error == NotFound
    {
      match arg
      case None => Err(NotFound)
      case Some(j) =>
        match PkOf(j)
        case None => Err(ServerError)
        case Some(i) => if OwnsProject(user, i) then Ok(i as nat) else Err(NotFound)
    }

    /** A project id sent as text with whitespace around it finds the
        project the user owns. */
    lemma FindPaddedId(user: nat, pre: string, pid: nat, post: string)
      requires AllSpace(PySpace, pre) && AllSpace(PySpace, post)
      requires OwnsProject(user, pid)
      ensures FindOwnedProject(user, Some(JStr(pre + IntToString(pid) + post))) == Ok(pid)
    {
      PkOfText(pre, pid, post);
    }

    /** A negative id casts, but names no project: 404, not a server error. */
    lemma FindNegativeId(user: nat, i: int)
      requires i < 0
      ensures FindOwnedProject(user, Some(JStr(IntToString(i)))) == Err(NotFound)
      ensures FindOwnedProject(user, Some(JInt(i))) == Err(NotFound)
    {
      PyIntOfIntString(i);
    }

    // -------------------------------------------------------------------------
    // Row writes

    /** What `Valid` says of the kind's item `id`. */
    lemma ChildRow(kind: Kind, id: nat)
      requires Valid() && id in children.Get(kind)
      ensures children.Get(kind)[id].projectId in projects && ItemRowOk(kind, children.Get(kind)[id].attrs)
    {
      assert ChildTableOk(kind, children.Get(kind), nextChildIds.Get(kind), projects.Keys);
    }

    /** Every item's project is stored. */
    lemma ChildProjectsStored()
      requires Valid()
      ensures forall k, id :: id in children.Get(k) ==> children.Get(k)[id].projectId in projects
    {
      forall k, id | id in children.Get(k) ensures children.Get(k)[id].projectId in projects {
        ChildRow(k, id);
      }
    }

    /** `Activity.objects.create(...)`: one row appended, stamped with the
        clock. */
    method LogActivity(pid: nat, atype: string, entity: string, entityId: Option<int>, description: string)
      requires Valid() && pid in projects
      modifies this
      ensures Valid()
      ensures activities == old(activities) + [Activity(old(nextActivityId), pid, atype, entity, entityId, description, old(clock))]
      ensures nextActivityId == old(nextActivityId) + 1 && clock == old(clock) + 1
      ensures users == old(users) && projects == old(projects) && children == old(children)
      ensures nextProjectId == old(nextProjectId) && nextChildIds == old(nextChildIds)
    {
      var a := Activity(nextActivityId, pid, atype, entity, entityId, description, clock);
      LogAppend(activities, projects.Keys, nextActivityId, clock, projects.Keys, a);
      activities := activities + [a];
      nextActivityId := nextActivityId + 1;
      clock := clock + 1;
    }

    /** Inserts an item of the kind under its next id, stamped with the
        clock. */
    method InsertChild(kind: Kind, pid: nat, attrs: Instance) returns (id: nat)
      requires Valid() && pid in projects && ItemRowOk(kind, attrs)
      modifies this
      ensures Valid()
      ensures id == old(nextChildIds.Get(kind)) && id !in old(children.Get(kind))
      ensures children == old(children).Set(kind, old(children.Get(kind))[id := Child(pid, attrs, old(clock))])
      ensures nextChildIds == old(nextChildIds).Set(kind, id + 1) && clock == old(clock) + 1
      ensures users == old(users) && projects == old(projects) && activities == old(activities)
      ensures nextProjectId == old(nextProjectId) && nextActivityId == old(nextActivityId)
    {
      id := nextChildIds.Get(kind);
      var c := Child(pid, attrs, clock);
      ChildrenInsert(children, nextChildIds, projects.Keys, kind, c);
      LogLater(activities, projects.Keys, nextActivityId, clock);
      assert TablesOk(users, projects, nextProjectId, children.Set(kind, children.Get(kind)[id := c]),
                      nextChildIds.Set(kind, id + 1), activities, nextActivityId, clock + 1);
      children := children.Set(kind, children.Get(kind)[id := c]);
      nextChildIds := nextChildIds.Set(kind, id + 1);
      clock := clock + 1;
    }

    /** Replaces the attributes of the kind's item `id`. */
    method PutChild(kind: Kind, id: nat, attrs: Instance)
      requires Valid() && id in children.Get(kind) && ItemRowOk(kind, attrs)
      modifies this
      ensures Valid()
      ensures children == old(children).Set(kind, old(children.Get(kind))[id := old(children.Get(kind))[id].(attrs := attrs)])
      ensures users == old(users) && projects == old(projects) && activities == old(activities)
      ensures nextProjectId == old(nextProjectId) && nextChildIds == old(nextChildIds)
      ensures nextActivityId == old(nextActivityId) && clock == old(clock)
    {
      ChildRow(kind, id);
      var c := children.Get(kind)[id].(attrs := attrs);
      ChildrenPut(children, nextChildIds, projects.Keys, kind, id, c);
      children := children.Set(kind, children.Get(kind)[id := c]);
    }

    /** Inserts a project owned by `user` under the next id, stamped with the
        clock. */
    method InsertProject(user: nat, attrs: Instance) returns (pid: nat)
      requires Valid() && user in users && ProjectRowOk(attrs)
      modifies this
      ensures Valid()
      ensures pid == old(nextProjectId) && pid !in old(projects)
      ensures projects == old(projects)[pid := Project(user, attrs, old(clock))]
      ensures nextProjectId == pid + 1 && clock == old(clock) + 1
      ensures users == old(users) && children == old(children) && activities == old(activities)
      ensures nextChildIds == old(nextChildIds) && nextActivityId == old(nextActivityId)
    {
      pid := nextProjectId;
      var p := Project(user, attrs, clock);
      ProjectsInsert(projects, nextProjectId, users, p);
      var keys := projects[pid := p].Keys;
      assert keys == projects.Keys + {pid};
      ChildrenMoreProjects(children, nextChildIds, projects.Keys, keys);
      LogMoreProjects(activities, projects.Keys, nextActivityId, clock, keys);
      assert TablesOk(users, projects[pid := p], nextProjectId + 1, children, nextChildIds,
                      activities, nextActivityId, clock + 1);
      projects := projects[pid := p];
      nextProjectId := nextProjectId + 1;
      clock := clock + 1;
    }

    /** Replaces the attributes of project `pid`. */
    method PutProject(pid: nat, attrs: Instance)
      requires Valid() && pid in projects && ProjectRowOk(attrs)
      modifies this
      ensures Valid()
      ensures projects == old(projects)[pid := old(projects)[pid].(attrs := attrs)]
      ensures users == old(users) && children == old(children) && activities == old(activities)
      ensures nextProjectId == old(nextProjectId) && nextChildIds == old(nextChildIds)
      ensures nextActivityId == old(nextActivityId) && clock == old(clock)
    {
      var p := projects[pid].(attrs := attrs);
      ProjectsPut(projects, nextProjectId, users, pid, p);
      assert projects[pid := p].Keys == projects.Keys;
      assert TablesOk(users, projects[pid := p], nextProjectId, children, nextChildIds,
                      activities, nextActivityId, clock);
      projects := projects[pid := p];
    }

    // -------------------------------------------------------------------------
    // Items

    /** `perform_create` with `FeatureSerializer.create` (and the Bug and
        Improvement counterparts): validation (400) comes first, then the
        owned-project lookup (404); on success one item row and one
        "Create" activity are added and nothing else changes. */
    method CreateChild(user: nat, kind: Kind, body: Body, urlProjectId: Option<int>) returns (r: Result<nat>)
      requires Valid()
      modifies this
      ensures Valid()
      ensures ItemData(kind, body, false).Err? ==> r == Err(ItemData(kind, body, false).error)
      ensures ItemData(kind, body, false).Ok? ==>
        var target := old(FindOwnedProject(user, ProjectIdArg(body, urlProjectId)));
        (r.Err? <==> target.Err?) && (r.Err? ==> r.error == target.error)
      ensures r.Err? ==> unchanged(this)
      ensures r.Ok? ==>
        var id := r.value;
        var pid := old(FindOwnedProject(user, ProjectIdArg(body, urlProjectId))).value;
        var attrs := NewChildAttrs(kind, ItemData(kind, body, false).value);
        && id == old(nextChildIds.Get(kind)) && id !in old(children.Get(kind))
        && children == old(children).Set(kind, old(children.Get(kind))[id := Child(pid, attrs, old(clock))])
        && Description in attrs
        && OneMore(old(activities), activities)
        && var a := activities[|activities| - 1];
        && a.id == old(nextActivityId) && a.projectId == pid && a.atype == "Create" && a.entity == EntityName(kind)
        && a.entityId == Some(id) && a.description == CreatedText(EntityName(kind), ValueStr(attrs[Description]))
        && a.createdAt == old(clock) + 1
        && users == old(users) && projects == old(projects)
    {
      var data := ItemData(kind, body, false);
      if data.Err? {
        return Err(data.error);
      }
      var target := FindOwnedProject(user, ProjectIdArg(body, urlProjectId));
      if target.Err? {
        return Err(target.error);
      }
      var pid := target.value;
      NewChildRow(kind, body);
      var attrs := NewChildAttrs(kind, data.value);
      var id := InsertChild(kind, pid, attrs);
      LogActivity(pid, "Create", EntityName(kind), Some(id), CreatedText(EntityName(kind), ValueStr(attrs[Description])));
      r := Ok(id);
    }

    /** `update` (PUT, or PATCH when `partial`) with the item serializer's
        `update`: 404 unless the item is in the user's queryset, then 400 on
        invalid data; otherwise the changed attributes are set, every
        validated attribute is set again, and one "Update" activity listing
        the changes is appended, even when nothing changed. */
    method UpdateChild(user: nat, kind: Kind, id: nat, body: Body, partial: bool) returns (r: Result<nat>)
      requires Valid()
      modifies this
      ensures Valid()
      ensures r.Err? <==> id !in old(OwnedChildren(user, kind)) || ItemData(kind, body, partial).Err?
      ensures id !in old(OwnedChildren(user, kind)) ==> r == Err(NotFound)
      ensures r.Err? ==> unchanged(this)
      ensures r.Ok? ==>
        var before := old(children.Get(kind))[id];
        var patch := ItemData(kind, body, partial).value;
        var after := ApplyPatch(before.attrs, patch);
        && r.value == id
        && children == old(children).Set(kind, old(children.Get(kind))[id := before.(attrs := after)])
        && PatchFits(before.attrs, patch) && Description in after
        && OneMore(old(activities), activities)
        && var a := activities[|activities| - 1];
        && a.id == old(nextActivityId) && a.projectId == before.projectId && a.atype == "Update" && a.entity == EntityName(kind)
        && a.entityId == Some(id) && a.createdAt == old(clock)
        && a.description == UpdatedText(EntityName(kind), ValueStr(after[Description]), ChangeLines(ChangedData(before.attrs, patch)))
        && users == old(users) && projects == old(projects)
    {
      if id !in OwnedChildren(user, kind) {
        return Err(NotFound);
      }
      var data := ItemData(kind, body, partial);
      if data.Err? {
        return Err(data.error);
      }
      var before := children.Get(kind)[id];
      ChildRow(kind, id);
      var patch := data.value;
      ItemDataShape(kind, body, partial);
      ItemRowFits(kind, before.attrs, patch);
      // `if 'tags' in validated_data` never holds: `tags` is read-only.
      var changed := GetChangedData(before.attrs, patch);
      var attrs := SetChangedAttrs(before.attrs, changed);
      ChangesAgreeWithPatch(before.attrs, patch);
      ApplyPatchTwice(before.attrs, patch);
      attrs := ApplyPatch(attrs, patch);
      ItemRowPatch(kind, before.attrs, patch);
      var lines := BuildChangeLines(changed);
      PutChild(kind, id, attrs);
      LogActivity(before.projectId, "Update", EntityName(kind), Some(id),
                  UpdatedText(EntityName(kind), ValueStr(attrs[Description]), lines));
      r := Ok(id);
    }

    /** `update_status`: 404 unless the item is in the user's queryset, 400
        on an invalid status; otherwise only `status` is written and one
        "status_change" activity naming the item's status is appended. */
    method UpdateStatus(user: nat, kind: Kind, id: nat, body: Body) returns (r: Result<nat>)
      requires Valid()
      modifies this
      ensures Valid()
      ensures r.Err? <==> id !in old(OwnedChildren(user, kind)) || StatusData(kind, body).Err?
      ensures id !in old(OwnedChildren(user, kind)) ==> r == Err(NotFound)
      ensures r.Err? ==> unchanged(this)
      ensures r.Ok? ==>
        var before := old(children.Get(kind))[id];
        && Status in before.attrs && Description in before.attrs
        && var status := if "status" in body then VText(body["status"].s) else before.attrs[Status];
        && r.value == id
        && children == old(children).Set(kind, old(children.Get(kind))[id := before.(attrs := before.attrs[Status := status])])
        && OneMore(old(activities), activities)
        && var a := activities[|activities| - 1];
        && a.id == old(nextActivityId) && a.projectId == before.projectId && a.atype == "status_change"
        && a.entity == EntityName(kind) && a.entityId == Some(id) && a.createdAt == old(clock)
        && a.description == StatusText(EntityName(kind), ValueStr(before.attrs[Description]), ValueStr(status))
        && users == old(users) && projects == old(projects)
    {
      if id !in OwnedChildren(user, kind) {
        return Err(NotFound);
      }
      var data := StatusData(kind, body);
      if data.Err? {
        return Err(data.error);
      }
      var before := children.Get(kind)[id];
      ChildRow(kind, id);
      var status := if "status" in body then VText(body["status"].s) else before.attrs[Status];
      var attrs := ApplyPatch(before.attrs, data.value);
      StatusPatch(kind, body, before.attrs);
      PutChild(kind, id, attrs);
      LogActivity(before.projectId, "status_change", EntityName(kind), Some(id),
                  StatusText(EntityName(kind), ValueStr(attrs[Description]), ValueStr(attrs[Status])));
      r := Ok(id);
    }

    /** `destroy`: 404 unless the item is in the user's queryset; the
        permission check then passes and the row is deleted. No activity
        is written. */
    method DeleteChild(user: nat, kind: Kind, id: nat) returns (r: Result<nat>)
      requires Valid()
      modifies this
      ensures Valid()
      ensures r.Err? <==> id !in old(OwnedChildren(user, kind))
      ensures r.Err? ==> r == Err(NotFound) && unchanged(this)
      ensures r.Ok? ==>
        && children == old(children).Set(kind, old(children.Get(kind)) - {id})
        && activities == old(activities) && users == old(users) && projects == old(projects)
    {
      if id !in OwnedChildren(user, kind) {
        return Err(NotFound);
      }
      assert IsOwner(user, ChildObj(children.Get(kind)[id]));
      ChildrenRemove(children, nextChildIds, projects.Keys, kind, id);
      children := children.Set(kind, children.Get(kind) - {id});
      r := Ok(id);
    }

    // -------------------------------------------------------------------------
    // Projects

    /** `ProjectSerializer.create`: 400 on invalid data; otherwise a project
        owned by the requesting user and one "Create" activity. */
    method CreateProject(user: nat, body: Body) returns (r: Result<nat>)
      requires Valid() && user in users
      modifies this
      ensures Valid()
      ensures r.Err? <==> ProjectData(body, false).Err?
      ensures r.Err? ==> r == Err(ProjectData(body, false).error) && unchanged(this)
      ensures r.Ok? ==>
        var pid := r.value;
        var attrs := NewProjectAttrs(ProjectData(body, false).value);
        && pid == old(nextProjectId) && pid !in old(projects)
        && projects == old(projects)[pid := Project(user, attrs, old(clock))]
        && Name in attrs
        && OneMore(old(activities), activities)
        && var a := activities[|activities| - 1];
        && a.id == old(nextActivityId) && a.projectId == pid && a.atype == "Create" && a.entity == "Project"
        && a.entityId == Some(pid) && a.description == CreatedText("Project", ValueStr(attrs[Name]))
        && a.createdAt == old(clock) + 1
        && children == old(children)
        && users == old(users)
    {
      var data := ProjectData(body, false);
      if data.Err? {
        return Err(data.error);
      }
      NewProjectRow(body);
      var attrs := NewProjectAttrs(data.value);
      var pid := InsertProject(user, attrs);
      LogActivity(pid, "Create", "Project", Some(pid), CreatedText("Project", ValueStr(attrs[Name])));
      r := Ok(pid);
    }

    /** `ProjectSerializer.update`: 404 unless the user owns the project, 400
        on invalid data; otherwise only the changed attributes are set and
        one "Update" activity listing them is appended. */
    method UpdateProject(user: nat, pid: nat, body: Body, partial: bool) returns (r: Result<nat>)
      requires Valid()
      modifies this
      ensures Valid()
      ensures r.Err? <==> pid !in old(OwnedProjects(user)) || ProjectData(body, partial).Err?
      ensures pid !in old(OwnedProjects(user)) ==> r == Err(NotFound)
      ensures r.Err? ==> unchanged(this)
      ensures r.Ok? ==>
        var before := old(projects)[pid];
        var patch := ProjectData(body, partial).value;
        && PatchFits(before.attrs, patch)
        && var changed := ChangedData(before.attrs, patch);
        && var after := ApplyChanges(before.attrs, changed);
        && r.value == pid
        && after == ApplyPatch(before.attrs, patch)
        && projects == old(projects)[pid := before.(attrs := after)]
        && Name in after
        && OneMore(old(activities), activities)
        && var a := activities[|activities| - 1];
        && a.id == old(nextActivityId) && a.projectId == pid && a.atype == "Update" && a.entity == "Project"
        && a.entityId == Some(pid) && a.createdAt == old(clock)
        && a.description == UpdatedText("Project", ValueStr(after[Name]), ChangeLines(changed))
        && children == old(children)
        && users == old(users)
    {
      if pid !in OwnedProjects(user) {
        return Err(NotFound);
      }
      var data := ProjectData(body, partial);
      if data.Err? {
        return Err(data.error);
      }
      var before := projects[pid];
      var patch := data.value;
      ProjectDataShape(body, partial);
      ProjectRowFits(before.attrs, patch);
      var changed := GetChangedData(before.attrs, patch);
      var attrs := SetChangedAttrs(before.attrs, changed);
      ChangesAgreeWithPatch(before.attrs, patch);
      ProjectRowPatch(before.attrs, patch);
      var lines := BuildChangeLines(changed);
      PutProject(pid, attrs);
      LogActivity(pid, "Update", "Project", Some(pid), UpdatedText("Project", ValueStr(attrs[Name]), lines));
      r := Ok(pid);
    }

    /** Deletes the projects `pids` and, through `on_delete=CASCADE`, their
        items and activities. */
    method RemoveProjects(pids: set<nat>)
      requires Valid()
      modifies this
      ensures Valid()
      ensures projects == map p | p in old(projects) && p !in pids :: old(projects)[p]
      ensures children == CascadeChildren(old(children), pids)
      ensures activities == ActivitiesOutside(old(activities), pids)
      ensures users == old(users) && nextProjectId == old(nextProjectId) && nextChildIds == old(nextChildIds)
      ensures nextActivityId == old(nextActivityId) && clock == old(clock)
    {
      ProjectsRemove(projects, nextProjectId, users, pids);
      ChildrenCascade(children, nextChildIds, projects.Keys, pids);
      LogCascade(activities, projects.Keys, nextActivityId, clock, pids);
      projects := map p | p in projects && p !in pids :: projects[p];
      children := CascadeChildren(children, pids);
      activities := ActivitiesOutside(activities, pids);
    }

    /** `destroy` on a project: 404 unless the user owns it; the permission
        check then passes, and the project, its items and its activities
        are deleted. No activity is written. */
    method DeleteProject(user: nat, pid: nat) returns (r: Result<nat>)
      requires Valid()
      modifies this
      ensures Valid()
      ensures r.Err? <==> pid !in old(OwnedProjects(user))
      ensures r.Err? ==> r == Err(NotFound) && unchanged(this)
      ensures r.Ok? ==>
        && projects == old(projects) - {pid}
        && children == CascadeChildren(old(children), {pid})
        && activities == ActivitiesOutside(old(activities), {pid})
        && (forall k, id :: id in children.Get(k) <==> id in old(children.Get(k)) && old(children.Get(k))[id].projectId != pid)
        && (forall a :: a in activities <==> a in old(activities) && a.projectId != pid)
        && users == old(users) && nextProjectId == old(nextProjectId) && nextChildIds == old(nextChildIds)
        && nextActivityId == old(nextActivityId) && clock == old(clock)
    {
      if pid !in OwnedProjects(user) {
        return Err(NotFound);
      }
      assert IsOwner(user, ProjectObj(projects[pid]));
      RemoveProjects({pid});
      r := Ok(pid);
    }

    /** Deleting a user cascades to their projects, and from there to the
        projects' items and activities. */
    method DeleteUser(user: nat)
      requires Valid()
      modifies this
      ensures Valid()
      ensures users == old(users) - {user}
      ensures forall pid :: pid in projects <==> pid in old(projects) && old(projects)[pid].userId != user
      ensures forall k, id :: id in children.Get(k) <==> id in old(children.Get(k)) && old(children.Get(k))[id].projectId in projects
      ensures forall a :: a in activities <==> a in old(activities) && a.projectId in projects
      ensures projects == map p | p in old(projects) && old(projects)[p].userId != user :: old(projects)[p]
      ensures children == CascadeChildren(old(children), old(OwnedProjects(user)).Keys)
      ensures activities == ActivitiesOutside(old(activities), old(OwnedProjects(user)).Keys)
      ensures nextProjectId == old(nextProjectId) && nextChildIds == old(nextChildIds)
      ensures nextActivityId == old(nextActivityId) && clock == old(clock)
    {
      var owned := OwnedProjects(user).Keys;
      assert (map p | p in projects && projects[p].userId != user :: projects[p])
          == (map p | p in projects && p !in owned :: projects[p]);
      ChildProjectsStored();
      RemoveProjects(owned);
      users := users - {user};
    }
  }
}
