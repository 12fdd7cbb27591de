/** The declarations of the Django models: the three kinds of project item
    and their status choices and defaults, the field defaults of an item, the
    writable fields of a project, the Activity choice domains, and the values
    a model attribute can hold. */
module Models {
  import opened Common
  import opened Strings
  import opened Json

  /** The three kinds of item a project holds. */
  datatype Kind = Feature | Bug | Improvement

  /** The value of one model attribute: a nullable text or integer column,
      or the decoded content of a JSON column. */
  datatype Value = VNull | VText(text: string) | VInt(n: int) | VJson(json: Json)

  /** Python `str(v)` of an attribute value, as an f-string shows it. */
  function ValueStr(v: Value): (r: string)
    ensures v.VText? ==> r == v.text
    ensures v.VNull? ==> r == "None"
  {
    match v
    case VNull => "None"
    case VText(s) => s
    case VInt(n) => IntToString(n)
    case VJson(j) => PyStr(j)
  }

  /** A JSON list holding one string shows the string's `repr`, and the text
      between the brackets reads back as that string. */
  lemma ValueStrShowsList(s: string)
    ensures ValueStr(VJson(JArray([JStr(s)]))) == "[" + StrRepr(s) + "]"
    ensures ReadLiteral(ValueStr(VJson(JArray([JStr(s)])))[1..|StrRepr(s)| + 1]) == Some(s)
  {
    assert ReprItems([JStr(s)]) == PyRepr(JStr(s)) == StrRepr(s);
    assert PyStr(JArray([JStr(s)])) == PyRepr(JArray([JStr(s)])) == "[" + StrRepr(s) + "]";
    var t := ValueStr(VJson(JArray([JStr(s)])));
    assert t[1..|StrRepr(s)| + 1] == StrRepr(s);
    ReprRoundTrip(s);
  }

  // ---------------------------------------------------------------------------
  // Status choices (models.py STATUS_CHOICES and defaults)

  /** The stored values of a kind's `STATUS_CHOICES`, in declaration order. */
  function StatusChoices(kind: Kind): (r: seq<string>)
    ensures |r| == 2
  {
    match kind
    case Bug => ["open", "fixed"]
    case _ => ["pending", "completed"]
  }

  predicate IsStatusOf(kind: Kind, s: string) {
    s in StatusChoices(kind)
  }

  /** The model default of a kind's `status`. */
  function DefaultStatus(kind: Kind): (r: string)
    ensures IsStatusOf(kind, r)
    ensures r == StatusChoices(kind)[0]
  {
    if kind == Bug then "open" else "pending"
  }

  /** Feature and Improvement share {pending, completed}; Bug has
      {open, fixed}; the two sets have nothing in common. */
  lemma StatusDomains(s: string)
    ensures IsStatusOf(Feature, s) <==> s == "pending" || s == "completed"
    ensures IsStatusOf(Improvement, s) <==> s == "pending" || s == "completed"
    ensures IsStatusOf(Bug, s) <==> s == "open" || s == "fixed"
    ensures !(IsStatusOf(Bug, s) && IsStatusOf(Feature, s))
  {
  }

  /** One value per kind of item: for instance one table per kind,
      or each table's next id. */
  datatype PerKind<T> = PerKind(feature: T, bug: T, improvement: T) {
    function Get(kind: Kind): T {
      match kind
      case Feature => feature
      case Bug => bug
      case Improvement => improvement
    }

    function Set(kind: Kind, v: T): (r: PerKind<T>)
      ensures r.Get(kind) == v
      ensures forall k :: k != kind ==> r.Get(k) == Get(k)
    {
      match kind
      case Feature => this.(feature := v)
      case Bug => this.(bug := v)
      case Improvement => this.(improvement := v)
    }
  }

  /** The entity name the serializers write into Activity rows. */
  function EntityName(kind: Kind): (r: string)
    ensures r != []
  {
    match kind
    case Feature => "Feature"
    case Bug => "Bug"
    case Improvement => "Improvement"
  }

  lemma EntityNameInjective(a: Kind, b: Kind)
    requires EntityName(a) == EntityName(b)
    ensures a == b
  {
  }

  // ---------------------------------------------------------------------------
  // Model attributes

  /** The writable model attributes: the project columns (`description` is
      shared with the items) and the item columns `status`, `rank` and
      `tags`. */
  datatype Attr =
    | Name | Description | ProductionLink | RepoLink | FrontendLink | BackendLink
    | FrontendDetails | BackendDetails | EnvDetails | TestUserDetails | AuthDetails | SetupSteps
    | Status | Rank | Tags

  /** Each attribute's Python name, as `setattr` and the change lines use
      it. */
  const AttrNames: map<Attr, string> :=
    map[Name := "name", Description := "description", ProductionLink := "production_link",
        RepoLink := "repo_link", FrontendLink := "frontend_link", BackendLink := "backend_link",
        FrontendDetails := "frontend_details", BackendDetails := "backend_details",
        EnvDetails := "env_details", TestUserDetails := "test_user_details",
        AuthDetails := "auth_details", SetupSteps := "setup_steps",
        Status := "status", Rank := "rank", Tags := "tags"]

  function AttrName(a: Attr): string {
    AttrNamesTotal(a);
    AttrNames[a]
  }

  lemma AttrNamesTotal(a: Attr)
    ensures a in AttrNames
  {
    match a
    case Name =>
    case Description =>
    case ProductionLink =>
    case RepoLink =>
    case FrontendLink =>
    case BackendLink =>
    case FrontendDetails =>
    case BackendDetails =>
    case EnvDetails =>
    case TestUserDetails =>
    case AuthDetails =>
    case SetupSteps =>
    case Status =>
    case Rank =>
    case Tags =>
  }

  // ---------------------------------------------------------------------------
  // Item fields (Feature, Bug and Improvement share one layout)

  const DefaultRank := 0
  const DefaultTags := "[]"

  /** The attributes of an item row besides its id, project and timestamp. */
  function ItemAttrNames(): set<Attr> {
    {Description, Status, Rank, Tags}
  }

  /** Whether `v` is of the type an item's attribute `attr` holds: text for
      the description and tags, a choice of the kind for the status, an
      integer for the rank. */
  predicate ItemValueOk(kind: Kind, attr: Attr, v: Value) {
    match attr
    case Status => v.VText? && IsStatusOf(kind, v.text)
    case Rank => v.VInt?
    case _ => v.VText?
  }

  /** A well-typed item row: each item attribute is there with a value of
      its type. */
  predicate ItemAttrsOk(kind: Kind, attrs: map<Attr, Value>) {
    && Description in attrs && ItemValueOk(kind, Description, attrs[Description])
    && Status in attrs && ItemValueOk(kind, Status, attrs[Status])
    && Rank in attrs && ItemValueOk(kind, Rank, attrs[Rank])
    && Tags in attrs && ItemValueOk(kind, Tags, attrs[Tags])
  }

  /** The attributes an item row gets when a field is not given: Django's
      empty text for the description (it has no default), the kind's
      default status, rank 0 and tags "[]". */
  function ItemDefaults(kind: Kind): (r: map<Attr, Value>)
    ensures ItemAttrsOk(kind, r)
    ensures r[Status] == VText(DefaultStatus(kind)) && r[Rank] == VInt(DefaultRank)
    ensures r[Tags] == VText(DefaultTags)
  {
    map[Description := VText(""),
        Status := VText(DefaultStatus(kind)),
        Rank := VInt(DefaultRank),
        Tags := VText(DefaultTags)]
  }

  // ---------------------------------------------------------------------------
  // Project fields

  /** The writable fields of a project in the serializer's field order, each
      as (name in the API, model attribute). */
  function ProjectFields(): seq<(string, Attr)> {
    [("name", Name),
     ("description", Description),
     ("productionLink", ProductionLink),
     ("repoLink", RepoLink),
     ("frontendLink", FrontendLink),
     ("backendLink", BackendLink),
     ("frontendDetails", FrontendDetails),
     ("backendDetails", BackendDetails),
     ("envDetails", EnvDetails),
     ("testUserDetails", TestUserDetails),
     ("authDetails", AuthDetails),
     ("setupSteps", SetupSteps)]
  }

  /** The attributes of a project row besides its id, owner and timestamp. */
  function ProjectAttrNames(): (r: set<Attr>)
    ensures forall i :: 0 <= i < |ProjectFields()| ==> ProjectFields()[i].1 in r
  {
    {Name, Description, ProductionLink, RepoLink, FrontendLink, BackendLink,
     FrontendDetails, BackendDetails, EnvDetails, TestUserDetails, AuthDetails, SetupSteps}
  }

  /** The model default of `setup_steps`: an empty list. */
  const DefaultSetupSteps := VJson(JArray([]))

  /** Whether `v` is of the type a project's attribute `attr` holds: text for
      the name, JSON for `setup_steps`, nullable text for the others. */
  predicate ProjectValueOk(attr: Attr, v: Value) {
    match attr
    case Name => v.VText?
    case SetupSteps => v.VJson?
    case _ => v.VNull? || v.VText?
  }

  /** A well-typed project row: each project attribute is there with a
      value of its type. */
  predicate ProjectAttrsOk(attrs: map<Attr, Value>) {
    && ProjectAttrOk(attrs, Name) && ProjectAttrOk(attrs, Description)
    && ProjectAttrOk(attrs, ProductionLink) && ProjectAttrOk(attrs, RepoLink)
    && ProjectAttrOk(attrs, FrontendLink) && ProjectAttrOk(attrs, BackendLink)
    && ProjectAttrOk(attrs, FrontendDetails) && ProjectAttrOk(attrs, BackendDetails)
    && ProjectAttrOk(attrs, EnvDetails) && ProjectAttrOk(attrs, TestUserDetails)
    && ProjectAttrOk(attrs, AuthDetails) && ProjectAttrOk(attrs, SetupSteps)
  }

  predicate ProjectAttrOk(attrs: map<Attr, Value>, a: Attr) {
    a in attrs && ProjectValueOk(a, attrs[a])
  }

  /** The value a project attribute gets when it is not given: Django's empty
      text for `name` (it has no default), the empty list for `setup_steps`,
      and null for the nullable text fields. */
  function ProjectDefault(attr: Attr): (v: Value)
    ensures ProjectValueOk(attr, v)
  {
    match attr
    case Name => VText("")
    case SetupSteps => DefaultSetupSteps
    case _ => VNull
  }

  function ProjectDefaults(): (r: map<Attr, Value>)
    ensures ProjectAttrsOk(r)
    ensures forall a :: a in r ==> r[a] == ProjectDefault(a)
  {
    map a | a in ProjectAttrNames() :: ProjectDefault(a)
  }

  /** The position of a project attribute in the field list. */
  function FieldPosition(a: Attr): int {
    match a
    case Name => 0
    case Description => 1
    case ProductionLink => 2
    case RepoLink => 3
    case FrontendLink => 4
    case BackendLink => 5
    case FrontendDetails => 6
    case BackendDetails => 7
    case EnvDetails => 8
    case TestUserDetails => 9
    case AuthDetails => 10
    case SetupSteps => 11
    case _ => -1
  }

  /** The field list names each attribute once, `name` first and
      `setupSteps` last, and each API name is the attribute's camel-cased
      Python name. */
  lemma ProjectFieldsShape()
    ensures |ProjectFields()| == 12
    ensures ProjectFields()[0].1 == Name && ProjectFields()[11].1 == SetupSteps
    ensures forall a, b :: 0 <= a < b < |ProjectFields()| ==> ProjectFields()[a].1 != ProjectFields()[b].1
    ensures forall a :: a in ProjectAttrNames() <==> exists i :: 0 <= i < |ProjectFields()| && ProjectFields()[i].1 == a
  {
    var fs := ProjectFields();
    forall i | 0 <= i < |fs| ensures FieldPosition(fs[i].1) == i {
    }
    forall a | a in ProjectAttrNames() ensures exists i :: 0 <= i < |fs| && fs[i].1 == a {
      match a
      case Name => assert fs[0].1 == a;
      case Description => assert fs[1].1 == a;
      case ProductionLink => assert fs[2].1 == a;
      case RepoLink => assert fs[3].1 == a;
      case FrontendLink => assert fs[4].1 == a;
      case BackendLink => assert fs[5].1 == a;
      case FrontendDetails => assert fs[6].1 == a;
      case BackendDetails => assert fs[7].1 == a;
      case EnvDetails => assert fs[8].1 == a;
      case TestUserDetails => assert fs[9].1 == a;
      case AuthDetails => assert fs[10].1 == a;
      case SetupSteps => assert fs[11].1 == a;
    }
  }

  // ---------------------------------------------------------------------------
  // Activity choice domains (models.py ACTIVITY_TYPES and ENTITY_TYPES)

  function ActivityTypes(): seq<string> {
    ["create", "update", "delete", "status_change"]
  }

  function EntityTypes(): seq<string> {
    ["project", "feature", "bug", "improvement"]
  }

  /** The type and entity strings the serializers actually write: only
      "status_change" is one of the declared choices; "Create", "Update" and
      the capitalised entity names are not. */
  lemma WrittenStringsOutsideChoices(kind: Kind)
    ensures "Create" !in ActivityTypes() && "Update" !in ActivityTypes()
    ensures "status_change" in ActivityTypes()
    ensures EntityName(kind) !in EntityTypes() && "Project" !in EntityTypes()
  {
  }
}
