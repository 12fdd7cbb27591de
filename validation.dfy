/** The validated data the model serializers hand to `create` and `update`:
    the writable fields present in the request body, converted to attribute
    values, in the serializer's field order. Read-only fields (`id`,
    `createdAt`, `projectId`, `userId`, and the method field `tags`) are
    never taken from the body. */
module Validation {
  import opened Common
  import opened Strings
  import opened Json
  import opened Models
  import opened Changes

  /** A decoded JSON request body. */
  type Body = map<string, Json>

  /** A DRF `CharField` without null or blank (`allow_blank=False`). Its
      `run_validation` refuses text that strips to nothing as blank; its
      `to_internal_value` refuses booleans, lists and objects, shows an
      integer as its decimal text, and strips the text (`trim_whitespace`
      defaults to true); then the `ProhibitNullCharactersValidator` every
      `CharField` carries refuses a stripped text holding U+0000. Null is
      refused as well. */
  function RequiredText(field: string, j: Json): (r: Result<Value>)
    ensures r.Ok? <==> (j.JStr? && !AllSpace(PySpace, j.s) && '\0' !in j.s) || j.JInt?
    ensures j.JStr? && r.Ok? ==> r.value == VText(PyStrip(j.s))
    ensures j.JInt? ==> r == Ok(VText(IntToString(j.i)))
    ensures r.Ok? ==> r.value.VText? && r.value.text != [] && '\0' !in r.value.text
    ensures r.Err? ==> r.error == ValidationError(field)
  {
    match j
    case JStr(s) =>
      TrimEmptyIff(PySpace, s);
      StripKeeps(PySpace, s, '\0');
      if PyStrip(s) == [] then Err(ValidationError(field))
      else if '\0' in PyStrip(s) then Err(ValidationError(field))
      else Ok(VText(PyStrip(s)))
    case JInt(i) => IntTextHasNoNull(i); Ok(VText(IntToString(i)))
    case _ => Err(ValidationError(field))
  }

  /** A DRF `CharField` that allows null and blank: null stays null, text
      that strips to nothing becomes `""` before any validator runs, other
      text is stripped and refused when it holds U+0000, and an integer
      becomes its decimal text. */
  function NullableText(field: string, j: Json): (r: Result<Value>)
    ensures r.Ok? <==> j.JNull? || (j.JStr? && '\0' !in j.s) || j.JInt?
    ensures r == Ok(VNull) <==> j == JNull
    ensures j.JStr? && '\0' !in j.s ==> r == Ok(VText(PyStrip(j.s)))
    ensures j.JInt? ==> r == Ok(VText(IntToString(j.i)))
    ensures r.Ok? && r.value.VText? ==> '\0' !in r.value.text
    ensures r.Err? ==> r.error == ValidationError(field)
  {
    match j
    case JNull => Ok(VNull)
    case JStr(s) =>
      TrimEmptyIff(PySpace, s);
      StripKeeps(PySpace, s, '\0');
      if PyStrip(s) == [] then Ok(VText(""))
      else if '\0' in PyStrip(s) then Err(ValidationError(field))
      else Ok(VText(PyStrip(s)))
    case JInt(i) => IntTextHasNoNull(i); Ok(VText(IntToString(i)))
    case _ => Err(ValidationError(field))
  }

  /** An integer's decimal text holds no U+0000. */
  lemma IntTextHasNoNull(i: int)
    ensures '\0' !in IntToString(i)
  {
    var s := IntToString(i);
    var ds := if i < 0 then NatToString(-i) else NatToString(i);
    assert s == (if i < 0 then "-" else "") + ds;
    assert forall k :: 0 <= k < |ds| ==> ds[k] != '\0';
  }

  /** Text holding U+0000 is refused by both text fields, whatever
      surrounds it. */
  lemma NullCharacterRefused(field: string, pre: string, post: string)
    ensures RequiredText(field, JStr(pre + "\0" + post)) == Err(ValidationError(field))
    ensures NullableText(field, JStr(pre + "\0" + post)) == Err(ValidationError(field))
  {
    var s := pre + "\0" + post;
    assert s[|pre|] == '\0';
  }

  /** Every text field gives back its own output unchanged: a stored text is
      accepted again as it is. */
  lemma TextFieldsStable(field: string, s: string)
    ensures NullableText(field, JStr(PyStrip(s))) == NullableText(field, JStr(s))
    ensures RequiredText(field, JStr(PyStrip(s))) == RequiredText(field, JStr(s))
  {
    TrimIdempotent(PySpace, s);
    TrimEmptyIff(PySpace, s);
    TrimEmptyIff(PySpace, PyStrip(s));
  }

  /** Text that strips to nothing is blank: a required text field refuses
      it, a nullable one stores `""`. */
  lemma BlankText(field: string, s: string)
    requires AllSpace(PySpace, s)
    ensures RequiredText(field, JStr(s)) == Err(ValidationError(field))
    ensures NullableText(field, JStr(s)) == Ok(VText(""))
  {
    TrimEmptyIff(PySpace, s);
  }

  /** Surrounding whitespace is dropped from a stored text. */
  lemma TextStripped(field: string, pre: string, t: string, post: string)
    requires AllSpace(PySpace, pre) && AllSpace(PySpace, post) && StrippedOf(PySpace, t) && t != []
    ensures RequiredText(field, JStr(pre + t + post))
         == if '\0' in t then Err(ValidationError(field)) else Ok(VText(t))
    ensures NullableText(field, JStr(pre + t + post))
         == if '\0' in t then Err(ValidationError(field)) else Ok(VText(t))
  {
    TrimAround(PySpace, pre, t, post);
  }

  /** The `status` choice field: one of the kind's stored choice values. */
  function StatusChoice(kind: Kind, j: Json): (r: Result<Value>)
    ensures r.Ok? <==> j.JStr? && IsStatusOf(kind, j.s)
    ensures r.Ok? ==> r.value == VText(j.s)
    ensures r.Err? ==> r.error == ValidationError("status")
  {
    if j.JStr? && IsStatusOf(kind, j.s) then Ok(VText(j.s)) else Err(ValidationError("status"))
  }

  /** The range of a PostgreSQL `integer` column, which Django gives an
      `IntegerField` as its min and max validators. */
  const IntegerMin: int := -0x8000_0000
  const IntegerMax: int := 0x7FFF_FFFF

  predicate InIntegerRange(n: int) {
    IntegerMin <= n <= IntegerMax
  }

  /** The longest a text given to a DRF `IntegerField` may be. */
  const MaxIntegerText: nat := 1000

  /** A DRF `IntegerField` built from the model's `IntegerField`: a text
      longer than 1000 characters is refused; otherwise `str(data)` with a
      `.0*` ending cut off goes through Python's `int()`, so booleans,
      lists and objects fail; null is refused; and the value must lie in
      the column's range. */
  function IntegerInput(field: string, j: Json): (r: Result<Value>)
    ensures r.Ok? ==> r.value.VInt? && InIntegerRange(r.value.n)
    ensures r.Err? ==> r.error == ValidationError(field)
  {
    var n := IntegerOf(j);
    if n.Some? && InIntegerRange(n.value) then Ok(VInt(n.value)) else Err(ValidationError(field))
  }

  /** The integer `int()` reads from the field's input, before the range
      check. */
  function IntegerOf(j: Json): Option<int> {
    match j
    case JInt(i) => PyInt(DecimalCut(IntToString(i)))
    case JStr(s) => if |s| > MaxIntegerText then None else PyInt(DecimalCut(s))
    case _ => None
  }

  /** An integer in the column's range is accepted as it is. */
  lemma IntegerInputInt(field: string, i: int)
    ensures IntegerInput(field, JInt(i)) ==
      if InIntegerRange(i) then Ok(VInt(i)) else Err(ValidationError(field))
  {
    DecimalCutOfIntString(i);
    PyIntOfIntString(i);
    assert IntegerOf(JInt(i)) == Some(i);
  }

  /** The text of an integer is accepted with whitespace around it and a
      `.000` ending: `" 5.00 "` is 5. */
  lemma IntegerInputText(field: string, pre: string, i: int, zeros: string, post: string)
    requires AllSpace(PySpace, pre) && AllSpace(PySpace, post)
    requires forall k :: 0 <= k < |zeros| ==> zeros[k] == '0'
    requires |pre + IntToString(i) + "." + zeros + post| <= MaxIntegerText
    requires InIntegerRange(i)
    ensures IntegerInput(field, JStr(pre + IntToString(i) + "." + zeros + post)) == Ok(VInt(i))
  {
    PyIntOfDecimal(pre, i, zeros, post);
    IntegerInputOfText(field, pre + IntToString(i) + "." + zeros + post, i);
  }

  lemma IntegerInputOfText(field: string, s: string, i: int)
    requires |s| <= MaxIntegerText && PyInt(DecimalCut(s)) == Some(i) && InIntegerRange(i)
    ensures IntegerInput(field, JStr(s)) == Ok(VInt(i))
  {
    IntegerOfText(s);
  }

  lemma IntegerOfText(s: string)
    requires |s| <= MaxIntegerText
    ensures IntegerOf(JStr(s)) == PyInt(DecimalCut(s))
  {
  }

  /** Null, booleans, lists, objects and over-long texts are refused. */
  lemma IntegerInputRejects(field: string, j: Json)
    requires j.JNull? || j.JBool? || j.JArray? || j.JObject? || (j.JStr? && |j.s| > MaxIntegerText)
    ensures IntegerInput(field, j) == Err(ValidationError(field))
  {
  }

  /** A value outside the column's range is refused. */
  lemma IntegerInputRange(field: string)
    ensures IntegerInput(field, JInt(IntegerMax + 1)).Err?
    ensures IntegerInput(field, JInt(IntegerMin)) == Ok(VInt(IntegerMin))
  {
    IntegerInputInt(field, IntegerMax + 1);
    IntegerInputInt(field, IntegerMin);
  }

  /** A JSON field without null: any other JSON value as it is. */
  function JsonInput(field: string, j: Json): (r: Result<Value>)
    ensures r.Ok? <==> !j.JNull?
    ensures r.Ok? ==> r.value == VJson(j)
    ensures r.Err? ==> r.error == ValidationError(field)
  {
    if j.JNull? then Err(ValidationError(field)) else Ok(VJson(j))
  }

  /** The serializer field classes the model serializers use. */
  datatype Conversion = RequiredTextField | NullableTextField | StatusField(kind: Kind) | IntegerField | JsonField

  /** `to_internal_value` of a field of class `conv` named `field`. */
  function Convert(conv: Conversion, field: string, j: Json): (r: Result<Value>)
    ensures r.Ok? ==> Produces(conv, r.value)
  {
    match conv
    case RequiredTextField => RequiredText(field, j)
    case NullableTextField => NullableText(field, j)
    case StatusField(kind) => StatusChoice(kind, j)
    case IntegerField => IntegerInput(field, j)
    case JsonField => JsonInput(field, j)
  }

  /** The values a field class can produce. */
  predicate Produces(conv: Conversion, v: Value) {
    match conv
    case RequiredTextField => v.VText? && v.text != []
    case NullableTextField => v.VNull? || v.VText?
    case StatusField(kind) => v.VText? && IsStatusOf(kind, v.text)
    case IntegerField => v.VInt? && InIntegerRange(v.n)
    case JsonField => v.VJson?
  }

  /** One writable field: absent is an error only when it is required,
      present is converted and stored under the model attribute `attr`. */
  function Field(body: Body, name: string, attr: Attr, required: bool, conv: Conversion): (r: Result<Patch>)
    ensures name !in body ==> (r.Ok? <==> !required) && (r.Ok? ==> r.value == [])
    ensures name in body ==> (r.Ok? <==> Convert(conv, name, body[name]).Ok?)
    ensures name in body && r.Ok? ==> r.value == [(attr, Convert(conv, name, body[name]).value)]
  {
    if name !in body then (if required then Err(ValidationError(name)) else Ok([]))
    else match Convert(conv, name, body[name])
      case Ok(v) => Ok([(attr, v)])
      case Err(e) => Err(e)
  }

  /** A field contributes at most one entry, for its attribute, holding a
      value its class produces. */
  lemma FieldShape(body: Body, name: string, attr: Attr, required: bool, conv: Conversion)
    ensures var r := Field(body, name, attr, required, conv);
      r.Ok? ==> |r.value| <= 1 && (r.value != [] ==> r.value[0].0 == attr && Produces(conv, r.value[0].1))
  {
  }

  // ---------------------------------------------------------------------------
  // Items: Feature, Bug and Improvement serializers

  /** The writable fields of an item serializer, in field order. */
  function ItemInputNames(): seq<string> {
    ["description", "status", "rank"]
  }

  /** The validated data of an item serializer: `description` (required
      unless the update is partial, never blank), `status` and `rank`, the
      first rejected field reported. */
  function ItemData(kind: Kind, body: Body, partial: bool): Result<Patch> {
    var d := Field(body, "description", Description, !partial, RequiredTextField);
    var s := Field(body, "status", Status, false, StatusField(kind));
    var k := Field(body, "rank", Rank, false, IntegerField);
    if d.Err? then Err(d.error)
    else if s.Err? then Err(s.error)
    else if k.Err? then Err(k.error)
    else Ok(d.value + s.value + k.value)
  }

  /** Validated item data names only item attributes, each once, each with a
      value of its type; a full (non-partial) save always has a non-blank
      description. */
  lemma ItemDataShape(kind: Kind, body: Body, partial: bool)
    requires ItemData(kind, body, partial).Ok?
    ensures var p := ItemData(kind, body, partial).value;
      && DistinctAttrs(p)
      && (forall i :: 0 <= i < |p| ==> p[i].0 in ItemAttrNames() && p[i].0 != Tags && ItemValueOk(kind, p[i].0, p[i].1))
      && (!partial ==> "description" in body && p[0].0 == Description && p[0].1.VText? && p[0].1.text != [])
  {
    var p := ItemData(kind, body, partial).value;
    var d := Field(body, "description", Description, !partial, RequiredTextField);
    var s := Field(body, "status", Status, false, StatusField(kind));
    var k := Field(body, "rank", Rank, false, IntegerField);
    assert p == d.value + s.value + k.value;
    FieldShape(body, "description", Description, !partial, RequiredTextField);
    FieldShape(body, "status", Status, false, StatusField(kind));
    FieldShape(body, "rank", Rank, false, IntegerField);
    ItemFieldsShape(kind, d.value, s.value, k.value);
    if !partial {
      assert p[0] == d.value[0];
    }
  }

  /** The entries of the three item fields, each at most one and for its
      own attribute, together name each attribute once with a value of its
      type. */
  lemma ItemFieldsShape(kind: Kind, d: Patch, s: Patch, k: Patch)
    requires |d| <= 1 && (d != [] ==> d[0].0 == Description && Produces(RequiredTextField, d[0].1))
    requires |s| <= 1 && (s != [] ==> s[0].0 == Status && Produces(StatusField(kind), s[0].1))
    requires |k| <= 1 && (k != [] ==> k[0].0 == Rank && Produces(IntegerField, k[0].1))
    ensures var p := d + s + k;
      && DistinctAttrs(p)
      && (forall i :: 0 <= i < |p| ==> p[i].0 in ItemAttrNames() && p[i].0 != Tags && ItemValueOk(kind, p[i].0, p[i].1))
  {
    var p := d + s + k;
    forall i | 0 <= i < |p|
      ensures p[i].0 in ItemAttrNames() && p[i].0 != Tags && ItemValueOk(kind, p[i].0, p[i].1)
    {
      if i < |d| {
        assert p[i] == d[i];
      } else if i < |d| + |s| {
        assert p[i] == s[i - |d|];
      } else {
        assert p[i] == k[i - |d| - |s|];
      }
    }
  }

  /** The converted body value of the item field stored in `attr`, if the
      body has that field and it converts. */
  function ItemInput(kind: Kind, body: Body, attr: Attr): Option<Value> {
    match attr
    case Description => if "description" in body then RequiredText("description", body["description"]).ToOption() else None
    case Status => if "status" in body then StatusChoice(kind, body["status"]).ToOption() else None
    case Rank => if "rank" in body then IntegerInput("rank", body["rank"]).ToOption() else None
    case _ => None
  }

  /** Each field present in the body is in the validated data with its
      converted value; `tags` and the project attributes never are. */
  lemma ItemDataValue(kind: Kind, body: Body, partial: bool, attr: Attr)
    requires ItemData(kind, body, partial).Ok?
    ensures PatchValue(ItemData(kind, body, partial).value, attr) == ItemInput(kind, body, attr)
  {
    var d := Field(body, "description", Description, !partial, RequiredTextField);
    var s := Field(body, "status", Status, false, StatusField(kind));
    var k := Field(body, "rank", Rank, false, IntegerField);
    ItemDataParts(kind, body, partial);
    PatchValueConcat(d.value + s.value, k.value, attr);
    PatchValueConcat(d.value, s.value, attr);
    if attr == Description {
      DescriptionValue(kind, body, partial);
    } else if attr == Status {
      StatusValue(kind, body, partial);
    } else if attr == Rank {
      RankValue(kind, body, partial);
    } else {
      FieldOtherValue(body, "description", Description, !partial, RequiredTextField, attr);
      FieldOtherValue(body, "status", Status, false, StatusField(kind), attr);
      FieldOtherValue(body, "rank", Rank, false, IntegerField, attr);
    }
  }

  /** Accepted item data is the three fields' entries in order. */
  lemma ItemDataParts(kind: Kind, body: Body, partial: bool)
    requires ItemData(kind, body, partial).Ok?
    ensures var d := Field(body, "description", Description, !partial, RequiredTextField);
      var s := Field(body, "status", Status, false, StatusField(kind));
      var k := Field(body, "rank", Rank, false, IntegerField);
      d.Ok? && s.Ok? && k.Ok? && ItemData(kind, body, partial).value == d.value + s.value + k.value
  {
  }

  lemma DescriptionValue(kind: Kind, body: Body, partial: bool)
    requires Field(body, "description", Description, !partial, RequiredTextField).Ok?
    requires Field(body, "status", Status, false, StatusField(kind)).Ok?
    requires Field(body, "rank", Rank, false, IntegerField).Ok?
    ensures PatchValue(Field(body, "description", Description, !partial, RequiredTextField).value, Description)
      == ItemInput(kind, body, Description)
    ensures PatchValue(Field(body, "status", Status, false, StatusField(kind)).value, Description) == None
    ensures PatchValue(Field(body, "rank", Rank, false, IntegerField).value, Description) == None
  {
    FieldOwnValue(body, "description", Description, !partial, RequiredTextField);
    FieldOtherValue(body, "status", Status, false, StatusField(kind), Description);
    FieldOtherValue(body, "rank", Rank, false, IntegerField, Description);
  }

  lemma StatusValue(kind: Kind, body: Body, partial: bool)
    requires Field(body, "description", Description, !partial, RequiredTextField).Ok?
    requires Field(body, "status", Status, false, StatusField(kind)).Ok?
    requires Field(body, "rank", Rank, false, IntegerField).Ok?
    ensures PatchValue(Field(body, "description", Description, !partial, RequiredTextField).value, Status) == None
    ensures PatchValue(Field(body, "status", Status, false, StatusField(kind)).value, Status)
      == ItemInput(kind, body, Status)
    ensures PatchValue(Field(body, "rank", Rank, false, IntegerField).value, Status) == None
  {
    FieldOtherValue(body, "description", Description, !partial, RequiredTextField, Status);
    FieldOwnValue(body, "status", Status, false, StatusField(kind));
    FieldOtherValue(body, "rank", Rank, false, IntegerField, Status);
  }

  lemma RankValue(kind: Kind, body: Body, partial: bool)
    requires Field(body, "description", Description, !partial, RequiredTextField).Ok?
    requires Field(body, "status", Status, false, StatusField(kind)).Ok?
    requires Field(body, "rank", Rank, false, IntegerField).Ok?
    ensures PatchValue(Field(body, "description", Description, !partial, RequiredTextField).value, Rank) == None
    ensures PatchValue(Field(body, "status", Status, false, StatusField(kind)).value, Rank) == None
    ensures PatchValue(Field(body, "rank", Rank, false, IntegerField).value, Rank)
      == ItemInput(kind, body, Rank)
  {
    FieldOtherValue(body, "description", Description, !partial, RequiredTextField, Rank);
    FieldOtherValue(body, "status", Status, false, StatusField(kind), Rank);
    FieldOwnValue(body, "rank", Rank, false, IntegerField);
  }

  /** An accepted field gives its own attribute the converted body value
      when the body has the field. */
  lemma FieldOwnValue(body: Body, name: string, attr: Attr, required: bool, conv: Conversion)
    requires Field(body, name, attr, required, conv).Ok?
    ensures PatchValue(Field(body, name, attr, required, conv).value, attr) ==
      if name in body then Convert(conv, name, body[name]).ToOption() else None
  {
  }

  /** A field gives no other attribute a value. */
  lemma FieldOtherValue(body: Body, name: string, attr: Attr, required: bool, conv: Conversion, a: Attr)
    requires Field(body, name, attr, required, conv).Ok? && a != attr
    ensures PatchValue(Field(body, name, attr, required, conv).value, a) == None
  {
  }

  /** The body's other keys, `id`, `createdAt`, `projectId` and `tags`
      among them, have no effect on the validated data. */
  lemma ItemReadOnlyIgnored(kind: Kind, body: Body, partial: bool, key: string, j: Json)
    requires key !in ItemInputNames()
    ensures ItemData(kind, body[key := j], partial) == ItemData(kind, body, partial)
  {
    assert key != "description" && key != "status" && key != "rank";
    FieldIgnores(body, "description", Description, !partial, RequiredTextField, key, j);
    FieldIgnores(body, "status", Status, false, StatusField(kind), key, j);
    FieldIgnores(body, "rank", Rank, false, IntegerField, key, j);
  }

  /** A field is not affected by another key of the body. */
  lemma FieldIgnores(body: Body, name: string, attr: Attr, required: bool, conv: Conversion, key: string, j: Json)
    requires key != name
    ensures Field(body[key := j], name, attr, required, conv) == Field(body, name, attr, required, conv)
  {
    var b := body[key := j];
    assert (name in b) == (name in body);
    if name in body {
      assert b[name] == body[name];
    }
  }

  /** The status-update serializer: only `status`, never required. */
  function StatusData(kind: Kind, body: Body): (r: Result<Patch>)
    ensures "status" !in body ==> r == Ok([])
    ensures "status" in body ==> (r.Ok? <==> body["status"].JStr? && IsStatusOf(kind, body["status"].s))
    ensures r.Ok? && "status" in body ==> r.value == [(Status, VText(body["status"].s))]
    ensures r.Err? ==> r.error == ValidationError("status")
  {
    Field(body, "status", Status, false, StatusField(kind))
  }

  // ---------------------------------------------------------------------------
  // Projects

  /** The field class of the project field stored in `attr`: `name` is a
      non-blank text, `setup_steps` a JSON field, the rest nullable texts. */
  function ProjectConversion(attr: Attr): (c: Conversion)
    ensures forall name, j :: Convert(c, name, j).Ok? ==> ProjectValueOk(attr, Convert(c, name, j).value)
  {
    match attr
    case Name => RequiredTextField
    case SetupSteps => JsonField
    case _ => NullableTextField
  }

  /** The validated data of the fields `fields` (API name, attribute), in
      order; only `name` is required, and only when the save is not partial. */
  function ProjectFieldsData(body: Body, fields: seq<(string, Attr)>, partial: bool): (r: Result<Patch>)
    ensures r.Ok? ==> forall i :: 0 <= i < |r.value| ==>
      ProjectValueOk(r.value[i].0, r.value[i].1)
  {
    if fields == [] then Ok([])
    else
      var (name, attr) := fields[0];
      var head := Field(body, name, attr, attr == Name && !partial, ProjectConversion(attr));
      if head.Err? then Err(head.error)
      else
        var tail := ProjectFieldsData(body, fields[1..], partial);
        if tail.Err? then Err(tail.error)
        else
          Ok(head.value + tail.value)
  }

  /** The validated data of the project serializer. */
  function ProjectData(body: Body, partial: bool): Result<Patch> {
    ProjectFieldsData(body, ProjectFields(), partial)
  }

  /** Each field of `fields` is taken from the body exactly when it is there,
      so a body key that is not a writable field's API name changes nothing. */
  lemma {:induction false} ProjectFieldsIgnore(body: Body, fields: seq<(string, Attr)>, partial: bool, key: string, j: Json)
    requires forall k :: 0 <= k < |fields| ==> fields[k].0 != key
    ensures ProjectFieldsData(body[key := j], fields, partial) == ProjectFieldsData(body, fields, partial)
  {
    if fields != [] {
      ProjectFieldsIgnore(body, fields[1..], partial, key, j);
    }
  }

  /** `id`, `createdAt`, `userId` and the nested item lists never come from the body. */
  lemma ProjectReadOnlyIgnored(body: Body, partial: bool, key: string, j: Json)
    requires forall k :: 0 <= k < |ProjectFields()| ==> ProjectFields()[k].0 != key
    ensures ProjectData(body[key := j], partial) == ProjectData(body, partial)
  {
    ProjectFieldsIgnore(body, ProjectFields(), partial, key, j);
  }

  /** On a full save the name is required and not blank. */
  lemma {:induction false} ProjectNameRequired(body: Body, fields: seq<(string, Attr)>)
    requires fields != [] && fields[0] == ("name", Name)
    ensures ProjectFieldsData(body, fields, false).Ok? ==>
      "name" in body && ProjectFieldsData(body, fields, false).value[0] == (Name, RequiredText("name", body["name"]).value)
  {
  }

  /** Validated project data names each attribute at most once. */
  lemma {:induction false} ProjectFieldsDistinct(body: Body, fields: seq<(string, Attr)>, partial: bool)
    requires forall a, b :: 0 <= a < b < |fields| ==> fields[a].1 != fields[b].1
    requires ProjectFieldsData(body, fields, partial).Ok?
    ensures DistinctAttrs(ProjectFieldsData(body, fields, partial).value)
    ensures forall i :: 0 <= i < |ProjectFieldsData(body, fields, partial).value| ==>
      exists k :: 0 <= k < |fields| && fields[k].1 == ProjectFieldsData(body, fields, partial).value[i].0
  {
    if fields != [] {
      var (name, attr) := fields[0];
      var head := Field(body, name, attr, attr == Name && !partial, ProjectConversion(attr));
      var tail := ProjectFieldsData(body, fields[1..], partial);
      ProjectFieldsDistinct(body, fields[1..], partial);
      var p := head.value + tail.value;
      assert p == ProjectFieldsData(body, fields, partial).value;
      forall i | 0 <= i < |tail.value| ensures tail.value[i].0 != attr {
        var k :| 0 <= k < |fields[1..]| && fields[1..][k].1 == tail.value[i].0;
        assert fields[k + 1] == fields[1..][k];
      }
    }
  }

  lemma ProjectDataShape(body: Body, partial: bool)
    requires ProjectData(body, partial).Ok?
    ensures var p := ProjectData(body, partial).value;
      && DistinctAttrs(p)
      && (forall i :: 0 <= i < |p| ==> p[i].0 in ProjectAttrNames() && ProjectValueOk(p[i].0, p[i].1))
      && (!partial ==> p != [] && p[0].0 == Name && p[0].1.VText? && p[0].1.text != [])
  {
    var fs := ProjectFields();
    ProjectFieldsShape();
    assert fs[0] == ("name", Name);
    FieldsDataShape(body, fs, partial);
  }

  /** `ProjectDataShape` for any field list that names distinct project
      attributes and starts with `name`. */
  lemma FieldsDataShape(body: Body, fs: seq<(string, Attr)>, partial: bool)
    requires fs != [] && fs[0] == ("name", Name)
    requires forall a, b :: 0 <= a < b < |fs| ==> fs[a].1 != fs[b].1
    requires forall a :: a in ProjectAttrNames() <==> exists i :: 0 <= i < |fs| && fs[i].1 == a
    requires ProjectFieldsData(body, fs, partial).Ok?
    ensures var p := ProjectFieldsData(body, fs, partial).value;
      && DistinctAttrs(p)
      && (forall i :: 0 <= i < |p| ==> p[i].0 in ProjectAttrNames() && ProjectValueOk(p[i].0, p[i].1))
      && (!partial ==> p != [] && p[0].0 == Name && p[0].1.VText? && p[0].1.text != [])
  {
    ProjectFieldsDistinct(body, fs, partial);
    var p := ProjectFieldsData(body, fs, partial).value;
    forall i | 0 <= i < |p| ensures p[i].0 in ProjectAttrNames() {
      var k :| 0 <= k < |fs| && fs[k].1 == p[i].0;
      assert fs[k].1 in ProjectAttrNames();
    }
    if !partial {
      ProjectNameRequired(body, fs);
    }
  }
}
