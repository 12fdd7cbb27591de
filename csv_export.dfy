/** The CSV backup writer: one file per model, named after the app label and
    the model name, whose header lists the concrete fields and then the
    many-to-many fields, and whose rows hold each object's values in that
    column order. A foreign key is written as the related object's primary
    key and a many-to-many field as its primary keys joined with ';'. */
module CsvExport {
  import opened Common
  import opened Strings
  import opened Json

  /** A field value as the writer reads it from an object. */
  datatype FieldValue =
    | FNone
    | FList(items: seq<Json>)
    | FDict(members: seq<Member>)
    | FText(text: string)
    | FInt(n: int)
    | FBool(b: bool)
    | FRelated(pk: int)    // a related object, which has a `pk`

  /** `serialize_value(val)`. */
  function SerializeValue(v: FieldValue): (r: string)
    ensures v.FNone? ==> r == ""
    ensures v.FList? ==> r == DumpsUnicode(JArray(v.items))
    ensures v.FDict? ==> r == DumpsUnicode(JObject(v.members))
    ensures v.FRelated? ==> r == IntToString(v.pk)
    ensures v.FText? ==> r == v.text
  {
    match v
    case FNone => ""
    case FList(items) => DumpsUnicode(JArray(items))
    case FDict(ms) => DumpsUnicode(JObject(ms))
    case FRelated(pk) => IntToString(pk)
    case FText(s) => s
    case FInt(n) => IntToString(n)
    case FBool(b) => if b then "True" else "False"
  }

  /** The row loop replaces a related object by its primary key before
      serialising it. */
  function ReadField(v: FieldValue): (r: FieldValue)
    ensures !r.FRelated?
  {
    if v.FRelated? then FInt(v.pk) else v
  }

  /** Replacing a related object by its key first writes the same text as
      serialising the object itself: a foreign-key column holds `str(pk)`. */
  lemma ReadFieldSameText(v: FieldValue)
    ensures SerializeValue(ReadField(v)) == SerializeValue(v)
    ensures v.FRelated? ==> SerializeValue(ReadField(v)) == IntToString(v.pk)
  {
  }

  /** Only the empty text and a missing value write an empty cell. */
  lemma EmptyCell(v: FieldValue)
    ensures SerializeValue(v) == "" <==> v == FNone || v == FText("")
  {
    match v
    case FList(items) =>
    case FDict(ms) =>
    case FRelated(pk) =>
    case FInt(n) =>
    case FBool(b) =>
    case FNone =>
    case FText(s) =>
  }

  /** A many-to-many cell: the related keys joined with ';', or the empty
      text when reading them failed (None). */
  function M2MCell(keys: Option<seq<int>>): (r: string)
    ensures keys.None? ==> r == ""
  {
    match keys
    case None => ""
    case Some(ks) => Join(";", KeyStrings(ks))
  }

  /** `str(x)` of each key. */
  function KeyStrings(ks: seq<int>): (r: seq<string>)
    ensures |r| == |ks|
    ensures forall i :: 0 <= i < |ks| ==> r[i] == IntToString(ks[i])
  {
    if ks == [] then [] else [IntToString(ks[0])] + KeyStrings(ks[1..])
  }

  /** `<app_label>_<model_name>.csv`. */
  function FileName(appLabel: string, modelName: string): string {
    appLabel + "_" + modelName + ".csv"
  }

  // ---------------------------------------------------------------------------
  // Tables

  /** The field names of a model: concrete fields (including foreign keys)
      and many-to-many fields. */
  datatype ExportMeta = ExportMeta(concrete: seq<string>, m2m: seq<string>)

  /** An object: the value of each concrete field, and the related keys of
      each many-to-many field (None when reading them fails). */
  datatype ExportObj = ExportObj(values: map<string, FieldValue>, related: map<string, Option<seq<int>>>)

  /** An object has a value for every field of its model. */
  predicate Conforms(meta: ExportMeta, obj: ExportObj) {
    && (forall j :: 0 <= j < |meta.concrete| ==> meta.concrete[j] in obj.values)
    && (forall k :: 0 <= k < |meta.m2m| ==> meta.m2m[k] in obj.related)
  }

  /** The header row: concrete field names, then many-to-many field names. */
  function Header(meta: ExportMeta): (r: seq<string>)
    ensures |r| == |meta.concrete| + |meta.m2m|
    ensures r[..|meta.concrete|] == meta.concrete && r[|meta.concrete|..] == meta.m2m
  {
    meta.concrete + meta.m2m
  }

  /** The row of an object, column for column under the header: each
      concrete field's value serialised, then each many-to-many cell. */
  function RowOf(meta: ExportMeta, obj: ExportObj): (r: seq<string>)
    requires Conforms(meta, obj)
    ensures |r| == |Header(meta)|
    ensures forall j :: 0 <= j < |meta.concrete| ==>
      r[j] == SerializeValue(ReadField(obj.values[meta.concrete[j]]))
    ensures forall i :: |meta.concrete| <= i < |r| ==>
      r[i] == M2MCell(obj.related[meta.m2m[i - |meta.concrete|]])
  {
    seq(|meta.concrete|, j requires 0 <= j < |meta.concrete| =>
          SerializeValue(ReadField(obj.values[meta.concrete[j]])))
    + seq(|meta.m2m|, k requires 0 <= k < |meta.m2m| => M2MCell(obj.related[meta.m2m[k]]))
  }

  /** The cell loops of `export_all_csv` for one object. */
  method ExportRow(meta: ExportMeta, obj: ExportObj) returns (row: seq<string>)
    requires Conforms(meta, obj)
    ensures row == RowOf(meta, obj)
  {
    row := [];
    var c := meta.concrete;
    for j := 0 to |c|
      invariant |row| == j
      invariant forall i :: 0 <= i < j ==> row[i] == SerializeValue(ReadField(obj.values[c[i]]))
    {
      var v := obj.values[c[j]];
      if v.FRelated? {
        v := FInt(v.pk);
      }
      row := row + [SerializeValue(v)];
    }
    var m := meta.m2m;
    for k := 0 to |m|
      invariant |row| == |c| + k
      invariant forall i :: 0 <= i < |c| ==> row[i] == SerializeValue(ReadField(obj.values[c[i]]))
      invariant forall i :: |c| <= i < |c| + k ==> row[i] == M2MCell(obj.related[m[i - |c|]])
    {
      var keys := obj.related[m[k]];
      var cell := if keys.Some? then Join(";", KeyStrings(keys.value)) else "";
      row := row + [cell];
    }
  }

  /** One model's file: the header, then a row per object in query order. */
  method ExportTable(meta: ExportMeta, objs: seq<ExportObj>) returns (header: seq<string>, rows: seq<seq<string>>)
    requires forall i :: 0 <= i < |objs| ==> Conforms(meta, objs[i])
    ensures header == Header(meta)
    ensures |rows| == |objs|
    ensures forall i :: 0 <= i < |objs| ==> rows[i] == RowOf(meta, objs[i]) && |rows[i]| == |header|
  {
    header := meta.concrete + meta.m2m;
    rows := [];
    for i := 0 to |objs|
      invariant |rows| == i
      invariant forall t :: 0 <= t < i ==> rows[t] == RowOf(meta, objs[t])
    {
      var row := ExportRow(meta, objs[i]);
      rows := rows + [row];
    }
  }
}
