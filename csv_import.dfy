/** The CSV backup reader: it picks the newest backup folder, reads each
    file's app label and model name from its name, and imports the rows in
    two passes. The first pass creates or updates every object with its
    plain (non-relational) fields; the second pass sets foreign keys and
    many-to-many relations, once every object exists. */
module CsvImport {
  import opened Common
  import opened Strings
  import opened Json
  import CsvExport

  // ---------------------------------------------------------------------------
  // Cell values

  /** The Python value `coerce_value` gives for a cell: None, a string, or
      any other value JSON decodes to. A JSON string and a raw text holding
      the same characters are the same Python string, so both are `PText`. */
  datatype PyValue = PNone | PText(s: string) | PJson(j: Json)

  /** `coerce_value(raw)`: the empty cell is None; a cell that parses as
      JSON is the decoded value (`null` being None too); any other cell is
      kept as text. */
  function CoerceValue(raw: string): (r: PyValue)
    ensures raw == "" ==> r == PNone
    ensures raw != "" && Loads(raw).None? ==> r == PText(raw)
    ensures r.PNone? <==> raw == "" || Loads(raw) == Some(JNull)
    ensures r.PJson? ==> Loads(raw) == Some(r.j) && !r.j.JNull? && !r.j.JStr?
    ensures r.PText? ==> r.s == raw || Loads(raw) == Some(JStr(r.s))
  {
    if raw == "" then PNone
    else match Loads(raw)
      case None => PText(raw)
      case Some(v) =>
        if v.JNull? then PNone else if v.JStr? then PText(v.s) else PJson(v)
  }

  /** What the writer's cells read back as: a missing value as None; a list
      or dict with distinct keys as the same list or dict; a number or a
      related key as that number; booleans as the text "True" or "False". */
  lemma ExportedCellRoundTrip(v: CsvExport.FieldValue)
    ensures v.FNone? ==> CoerceValue(CsvExport.SerializeValue(v)) == PNone
    ensures v.FList? && WellFormed(JArray(v.items)) ==>
      CoerceValue(CsvExport.SerializeValue(v)) == PJson(JArray(v.items))
    ensures v.FDict? && WellFormed(JObject(v.members)) ==>
      CoerceValue(CsvExport.SerializeValue(v)) == PJson(JObject(v.members))
    ensures v.FInt? ==> CoerceValue(CsvExport.SerializeValue(v)) == PJson(JInt(v.n))
    ensures v.FRelated? ==> CoerceValue(CsvExport.SerializeValue(v)) == PJson(JInt(v.pk))
    ensures v.FBool? ==> CoerceValue(CsvExport.SerializeValue(v)) == PText(if v.b then "True" else "False")
  {
    match v
    case FNone =>
    case FList(items) =>
      if WellFormed(JArray(items)) { LoadsDumps(JArray(items)); }
    case FDict(ms) =>
      if WellFormed(JObject(ms)) { LoadsDumps(JObject(ms)); }
    case FInt(n) =>
      assert Dumps(JInt(n)) == IntToString(n);
      LoadsDumps(JInt(n));
    case FRelated(pk) =>
      assert Dumps(JInt(pk)) == IntToString(pk);
      LoadsDumps(JInt(pk));
    case FBool(b) =>
      assert Loads("True") == None;
      assert Loads("False") == None;
    case FText(s) =>
  }

  /** Text survives the round trip when it is not JSON; the empty text and a
      text that reads as a number do not. */
  lemma ExportedTextRoundTrip(s: string)
    ensures s != "" && Loads(s).None? ==> CoerceValue(CsvExport.SerializeValue(CsvExport.FText(s))) == PText(s)
    ensures CoerceValue(CsvExport.SerializeValue(CsvExport.FText(""))) == PNone
    ensures CoerceValue(CsvExport.SerializeValue(CsvExport.FText("42"))) == PJson(JInt(42))
  {
    assert IntToString(42) == "42";
    assert Dumps(JInt(42)) == "42";
    LoadsDumps(JInt(42));
  }

  // ---------------------------------------------------------------------------
  // Many-to-many cells

  /** The non-empty pieces, in order. */
  function DropEmpty(xs: seq<string>): (r: seq<string>)
    ensures |r| <= |xs|
    ensures forall i :: 0 <= i < |r| ==> r[i] != ""
  {
    if xs == [] then []
    else (if xs[0] == "" then [] else [xs[0]]) + DropEmpty(xs[1..])
  }

  lemma {:induction false} DropEmptyNone(xs: seq<string>)
    requires forall i :: 0 <= i < |xs| ==> xs[i] != ""
    ensures DropEmpty(xs) == xs
  {
    if xs != [] {
      DropEmptyNone(xs[1..]);
    }
  }

  /** The keys a many-to-many cell lists, or None for an empty cell, which
      leaves the relation as it is. */
  function M2MKeys(raw: string): (r: Option<seq<string>>)
    ensures r.None? <==> raw == ""
  {
    if raw == "" then None else Some(DropEmpty(Split(raw, ';')))
  }

  lemma {:induction false} NoSemicolonInKeys(ks: seq<int>)
    ensures forall i :: 0 <= i < |CsvExport.KeyStrings(ks)| ==>
      ';' !in CsvExport.KeyStrings(ks)[i] && CsvExport.KeyStrings(ks)[i] != ""
  {
    forall i | 0 <= i < |ks|
      ensures ';' !in IntToString(ks[i])
    {
      var s := IntToString(ks[i]);
      if ks[i] >= 0 {
        assert forall j :: 0 <= j < |s| ==> IsDigit(s[j]);
      } else {
        var d := NatToString(-ks[i]);
        assert forall j :: 0 <= j < |d| ==> IsDigit(d[j]);
        assert forall j :: 1 <= j < |s| ==> s[j] == d[j - 1];
      }
    }
  }

  /** A written many-to-many cell reads back as the keys' decimal forms; an
      empty relation and a relation that could not be read both write the
      empty cell, which the reader skips. */
  lemma M2MRoundTrip(keys: Option<seq<int>>)
    ensures keys.Some? && keys.value != [] ==>
      M2MKeys(CsvExport.M2MCell(keys)) == Some(CsvExport.KeyStrings(keys.value))
    ensures keys.None? || keys.value == [] ==> M2MKeys(CsvExport.M2MCell(keys)).None?
  {
    if keys.Some? && keys.value != [] {
      var parts := CsvExport.KeyStrings(keys.value);
      NoSemicolonInKeys(keys.value);
      SplitJoin(parts, ';');
      assert Join(";", parts) == Join([';'], parts);
      DropEmptyNone(parts);
      assert CsvExport.M2MCell(keys) != "" by {
        assert Split("", ';') == [""];
      }
    }
  }

  // ---------------------------------------------------------------------------
  // Backup folders and file names

  /** An entry of the backups folder. */
  datatype Entry = Entry(name: string, isDir: bool)

  /** The names of the sub-folders, in listing order. */
  function Dirs(es: seq<Entry>): (r: seq<string>)
    ensures forall n :: n in r <==> exists i :: 0 <= i < |es| && es[i].isDir && es[i].name == n
  {
    if es == [] then []
    else
      var rest := Dirs(es[1..]);
      assert forall i :: 1 <= i < |es| ==> es[i] == es[1..][i - 1];
      (if es[0].isDir then [es[0].name] else []) + rest
  }

  /** Python's `max` by name: the first of the greatest names. */
  function MaxName(names: seq<string>): (r: string)
    requires names != []
    ensures r in names
  {
    if |names| == 1 then names[0]
    else
      var m := MaxName(names[..|names| - 1]);
      if LexLess(m, names[|names| - 1]) then names[|names| - 1] else m
  }

  lemma {:induction false} MaxNameIsGreatest(names: seq<string>, n: string)
    requires n in names
    ensures !LexLess(MaxName(names), n)
  {
    var last := names[|names| - 1];
    if |names| == 1 {
      LexLessIrreflexive(n);
    } else {
      var front := names[..|names| - 1];
      var m := MaxName(front);
      if n in front {
        MaxNameIsGreatest(front, n);
        if LexLess(m, last) && LexLess(last, n) {
          LexLessTransitive(m, last, n);
        }
      } else {
        assert n == last;
        LexLessIrreflexive(n);
      }
    }
  }

  /** `find_latest_backup`: None when the backups folder is missing (None)
      or has no sub-folder, else the sub-folder with the greatest name. */
  function LatestBackup(listing: Option<seq<Entry>>): (r: Option<string>)
  {
    if listing.None? then None
    else
      var ds := Dirs(listing.value);
      if ds == [] then None else Some(MaxName(ds))
  }

  lemma LatestBackupSpec(listing: Option<seq<Entry>>)
    ensures listing.None? ==> LatestBackup(listing).None?
    ensures listing.Some? ==>
      (LatestBackup(listing).None? <==> forall i :: 0 <= i < |listing.value| ==> !listing.value[i].isDir)
    ensures LatestBackup(listing).Some? ==>
      listing.Some? &&
      (exists i :: 0 <= i < |listing.value| && listing.value[i].isDir && listing.value[i].name == LatestBackup(listing).value) &&
      forall i :: 0 <= i < |listing.value| && listing.value[i].isDir ==>
        !LexLess(LatestBackup(listing).value, listing.value[i].name)
  {
    if listing.Some? {
      var es := listing.value;
      var ds := Dirs(es);
      if ds == [] {
        forall i | 0 <= i < |es| ensures !es[i].isDir {
          assert es[i].name !in ds;
        }
      } else {
        assert ds[0] in ds;
        forall i | 0 <= i < |es| && es[i].isDir
          ensures !LexLess(MaxName(ds), es[i].name)
        {
          MaxNameIsGreatest(ds, es[i].name);
        }
      }
    }
  }

  /** The position of the last `c` in `s`. */
  function LastIndex(s: string, c: char): (r: Option<nat>)
    ensures r.None? ==> c !in s
    ensures r.Some? ==> r.value < |s| && s[r.value] == c && c !in s[r.value + 1..]
  {
    if s == [] then None
    else if s[|s| - 1] == c then Some(|s| - 1)
    else
      var r := LastIndex(s[..|s| - 1], c);
      assert s == s[..|s| - 1] + [s[|s| - 1]];
      if r.Some? then
        assert s[r.value + 1..] == s[..|s| - 1][r.value + 1..] + [s[|s| - 1]];
        r
      else r
  }

  /** The position of the first `c` in `s`. */
  function FirstIndex(s: string, c: char): (r: Option<nat>)
    ensures r.None? ==> c !in s
    ensures r.Some? ==> r.value < |s| && s[r.value] == c && c !in s[..r.value]
  {
    if s == [] then None
    else if s[0] == c then Some(0)
    else
      var r := FirstIndex(s[1..], c);
      assert s == [s[0]] + s[1..];
      if r.Some? then
        assert s[..r.value + 1] == [s[0]] + s[1..][..r.value];
        Some(r.value + 1)
      else None
  }

  /** The app label and model name a file name gives: the name without the
      part after its last '.', split at its first '_'; None when there is
      no '_' (the file is skipped). */
  function SplitFileName(file: string): (r: Option<(string, string)>)
  {
    var name := match LastIndex(file, '.') case None => file case Some(i) => file[..i];
    match FirstIndex(name, '_')
    case None => None
    case Some(i) => Some((name[..i], name[i + 1..]))
  }

  lemma {:induction false} FirstIndexAfter(s: string, c: char, t: string)
    requires c !in s
    ensures FirstIndex(s + [c] + t, c) == Some(|s|)
  {
    if s != [] {
      assert (s + [c] + t)[1..] == s[1..] + [c] + t;
      FirstIndexAfter(s[1..], c, t);
    }
  }

  lemma {:induction false} LastIndexBefore(s: string, c: char, t: string)
    requires c !in t
    ensures LastIndex(s + [c] + t, c) == Some(|s|)
  {
    var u := s + [c] + t;
    if t != [] {
      assert u[|u| - 1] == t[|t| - 1];
      assert u[..|u| - 1] == s + [c] + t[..|t| - 1];
      LastIndexBefore(s, c, t[..|t| - 1]);
    }
  }

  /** The last '.' of a name with an extension is the extension's. */
  lemma ExtensionDot(name: string, ext: string)
    requires ext != [] && ext[0] == '.' && '.' !in ext[1..]
    ensures LastIndex(name + ext, '.') == Some(|name|)
  {
    assert ext == ['.'] + ext[1..];
    ConcatAssoc(name, ['.'], ext[1..]);
    LastIndexBefore(name, '.', ext[1..]);
  }

  /** The last '.' of a name with the ".csv" suffix is the suffix's. */
  lemma CsvSuffixDot(name: string)
    ensures LastIndex(name + ".csv", '.') == Some(|name|)
  {
    var ext := ".csv";
    assert ext[1..] == "csv";
    ExtensionDot(name, ext);
  }

  lemma ConcatAssoc(a: string, b: string, c: string)
    ensures a + (b + c) == a + b + c
  {
  }

  /** A file the writer names after a model reads back as that app label
      and model name, as long as the app label has no '_'. */
  lemma FileNameRoundTrip(app: string, model: string)
    requires '_' !in app
    ensures SplitFileName(CsvExport.FileName(app, model)) == Some((app, model))
  {
    var name := app + "_" + model;
    var file := CsvExport.FileName(app, model);
    assert file == name + ".csv";
    CsvSuffixDot(name);
    assert file[..|name|] == name;
    FirstIndexAfter(app, '_', model);
    assert name[..|app|] == app && name[|app| + 1..] == model;
  }

  /** An app label holding '_' is split at its own first '_': the file
      reads back as a different app label and model name. */
  lemma UnderscoreAppLabel(a: string, b: string, model: string)
    requires '_' !in a
    ensures SplitFileName(CsvExport.FileName(a + "_" + b, model)) == Some((a, b + "_" + model))
  {
    var rest := b + "_" + model;
    var name := a + "_" + rest;
    assert CsvExport.FileName(a + "_" + b, model) == name + ".csv";
    CsvSuffixDot(name);
    assert (name + ".csv")[..|name|] == name;
    assert name == a + ['_'] + rest;
    FirstIndexAfter(a, '_', rest);
    assert name[..|a|] == a && name[|a| + 1..] == rest;
  }

  // ---------------------------------------------------------------------------
  // Rows and first-pass field values

  /** A CSV row as `csv.DictReader` yields it: column name and cell text, in
      header order. */
  type Row = seq<(string, string)>

  /** `row.get(col, default)`: the cell of the column, the last one when the
      header repeats it. */
  function Get(row: Row, col: string, default: string): (r: string)
    ensures (forall i :: 0 <= i < |row| ==> row[i].0 != col) ==> r == default
    ensures (exists i :: 0 <= i < |row| && row[i].0 == col) ==>
      exists i :: 0 <= i < |row| && row[i].0 == col && r == row[i].1
  {
    if row == [] then default
    else if row[|row| - 1].0 == col then row[|row| - 1].1
    else
      var r := Get(row[..|row| - 1], col, default);
      assert forall i :: 0 <= i < |row| - 1 ==> row[..|row| - 1][i] == row[i];
      r
  }

  /** Whether a concrete field is a foreign key or a plain value. */
  datatype FieldKind = Plain | Relation

  /** What the reader needs of a model: its primary key's name, its concrete
      fields, its many-to-many fields, and the foreign keys its table
      declares `NOT NULL` (every model but the user has one: a project's
      owner, an item's or an activity's project). */
  datatype ImportMeta = ImportMeta(pkName: string, concrete: map<string, FieldKind>, m2m: seq<string>,
                                   required: set<string>)

  /** The primary key is a plain concrete field, and the required fields
      are foreign keys. */
  predicate MetaOk(meta: ImportMeta) {
    && meta.pkName in meta.concrete && meta.concrete[meta.pkName] == Plain && meta.pkName !in meta.m2m
    && forall f :: f in meta.required ==> f in meta.concrete && meta.concrete[f] == Relation
  }

  /** A column the first pass sets: a concrete, non-relational field that is
      not many-to-many. Unknown columns are ignored. */
  predicate Settable(meta: ImportMeta, col: string) {
    col !in meta.m2m && col in meta.concrete && meta.concrete[col] == Plain
  }

  /** The first pass's keyword arguments of a row (spec of its loop). */
  function Kwargs(meta: ImportMeta, row: Row): map<string, PyValue> {
    if row == [] then map[]
    else
      var kw := Kwargs(meta, row[..|row| - 1]);
      var (col, raw) := row[|row| - 1];
      if Settable(meta, col) then kw[col := CoerceValue(raw)] else kw
  }

  /** The keyword arguments hold exactly the settable columns of the row,
      each with its coerced cell. */
  lemma {:induction false} KwargsSpec(meta: ImportMeta, row: Row, col: string)
    ensures col in Kwargs(meta, row) <==> Settable(meta, col) && exists i :: 0 <= i < |row| && row[i].0 == col
    ensures col in Kwargs(meta, row) ==> Kwargs(meta, row)[col] == CoerceValue(Get(row, col, ""))
  {
    if row != [] {
      var front := row[..|row| - 1];
      KwargsSpec(meta, front, col);
      assert forall i :: 0 <= i < |front| ==> front[i] == row[i];
      if row[|row| - 1].0 != col && (exists i :: 0 <= i < |row| && row[i].0 == col) {
        var i :| 0 <= i < |row| && row[i].0 == col;
        assert front[i].0 == col;
      }
    }
  }

  /** The key a row names: its primary-key cell, coerced. */
  function PkOf(meta: ImportMeta, row: Row): PyValue {
    CoerceValue(Get(row, meta.pkName, ""))
  }

  /** The loop that builds the first pass's keyword arguments. */
  method BuildKwargs(meta: ImportMeta, row: Row) returns (kwargs: map<string, PyValue>)
    ensures kwargs == Kwargs(meta, row)
    ensures forall col :: col in kwargs ==> Settable(meta, col) && kwargs[col] == CoerceValue(Get(row, col, ""))
  {
    kwargs := map[];
    for i := 0 to |row|
      invariant kwargs == Kwargs(meta, row[..i])
    {
      assert row[..i + 1][..i] == row[..i];
      var (col, raw) := row[i];
      if col !in meta.m2m && col in meta.concrete && meta.concrete[col] == Plain {
        kwargs := kwargs[col := CoerceValue(raw)];
      }
    }
    assert row[..|row|] == row;
    forall col | col in kwargs
      ensures Settable(meta, col) && kwargs[col] == CoerceValue(Get(row, col, ""))
    {
      KwargsSpec(meta, row, col);
    }
  }

  // ---------------------------------------------------------------------------
  // Primary keys

  /** A key as the database stores it: an integer. */
  function IntKey(k: int): PyValue {
    PJson(JInt(k))
  }

  /** The key an integer primary key's lookup makes of a value with
      `int()`: text as `int()` reads it, a number as itself, a boolean as 0
      or 1. None for anything else (a list, a dict, None), where the lookup
      raises instead of finding nothing. */
  function KeyOf(v: PyValue): Option<int> {
    match v
    case PNone => None
    case PText(s) => PyInt(s)
    case PJson(j) =>
      match j
      case JInt(i) => Some(i)
      case JBool(b) => Some(if b then 1 else 0)
      case _ => None
  }

  /** What the lookup makes of a row's key cell: no key (the cell is empty
      or `null`), a key `int()` refuses, or an integer key. */
  datatype RowKey = NoKey | Refused | Key(k: int)

  function RowKeyOf(meta: ImportMeta, row: Row): RowKey {
    var pk := PkOf(meta, row);
    if pk == PNone then NoKey
    else match KeyOf(pk)
      case None => Refused
      case Some(k) => Key(k)
  }

  /** A key the writer exports, as a number or as a related object's key,
      reads back as the same key. */
  lemma ExportedKeyRoundTrip(pk: int)
    ensures KeyOf(CoerceValue(CsvExport.SerializeValue(CsvExport.FInt(pk)))) == Some(pk)
    ensures KeyOf(CoerceValue(CsvExport.SerializeValue(CsvExport.FRelated(pk)))) == Some(pk)
  {
    ExportedCellRoundTrip(CsvExport.FInt(pk));
    ExportedCellRoundTrip(CsvExport.FRelated(pk));
  }

  // Concrete cells, read step by step.

  lemma CoerceLoaded(s: string, j: Json)
    requires s != "" && Loads(s) == Some(j) && !j.JNull? && !j.JStr?
    ensures CoerceValue(s) == PJson(j)
  {
  }

  lemma LoadsAbc() ensures Loads("abc") == None {
    assert SkipWs("abc") == "abc";
  }
  lemma PyIntAbc() ensures PyInt("abc") == None {
    var t := "abc";
    assert StrippedOf(PySpace, t) by {
      assert !IsPyWhitespace(t[0]) && !IsPyWhitespace(t[2]);
    }
    assert PyInt(t) == SignedDigits(t) by {
      PyIntStripped(t);
    }
    assert !UnderscoredDigits(t) by {
      assert !IsDigit(t[0]);
    }
  }
  lemma LoadsTrue() ensures Loads("true") == Some(JBool(true)) {
    assert SkipWs("true") == "true";
    assert ParseAt("true") == Some((JBool(true), ""));
  }
  lemma LoadsThousand() ensures Loads("1_000") == None {
    assert SkipWs("1_000") == "1_000";
    assert DigitRun("_000") == [];
    assert "1_000"[1..] == "_000";
    assert DigitRun("1_000") == "1";
    assert DigitsValue("1") == 1;
    assert ParseAt("1_000") == Some((JInt(1), "_000"));
    assert SkipWs("_000") == "_000";
  }
  lemma LoadsEmptyObject() ensures Loads("{}") == Some(JObject([])) {
    assert SkipWs("{}") == "{}";
    assert "{}"[1..] == "}";
    assert SkipWs("}") == "}";
    assert ParseAt("{}") == Some((JObject([]), ""));
  }

  /** Cells `int()` refuses as a key: text, and a dict. */
  lemma RefusedKeyText()
    ensures KeyOf(CoerceValue("abc")) == None
  {
    assert CoerceValue("abc") == PText("abc") by {
      LoadsAbc();
    }
    PyIntAbc();
  }

  lemma RefusedKeyDict()
    ensures KeyOf(CoerceValue("{}")) == None
  {
    LoadsEmptyObject();
    CoerceLoaded("{}", JObject([]));
  }

  /** Cells `int()` reads as a key although they are not decimal numbers:
      JSON `true`, and digits with an underscore. */
  lemma AcceptedKeyBool()
    ensures KeyOf(CoerceValue("true")) == Some(1)
  {
    LoadsTrue();
    CoerceLoaded("true", JBool(true));
  }

  lemma AcceptedKeyUnderscore()
    ensures KeyOf(CoerceValue("1_000")) == Some(1000)
  {
    assert CoerceValue("1_000") == PText("1_000") by {
      LoadsThousand();
    }
    PyIntUnderscore();
  }

  // ---------------------------------------------------------------------------
  // Second-pass updates

  /** A concrete field that is a foreign key. */
  predicate IsForeignKey(meta: ImportMeta, col: string) {
    col in meta.concrete && meta.concrete[col] == Relation
  }

  /** A foreign-key cell's update: Some(value) when the field is set — to
      None for an empty cell, to the related object's key when `int()`
      reads the cell and that object exists — and None when the lookup
      fails, which leaves the field as it is. */
  function FkUpdate(raw: string, relatedKeys: set<int>): (r: Option<PyValue>)
    ensures CoerceValue(raw) == PNone ==> r == Some(PNone)
    ensures r.Some? && r.value != PNone ==>
      KeyOf(CoerceValue(raw)).Some? && KeyOf(CoerceValue(raw)).value in relatedKeys &&
      r.value == IntKey(KeyOf(CoerceValue(raw)).value)
    ensures r.None? <==> (CoerceValue(raw) != PNone &&
      (KeyOf(CoerceValue(raw)).None? || KeyOf(CoerceValue(raw)).value !in relatedKeys))
  {
    var v := CoerceValue(raw);
    if v == PNone then Some(PNone)
    else match KeyOf(v)
      case Some(k) => if k in relatedKeys then Some(IntKey(k)) else None
      case None => None
  }

  /** A foreign key the writer exports is set again: a missing one to None,
      a related key to that object when it exists. */
  lemma ExportedForeignKey(pk: Option<int>, relatedKeys: set<int>)
    ensures pk.None? ==> FkUpdate(CsvExport.SerializeValue(CsvExport.FNone), relatedKeys) == Some(PNone)
    ensures pk.Some? ==> (FkUpdate(CsvExport.SerializeValue(CsvExport.FRelated(pk.value)), relatedKeys) ==
      if pk.value in relatedKeys then Some(IntKey(pk.value)) else None)
  {
    if pk.Some? {
      ExportedKeyRoundTrip(pk.value);
    }
  }

  /** The keys of the related model's objects (none known: empty). */
  function RelatedKeys(related: map<string, set<int>>, col: string): set<int> {
    if col in related then related[col] else {}
  }

  /** The foreign-key updates of the first `n` columns of a row applied to
      an object's fields (spec of the second pass's loop). The row is read
      as `csv.DictReader` gives it: a repeated column holds its last cell. */
  function Relinked(meta: ImportMeta, fields: map<string, PyValue>, row: Row, n: nat,
                    related: map<string, set<int>>): map<string, PyValue>
    requires n <= |row|
  {
    if n == 0 then fields
    else
      var f := Relinked(meta, fields, row, n - 1, related);
      var col := row[n - 1].0;
      if IsForeignKey(meta, col) then
        match FkUpdate(Get(row, col, ""), RelatedKeys(related, col))
        case Some(v) => f[col := v]
        case None => f
      else f
  }

  /** Each field of a relinked object: a foreign key among the columns
      takes its last cell's update; every other field, and a foreign key
      whose lookup fails, keeps its value, and no field is dropped or
      added. */
  lemma {:induction false} RelinkedField(meta: ImportMeta, fields: map<string, PyValue>, row: Row, n: nat,
                                         related: map<string, set<int>>, col: string)
    requires n <= |row|
    ensures var r := Relinked(meta, fields, row, n, related);
      var u := FkUpdate(Get(row, col, ""), RelatedKeys(related, col));
      if IsForeignKey(meta, col) && u.Some? && InColumns(row, n, col)
      then col in r && r[col] == u.value
      else (col in r <==> col in fields) && (col in fields ==> r[col] == fields[col])
  {
    if n > 0 {
      RelinkedField(meta, fields, row, n - 1, related, col);
      InColumnsStep(row, n, col);
    }
  }

  /** One of the first `n` columns of the row is `col`. */
  predicate InColumns(row: Row, n: nat, col: string)
    requires n <= |row|
  {
    exists i :: 0 <= i < n && row[i].0 == col
  }

  lemma InColumnsStep(row: Row, n: nat, col: string)
    requires 0 < n <= |row|
    ensures InColumns(row, n, col) <==> InColumns(row, n - 1, col) || row[n - 1].0 == col
  {
    if InColumns(row, n - 1, col) {
      var i :| 0 <= i < n - 1 && row[i].0 == col;
      assert 0 <= i < n && row[i].0 == col;
    }
    if row[n - 1].0 == col {
      assert 0 <= n - 1 < n && row[n - 1].0 == col;
    }
  }

  /** The foreign-key loop of the second pass, on one object's fields. */
  method ApplyForeignKeys(meta: ImportMeta, fields: map<string, PyValue>, row: Row,
                          related: map<string, set<int>>) returns (f: map<string, PyValue>)
    ensures f == Relinked(meta, fields, row, |row|, related)
  {
    f := fields;
    for i := 0 to |row|
      invariant f == Relinked(meta, fields, row, i, related)
    {
      var col := row[i].0;
      if col in meta.concrete && meta.concrete[col] == Relation {
        var u := FkUpdate(Get(row, col, ""), RelatedKeys(related, col));
        if u.Some? {
          f := f[col := u.value];
        }
      }
    }
  }

  /** The database takes the object's save: none of its required foreign
      keys is None (the table declares them `NOT NULL`). */
  predicate Saveable(meta: ImportMeta, fields: map<string, PyValue>) {
    forall f :: f in meta.required && f in fields ==> fields[f] != PNone
  }

  /** An empty cell in a required foreign key's column makes the object
      unsaveable. */
  lemma EmptyRequiredKey(meta: ImportMeta, fields: map<string, PyValue>, row: Row,
                         related: map<string, set<int>>, col: string)
    requires MetaOk(meta) && col in meta.required
    requires InColumns(row, |row|, col)
    requires CoerceValue(Get(row, col, "")) == PNone
    ensures !Saveable(meta, Relinked(meta, fields, row, |row|, related))
  {
    RelinkedField(meta, fields, row, |row|, related, col);
  }

  /** The objects a many-to-many cell's keys link, or None when `int()`
      refuses one of them: the lookup raises and the relation is left as
      it is. */
  function Linked(pks: seq<string>, relatedKeys: set<int>): (r: Option<set<int>>)
    ensures r.None? <==> exists i :: 0 <= i < |pks| && PyInt(pks[i]).None?
    ensures r.Some? ==> r.value <= relatedKeys
    ensures r.Some? ==> forall i :: 0 <= i < |pks| && PyInt(pks[i]).Some? && PyInt(pks[i]).value in relatedKeys ==>
      PyInt(pks[i]).value in r.value
  {
    if exists i :: 0 <= i < |pks| && PyInt(pks[i]).None? then None
    else Some(set k | k in relatedKeys && exists i :: 0 <= i < |pks| && PyInt(pks[i]) == Some(k))
  }

  /** What a many-to-many cell sets the relation to; None leaves it as it
      is (an empty cell, or a key `int()` refuses). */
  function CellLinks(raw: string, relatedKeys: set<int>): Option<set<int>> {
    match M2MKeys(raw)
    case None => None
    case Some(pks) => Linked(pks, relatedKeys)
  }

  /** `int()` reads each exported key back. */
  lemma KeyStringsRead(ks: seq<int>)
    ensures forall i :: 0 <= i < |ks| ==> PyInt(CsvExport.KeyStrings(ks)[i]) == Some(ks[i])
  {
    forall i | 0 <= i < |ks| ensures PyInt(CsvExport.KeyStrings(ks)[i]) == Some(ks[i]) {
      PyIntOfIntString(ks[i]);
    }
  }

  /** Keys that `int()` reads link the related objects among them. */
  lemma LinkedRead(pks: seq<string>, ks: seq<int>, relatedKeys: set<int>)
    requires |pks| == |ks| && forall i :: 0 <= i < |ks| ==> PyInt(pks[i]) == Some(ks[i])
    ensures Linked(pks, relatedKeys) == Some(set k | k in relatedKeys && k in ks)
  {
    var want := set k | k in relatedKeys && k in ks;
    assert Linked(pks, relatedKeys).Some?;
    var got := Linked(pks, relatedKeys).value;
    assert want <= got by {
      forall k | k in want ensures k in got {
        var i :| 0 <= i < |ks| && ks[i] == k;
        assert PyInt(pks[i]) == Some(k);
      }
    }
    assert got <= want by {
      forall k | k in got ensures k in ks {
        var i :| 0 <= i < |pks| && PyInt(pks[i]) == Some(k);
        assert ks[i] == k;
      }
    }
    assert got == want;
  }

  /** The exported keys link the related objects among them. */
  lemma LinkedExported(ks: seq<int>, relatedKeys: set<int>)
    ensures Linked(CsvExport.KeyStrings(ks), relatedKeys) == Some(set k | k in relatedKeys && k in ks)
  {
    KeyStringsRead(ks);
    LinkedRead(CsvExport.KeyStrings(ks), ks, relatedKeys);
  }

  /** A written many-to-many cell links again the exported objects that
      exist; an empty relation, or one that could not be read, writes the
      empty cell, which leaves the relation as it is. */
  lemma ExportedLinksRoundTrip(keys: Option<seq<int>>, relatedKeys: set<int>)
    ensures keys.Some? && keys.value != [] ==>
      CellLinks(CsvExport.M2MCell(keys), relatedKeys) == Some(set k | k in relatedKeys && k in keys.value)
    ensures keys.None? || keys.value == [] ==> CellLinks(CsvExport.M2MCell(keys), relatedKeys).None?
  {
    M2MRoundTrip(keys);
    if keys.Some? && keys.value != [] {
      LinkedExported(keys.value, relatedKeys);
    }
  }

  /** A cell with one key `int()` refuses leaves the relation as it is,
      even when its other keys name existing objects. */
  lemma RefusedLinkCell(relatedKeys: set<int>)
    ensures CellLinks("1;abc", relatedKeys).None?
  {
    assert Split("1;abc", ';') == ["1", "abc"] by {
      SplitNoSeparator("abc", ';');
      assert ";abc"[1..] == "abc" && "1;abc"[1..] == ";abc";
      assert Split(";abc", ';') == [""] + ["abc"];
      assert "1;abc"[0] == '1' && ['1'] + "" == "1";
    }
    DropEmptyNone(["1", "abc"]);
    PyIntAbc();
    assert PyInt(["1", "abc"][1]).None?;
  }

  /** The relations after the cells of `names` are applied to the object
      `key`, in order (spec of the second pass's many-to-many loop). */
  function SetLinksOf(links: map<(int, string), set<int>>, key: int, names: seq<string>, row: Row,
                      related: map<string, set<int>>): map<(int, string), set<int>>
  {
    if names == [] then links
    else
      var l := SetLinksOf(links, key, names[..|names| - 1], row, related);
      var name := names[|names| - 1];
      match CellLinks(Get(row, name, ""), RelatedKeys(related, name))
      case Some(s) => l[(key, name) := s]
      case None => l
  }

  /** Exactly the relations of `key` named in `names` whose cells set them
      change, each to its cell's objects; every other relation is kept, and
      none is dropped. */
  lemma {:induction false} SetLinksOfSpec(links: map<(int, string), set<int>>, key: int, names: seq<string>,
                                          row: Row, related: map<string, set<int>>, v: int, name: string)
    ensures var l := SetLinksOf(links, key, names, row, related);
      var c := CellLinks(Get(row, name, ""), RelatedKeys(related, name));
      if v == key && name in names && c.Some? then (v, name) in l && l[(v, name)] == c.value
      else ((v, name) in l <==> (v, name) in links) && ((v, name) in links ==> l[(v, name)] == links[(v, name)])
  {
    if names != [] {
      var front, last := names[..|names| - 1], names[|names| - 1];
      assert names == front + [last];
      assert name in names <==> name in front || name == last;
      SetLinksOfSpec(links, key, front, row, related, v, name);
    }
  }

  // ---------------------------------------------------------------------------
  // The first pass

  /** The objects of one model: field values by primary key, and the next
      value of the table's key sequence. */
  datatype TableState = TableState(rows: map<int, map<string, PyValue>>, nextAuto: int)

  /** Every object is stored under its own primary key. */
  predicate StateOk(pkName: string, rows: map<int, map<string, PyValue>>) {
    forall k :: k in rows ==> pkName in rows[k] && rows[k][pkName] == IntKey(k)
  }

  /** One row's step, and whether its `create` or `save` went through. */
  datatype Step = Step(state: TableState, ok: bool)

  /** The first pass for one row. A key `int()` refuses makes the lookup
      raise. An object with the key is updated with the keyword arguments.
      Any other row creates an object with only its plain fields, so the
      database refuses it when the model has a required foreign key. A row
      without a key takes the sequence's next value, which is used up even
      when the insert fails, and which an object imported under that key
      already holds. The key is stored as the integer the database makes
      of it. */
  function UpsertStep(meta: ImportMeta, st: TableState, key: RowKey, kwargs: map<string, PyValue>): (r: Step)
    ensures !r.ok ==> r.state.rows == st.rows
    ensures r.ok ==> (st.rows.Keys <= r.state.rows.Keys && (key.Key? ==> key.k in r.state.rows))
    ensures key.Refused? ==> !r.ok
    ensures key.Key? && key.k in st.rows ==>
      r.ok && r.state.rows == st.rows[key.k := st.rows[key.k] + kwargs[meta.pkName := IntKey(key.k)]]
    ensures key.Key? && key.k !in st.rows ==> (r.ok <==> meta.required == {})
    ensures key.NoKey? ==>
      (r.ok <==> meta.required == {} && st.nextAuto !in st.rows) && r.state.nextAuto == st.nextAuto + 1
    ensures !key.NoKey? ==> r.state.nextAuto == st.nextAuto
    ensures StateOk(meta.pkName, st.rows) ==> StateOk(meta.pkName, r.state.rows)
  {
    match key
    case Refused => Step(st, false)
    case Key(k) =>
      if k in st.rows then Step(TableState(st.rows[k := st.rows[k] + kwargs[meta.pkName := IntKey(k)]], st.nextAuto), true)
      else if meta.required != {} then Step(st, false)
      else Step(TableState(st.rows[k := kwargs[meta.pkName := IntKey(k)]], st.nextAuto), true)
    case NoKey =>
      var k := st.nextAuto;
      if meta.required != {} || k in st.rows then Step(TableState(st.rows, st.nextAuto + 1), false)
      else Step(TableState(st.rows[k := kwargs[meta.pkName := IntKey(k)]], st.nextAuto + 1), true)
  }

  /** The first pass over a file: the state it leaves, the rows it counted,
      and whether it got through; the first failing row ends the import. */
  datatype ImportResult = ImportResult(state: TableState, created: nat, ok: bool)

  /** The first pass's loop over the rows (spec of `ImportRows`). */
  function ImportFold(meta: ImportMeta, st: TableState, rs: seq<Row>): (r: ImportResult)
    ensures r.created <= |rs|
    decreases |rs|
  {
    if rs == [] then ImportResult(st, 0, true)
    else
      var s := UpsertStep(meta, st, RowKeyOf(meta, rs[0]), Kwargs(meta, rs[0]));
      if !s.ok then ImportResult(s.state, 0, false)
      else
        var rest := ImportFold(meta, s.state, rs[1..]);
        ImportResult(rest.state, rest.created + 1, rest.ok)
  }

  /** Why a row stops the first pass: it names a key `int()` refuses; or it
      creates an object, under a key not in use or from the sequence, of a
      model with a required foreign key; or the sequence's value it took
      (one below the new `nextAuto`) is in use. */
  predicate StopsAt(meta: ImportMeta, st: TableState, row: Row) {
    match RowKeyOf(meta, row)
    case NoKey => meta.required != {} || st.nextAuto - 1 in st.rows
    case Refused => true
    case Key(k) => k !in st.rows && meta.required != {}
  }

  /** No object goes; when the pass gets through every row is counted and
      every row naming a key leaves an object under the integer `int()`
      makes of it; when it stops, it stops at a row `StopsAt` explains. */
  lemma {:induction false} ImportFoldSpec(meta: ImportMeta, st: TableState, rs: seq<Row>)
    ensures var r := ImportFold(meta, st, rs);
      && st.rows.Keys <= r.state.rows.Keys
      && (forall i :: 0 <= i < r.created && !RowKeyOf(meta, rs[i]).NoKey? ==>
            RowKeyOf(meta, rs[i]).Key? && RowKeyOf(meta, rs[i]).k in r.state.rows)
      && (r.ok ==> r.created == |rs|)
      && (!r.ok ==> r.created < |rs| && StopsAt(meta, r.state, rs[r.created]))
    decreases |rs|
  {
    if rs != [] {
      var s := UpsertStep(meta, st, RowKeyOf(meta, rs[0]), Kwargs(meta, rs[0]));
      if s.ok {
        ImportFoldSpec(meta, s.state, rs[1..]);
        var r := ImportFold(meta, s.state, rs[1..]);
        forall i | 0 <= i < r.created + 1 && !RowKeyOf(meta, rs[i]).NoKey?
          ensures RowKeyOf(meta, rs[i]).Key? && RowKeyOf(meta, rs[i]).k in r.state.rows
        {
          if i > 0 { assert rs[i] == rs[1..][i - 1]; }
        }
        if !r.ok { assert rs[r.created + 1] == rs[1..][r.created]; }
      }
    }
  }

  /** A file of a model with a required foreign key stops at its first row
      whose key is not in use: nothing of it is created. Imported into an
      empty table, such a file restores nothing. */
  lemma ImportStopsAtRequiredKey(meta: ImportMeta, st: TableState, rs: seq<Row>)
    requires meta.required != {} && rs != []
    requires !(RowKeyOf(meta, rs[0]).Key? && RowKeyOf(meta, rs[0]).k in st.rows)
    ensures ImportFold(meta, st, rs).ok == false
    ensures ImportFold(meta, st, rs).created == 0
    ensures ImportFold(meta, st, rs).state.rows == st.rows
  {
  }

  /** A file whose first row names a key `int()` refuses stops there,
      whatever the model: nothing of it is created. */
  lemma ImportStopsAtRefusedKey(meta: ImportMeta, st: TableState, rs: seq<Row>)
    requires rs != [] && RowKeyOf(meta, rs[0]).Refused?
    ensures ImportFold(meta, st, rs) == ImportResult(st, 0, false)
  {
  }

  /** A model without required foreign keys whose rows all name a key
      `int()` reads gets through: every row is counted. */
  lemma {:induction false} ImportWithoutRequiredKeys(meta: ImportMeta, st: TableState, rs: seq<Row>)
    requires meta.required == {}
    requires forall i :: 0 <= i < |rs| ==> RowKeyOf(meta, rs[i]).Key?
    ensures ImportFold(meta, st, rs).ok && ImportFold(meta, st, rs).created == |rs|
    decreases |rs|
  {
    if rs != [] {
      var s := UpsertStep(meta, st, RowKeyOf(meta, rs[0]), Kwargs(meta, rs[0]));
      assert s.ok;
      forall i | 0 <= i < |rs[1..]| ensures RowKeyOf(meta, rs[1..][i]).Key? {
        assert rs[1..][i] == rs[i + 1];
      }
      ImportWithoutRequiredKeys(meta, s.state, rs[1..]);
    }
  }

  // ---------------------------------------------------------------------------
  // The second pass

  /** What the second pass changes: the objects' fields and their
      many-to-many relations, by object key and field name. */
  datatype LinkState = LinkState(rows: map<int, map<string, PyValue>>, links: map<(int, string), set<int>>)

  /** One row's second-pass step, and whether the import goes on. */
  datatype LinkStep = LinkStep(state: LinkState, ok: bool)

  /** The second pass for one row. A row without a key, or whose object is
      missing, is skipped. A key `int()` refuses makes the lookup raise,
      outside the handler for a missing object. Otherwise the foreign keys
      are set, and when the save is refused (a required one is None) the
      row's transaction rolls back; else each many-to-many cell that sets
      its relation replaces it. */
  function RelinkStep(meta: ImportMeta, st: LinkState, row: Row, related: map<string, set<int>>): (r: LinkStep)
  {
    match RowKeyOf(meta, row)
    case NoKey => LinkStep(st, true)
    case Refused => LinkStep(st, false)
    case Key(k) =>
      if k !in st.rows then LinkStep(st, true)
      else
        var f := Relinked(meta, st.rows[k], row, |row|, related);
        if !Saveable(meta, f) then LinkStep(st, false)
        else LinkStep(LinkState(st.rows[k := f], SetLinksOf(st.links, k, meta.m2m, row, related)), true)
  }

  /** The second pass creates and removes no object and keeps every
      relation; it fails exactly at a key `int()` refuses or at an object
      it cannot save, and then changes nothing; it keeps every object under
      its own key. */
  lemma RelinkStepSpec(meta: ImportMeta, st: LinkState, row: Row, related: map<string, set<int>>)
    ensures var r := RelinkStep(meta, st, row, related);
      && r.state.rows.Keys == st.rows.Keys
      && st.links.Keys <= r.state.links.Keys
      && (!r.ok ==> r.state == st)
      && (!r.ok <==> var key := RowKeyOf(meta, row);
           key.Refused? || (key.Key? && key.k in st.rows && !Saveable(meta, Relinked(meta, st.rows[key.k], row, |row|, related))))
    ensures MetaOk(meta) && StateOk(meta.pkName, st.rows) ==>
      StateOk(meta.pkName, RelinkStep(meta, st, row, related).state.rows)
  {
    var r := RelinkStep(meta, st, row, related);
    var key := RowKeyOf(meta, row);
    if key.Key? && key.k in st.rows {
      var k := key.k;
      forall p | p in st.links ensures p in r.state.links {
        SetLinksOfSpec(st.links, k, meta.m2m, row, related, p.0, p.1);
      }
      RelinkedField(meta, st.rows[k], row, |row|, related, meta.pkName);
    }
  }

  /** The second pass over a file; the first failing row ends the import. */
  function RelinkFold(meta: ImportMeta, st: LinkState, rs: seq<Row>, related: map<string, set<int>>): (r: LinkStep)
    decreases |rs|
  {
    if rs == [] then LinkStep(st, true)
    else
      var s := RelinkStep(meta, st, rs[0], related);
      if !s.ok then s else RelinkFold(meta, s.state, rs[1..], related)
  }

  /** Over a whole file the second pass creates and removes no object and
      keeps every relation, and it keeps every object under its own key. */
  lemma {:induction false} RelinkFoldSpec(meta: ImportMeta, st: LinkState, rs: seq<Row>, related: map<string, set<int>>)
    ensures var r := RelinkFold(meta, st, rs, related);
      r.state.rows.Keys == st.rows.Keys && st.links.Keys <= r.state.links.Keys
    ensures MetaOk(meta) && StateOk(meta.pkName, st.rows) ==>
      StateOk(meta.pkName, RelinkFold(meta, st, rs, related).state.rows)
    decreases |rs|
  {
    if rs != [] {
      RelinkStepSpec(meta, st, rs[0], related);
      var s := RelinkStep(meta, st, rs[0], related);
      if s.ok {
        RelinkFoldSpec(meta, s.state, rs[1..], related);
      }
    }
  }

  // ---------------------------------------------------------------------------
  // The table of one model

  /** The objects of one model in the database: each object's field values
      by primary key, its many-to-many links by key and field name, and the
      next value of the key sequence. */
  class Table {
    const pkName: string
    var rows: map<int, map<string, PyValue>>
    var links: map<(int, string), set<int>>
    var nextAuto: int

    /** Every object is stored under its own primary key. */
    predicate Valid()
      reads this
    {
      StateOk(pkName, rows)
    }

    constructor(pkName: string)
      ensures Valid()
      ensures this.pkName == pkName && rows == map[] && links == map[] && nextAuto == 1
    {
      this.pkName := pkName;
      rows := map[];
      links := map[];
      nextAuto := 1;
    }

    /** The first pass for one row, in its own transaction: `ok` is false
        where the lookup raises or the database refuses the insert. */
    method Upsert(meta: ImportMeta, key: RowKey, kwargs: map<string, PyValue>) returns (ok: bool)
      requires Valid() && meta.pkName == pkName
      modifies this
      ensures Valid()
      ensures links == old(links)
      ensures Step(TableState(rows, nextAuto), ok) == UpsertStep(meta, old(TableState(rows, nextAuto)), key, kwargs)
    {
      match key
      case Refused =>
        ok := false;
      case Key(k) =>
        if k in rows {
          Put(k, rows[k] + kwargs[pkName := IntKey(k)]);
          ok := true;
        } else if meta.required != {} {
          ok := false;
        } else {
          Put(k, kwargs[pkName := IntKey(k)]);
          ok := true;
        }
      case NoKey =>
        var k := nextAuto;
        nextAuto := nextAuto + 1;
        if meta.required != {} || k in rows {
          ok := false;
        } else {
          Put(k, kwargs[pkName := IntKey(k)]);
          ok := true;
        }
    }

    /** Stores an object under its own key. */
    method Put(k: int, fields: map<string, PyValue>)
      requires Valid() && pkName in fields && fields[pkName] == IntKey(k)
      modifies this
      ensures Valid()
      ensures rows == old(rows)[k := fields] && links == old(links) && nextAuto == old(nextAuto)
    {
      rows := rows[k := fields];
    }

    /** The first pass over a file: the rows are counted until one fails,
        which ends the import. */
    method ImportRows(meta: ImportMeta, rs: seq<Row>) returns (created: nat, ok: bool)
      requires Valid() && meta.pkName == pkName
      modifies this
      ensures Valid()
      ensures links == old(links)
      ensures ImportResult(TableState(rows, nextAuto), created, ok) ==
              ImportFold(meta, old(TableState(rows, nextAuto)), rs)
    {
      created := 0;
      ok := true;
      var i := 0;
      while i < |rs|
        invariant 0 <= i <= |rs| && created == i
        invariant Valid() && links == old(links)
        invariant var rest := ImportFold(meta, TableState(rows, nextAuto), rs[i..]);
          ImportFold(meta, old(TableState(rows, nextAuto)), rs) ==
          ImportResult(rest.state, rest.created + i, rest.ok)
      {
        var key := RowKeyOf(meta, rs[i]);
        var kwargs := BuildKwargs(meta, rs[i]);
        var stepOk := Upsert(meta, key, kwargs);
        if !stepOk {
          ok := false;
          return;
        }
        assert rs[i..][1..] == rs[i + 1..];
        created := created + 1;
        i := i + 1;
      }
    }

    /** The second pass for one row, in its own transaction: `ok` is false
        where the lookup raises or the save is refused, which ends the
        import. */
    method Relink(meta: ImportMeta, row: Row, related: map<string, set<int>>) returns (ok: bool)
      requires Valid() && meta.pkName == pkName && MetaOk(meta)
      modifies this
      ensures Valid()
      ensures nextAuto == old(nextAuto)
      ensures LinkStep(LinkState(rows, links), ok) == RelinkStep(meta, old(LinkState(rows, links)), row, related)
    {
      ghost var st := LinkState(rows, links);
      var key := RowKeyOf(meta, row);
      if key.NoKey? {
        return true;
      }
      if key.Refused? {
        return false;
      }
      var k := key.k;
      if k !in rows {
        return true;
      }
      var fields := ApplyForeignKeys(meta, rows[k], row, related);
      if !Saveable(meta, fields) {
        return false;
      }
      RelinkedField(meta, rows[k], row, |row|, related, pkName);
      Put(k, fields);
      SetLinks(meta, k, row, related);
      assert RelinkStep(meta, st, row, related) == LinkStep(LinkState(rows, links), true);
      ok := true;
    }

    /** The many-to-many loop of the second pass for the object `key`. */
    method SetLinks(meta: ImportMeta, key: int, row: Row, related: map<string, set<int>>)
      modifies this
      ensures rows == old(rows) && nextAuto == old(nextAuto)
      ensures links == SetLinksOf(old(links), key, meta.m2m, row, related)
    {
      for j := 0 to |meta.m2m|
        invariant rows == old(rows) && nextAuto == old(nextAuto)
        invariant links == SetLinksOf(old(links), key, meta.m2m[..j], row, related)
      {
        assert meta.m2m[..j + 1][..j] == meta.m2m[..j];
        var name := meta.m2m[j];
        var pks := M2MKeys(Get(row, name, ""));
        if pks.Some? {
          var linked := Linked(pks.value, RelatedKeys(related, name));
          if linked.Some? {
            links := links[(key, name) := linked.value];
          }
        }
      }
      assert meta.m2m[..|meta.m2m|] == meta.m2m;
    }

    /** The second pass over a file: rows are relinked in order until one
        fails, which ends the import. */
    method RelinkRows(meta: ImportMeta, rs: seq<Row>, related: map<string, set<int>>) returns (ok: bool)
      requires Valid() && meta.pkName == pkName && MetaOk(meta)
      modifies this
      ensures Valid()
      ensures nextAuto == old(nextAuto)
      ensures LinkStep(LinkState(rows, links), ok) == RelinkFold(meta, old(LinkState(rows, links)), rs, related)
    {
      ok := true;
      var i := 0;
      while i < |rs|
        invariant 0 <= i <= |rs|
        invariant Valid() && nextAuto == old(nextAuto)
        invariant RelinkFold(meta, old(LinkState(rows, links)), rs, related) ==
                  RelinkFold(meta, LinkState(rows, links), rs[i..], related)
      {
        ghost var st := LinkState(rows, links);
        assert rs[i..][1..] == rs[i + 1..];
        ok := Relink(meta, rs[i], related);
        if !ok {
          return;
        }
        assert RelinkFold(meta, st, rs[i..], related) == RelinkFold(meta, LinkState(rows, links), rs[i + 1..], related);
        i := i + 1;
      }
    }
  }
}
