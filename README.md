# Project organizer: the audited store, the owner-scoped store and their helpers

This project models the core of a personal project tracker. A user keeps
projects. Each project holds three kinds of item: features, bugs and
improvements. The tracker has two backends. The model covers:

- **The Django backend as an audited store** (`AuditStore.Store`). It holds the
  projects map, one item table per kind, and an append-only `activities`
  log. The serializers add exactly one Activity row on every create, update
  and status update. Deletes add none. The view sets scope every lookup to
  the requesting user's projects. Deleting a project cascades to its items
  and activities; deleting a user cascades to the user's projects. The
  validated request data (`Validation`), the field diff `get_changed_data`
  (`Changes`) and the activity texts (`ActivityText`) are modelled beside it.
- **The Express backend's `DatabaseStorage`** (`OwnerStore.Store`). It is the
  same data with no activity log. Reads filter by owner, but
  `updateProject` and `deleteProject` match on the id alone. The lemma
  `OwnerStore.OwnershipGap` states this gap.
- **Pure helpers**: `buildUrl` (`Routes`); the tag picker (`TagSelect`); the
  task board's status toggle and its create and edit guards (`TaskBoard`);
  the dashboard search and pending counts (`Dashboard`); the project form's
  defaults and setup-step editing (`ProjectForm`); and the CSV backup
  writer and reader (`CsvExport`, `CsvImport`).

`json.dumps` (with its default `ensure_ascii=True`, and with
`ensure_ascii=False` as the export uses it), `json.loads` and Python's
`repr` are given concrete definitions (`Json.Dumps`, `Json.DumpsUnicode`,
`Json.Loads`, `Json.StrRepr`), so the round trips between them are proved
(`Json.LoadsDumps`, `Json.ReprRoundTrip`) rather than assumed. Every
auto-increment id starts at 1. Timestamps come from a clock counter that every insert
advances, so "newest first" is the reverse of insertion order. The caller's
user id is a plain parameter.

The model follows the code in these points, where a reader of the
model's field names and choices might expect otherwise:

- Activity rows carry the capitalised strings `"Create"`, `"Update"`,
  `"Feature"`, `"Project"`, …, which are not among the model's declared
  lower-case choices. `Models.WrittenStringsOutsideChoices` states this.
- The descriptions read `"Feature 'x' created"`. They are not
  `Created project "x"`.
- Deletes write no activity.
- An update that changes nothing still writes an `"Update"` row whose text
  ends in `"updated with "`.
- The activity listings have no cap of 50.
- `tags` is a read-only method field on the item serializers. It never
  reaches the validated data, so every item is created with the tags text
  `"[]"`, and the `if 'tags' in validated_data` branch of `update` never runs.
- When `ProjectSerializer.create` gets non-empty setup steps, it stores the
  text `json.dumps(steps)` in the JSON column.

## Model

| member | source | states |
|---|---|---|
| `Models.DefaultStatus` | server/django_projects/projects/models.py:37-45 | The default status is a choice of its kind and the first declared choice: `open` for bugs and `pending` for the other kinds. |
| `Models.StatusDomains` | server/django_projects/projects/models.py:37-83 | Feature and Improvement status is in {pending, completed}, and Bug status is in {open, fixed}. No status is valid for both a bug and a feature. |
| `Models.ItemDefaults` | server/django_projects/projects/models.py:44-47 | A new item row is well typed, with the kind's default status, `rank` 0 and `tags` `"[]"`. |
| `Models.ProjectDefaults` | server/django_projects/projects/models.py:17-28 | A project row defaults to null in every nullable text field and to the empty list in `setup_steps`, and it is well typed. |
| `Models.ProjectFieldsShape` | server/django_projects/projects/serializers.py:263-266 | The project serializer's writable fields name each model attribute once, with `name` first and `setupSteps` last. |
| `Models.WrittenStringsOutsideChoices` | server/django_projects/projects/models.py:94-106 | The written `"Create"`, `"Update"` and capitalised entity names are not declared choices; `"status_change"` is one. |
| `Models.ValueStr` | server/django_projects/projects/serializers.py:72 | The f-string form of a value: text as itself and `None` as `"None"`; a JSON value as Python shows it, strings inside it quoted and escaped by `repr`. |
| `Models.ValueStrShowsList` | server/django_projects/projects/serializers.py:72 | A list holding one string is shown as `[` + its `repr` + `]`, and that `repr` reads back as the string. |
| `Json.LoadsDumps` | server/django_projects/projects/serializers.py:43-50 | `json.loads(json.dumps(v)) == v` for every value whose objects have distinct keys, with the default `ensure_ascii=True` and with `ensure_ascii=False`. |
| `Json.EncodeAscii` | server/django_projects/projects/serializers.py:50 | With `ensure_ascii`, every character of the text written for any value lies between space and `~`. |
| `Json.DumpsAscii` | server/django_projects/projects/serializers.py:64 | `json.dumps` writes only printable ASCII, escaping a non-ASCII character, while `ensure_ascii=False` keeps that character as it is. |
| `Json.ReprQuote` | server/django_projects/projects/serializers.py:72 | `repr` uses double quotes exactly when the text holds a single quote and no double quote. |
| `Json.StrRepr` | server/django_projects/projects/serializers.py:72 | The literal starts and ends with the quote `repr` chooses. |
| `Json.ReprRoundTrip` | server/django_projects/projects/serializers.py:72 | Reading back the literal `repr` writes gives the string: the chosen quote and every escape are undone exactly. |
| `Json.ReprPlain` | server/django_projects/projects/serializers.py:72 | A text without quotes, backslashes or escaped characters is shown between single quotes as it is. |
| `Json.ReprSingleQuote` | server/django_projects/projects/serializers.py:72 | `repr("it's")` is `"it's"`, in double quotes. |
| `Json.ReprBothQuotes` | server/django_projects/projects/serializers.py:72 | With both quotes in the text, single quotes are used and the single quote inside is escaped. |
| `Json.ReprEscapes` | server/django_projects/projects/serializers.py:72 | A tab is written `\t`, DEL `\x7f`, and the printable U+00A9 as it is. |
| `AuditStore.GetTagsDumps` | server/django_projects/projects/serializers.py:43-47 | Tags stored as `json.dumps(v)` are read back by `get_tags` as `v`. |
| `AuditStore.GetTagsFallback` | server/django_projects/projects/serializers.py:43-47 | An empty or malformed tags text is read as `[]`. |
| `AuditStore.CreatedTags` | server/django_projects/projects/serializers.py:50 | The tags text written at creation is `"[]"`, the model default, and it reads as no tags. |
| `AuditStore.NewChildFields` | server/django_projects/projects/serializers.py:49-51 | A new item takes the given description, and the given status and rank or their defaults. Its tags text is `"[]"`. |
| `AuditStore.NewProjectName` | server/django_projects/projects/serializers.py:283-289 | A new project takes the given name, which is non-blank text. |
| `AuditStore.NewProjectSetupSteps` | server/django_projects/projects/serializers.py:285-287 | Setup steps are stored as `json.dumps(steps)`, ASCII-escaped, only when they are truthy; otherwise the model default `[]` applies. The stored text decodes back to the steps. |
| `AuditStore.PkOf` | server/django_projects/projects/viewsets.py:58-59 | The lookup's `int()` cast of a project id: an integer is itself, `True` is 1, a text goes through Python's `int()` (a non-blank result), and null, lists and objects fail. |
| `AuditStore.PkOfText` | server/django_projects/projects/viewsets.py:59 | The text of any integer with whitespace around it casts to that integer: `" 5 "` is 5 and `"-1"` is -1. |
| `AuditStore.ProjectIdArg` | server/django_projects/projects/viewsets.py:58 | `projectId` comes from the body when it is truthy, and otherwise from the URL argument. |
| `AuditStore.ActivitiesOf` | server/django_projects/projects/viewsets.py:39 | The listing holds exactly the log's rows of the given projects. |
| `AuditStore.ActivitiesOfNewestFirst` | server/django_projects/projects/viewsets.py:39 | Over a log kept in time order, the listing is ordered newest first. |
| `AuditStore.ActivitiesOutside` | server/django_projects/projects/models.py:109 | The cascade keeps exactly the activities of the projects that remain. |
| `AuditStore.ActivitiesOutsideChronological` | server/django_projects/projects/models.py:109 | The cascade keeps the log in time order. |
| `AuditStore.ChildrenOutside` | server/django_projects/projects/models.py:43 | The cascade keeps exactly the items whose project remains, unchanged. |
| `AuditStore.Store.OwnedProjects` | server/django_projects/projects/viewsets.py:26-29 | The project queryset holds exactly the projects that `IsOwner` permits to the user. |
| `AuditStore.Store.OwnedChildren` | server/django_projects/projects/viewsets.py:14-19 | The item queryset of each kind holds exactly the items whose project the user owns, as `IsOwner` decides. |
| `AuditStore.Store.ActivityList` | server/django_projects/projects/viewsets.py:147-148 | The global activity list holds exactly the activities that `IsOwner` permits to the user. |
| `AuditStore.Store.ProjectActivities` | server/django_projects/projects/viewsets.py:36-41 | The request fails with 404 exactly when the user does not own the project. Otherwise it returns exactly that project's activities. |
| `AuditStore.Store.ListingsNewestFirst` | server/django_projects/projects/viewsets.py:39 | Both activity listings are ordered by decreasing `created_at`. |
| `AuditStore.Store.FindOwnedProject` | server/django_projects/projects/viewsets.py:57-60 | The lookup succeeds exactly for an id of a project the user owns. A missing or foreign id is 404, and an id `int()` rejects is a server error. |
| `AuditStore.Store.FindPaddedId` | server/django_projects/projects/viewsets.py:58-59 | A project id sent as text with whitespace around it finds the project the user owns. |
| `AuditStore.Store.FindNegativeId` | server/django_projects/projects/viewsets.py:59 | A negative id, as text or as a number, is 404 and not a server error. |
| `AuditStore.Store.CreateChild` | server/django_projects/projects/serializers.py:49-60 | On success it adds one item under an owned project and appends exactly one `"Create"` activity for that item. The activity carries the new id and the text `"<Kind> '<description>' created"`; nothing else changes. On 400 or 404 it changes nothing. |
| `AuditStore.Store.UpdateChild` | server/django_projects/projects/serializers.py:62-80 | On success the item becomes its old attributes with the patch applied, and exactly one `"Update"` activity is appended. Its text lists the diff, even when the diff is empty. 404 for an item outside the queryset; nothing changes on failure. |
| `AuditStore.Store.UpdateStatus` | server/django_projects/projects/serializers.py:83-131 | Only `status` is written, and one `"status_change"` activity ending in `"status updated to '<status>'"` is appended. |
| `AuditStore.Store.DeleteChild` | server/django_projects/projects/viewsets.py:62-64 | An owned item is removed, with no activity written. Otherwise the result is 404 and nothing changes. |
| `AuditStore.Store.CreateProject` | server/django_projects/projects/serializers.py:283-298 | A project owned by the requesting user is added, and exactly one `"Project '<name>' created"` activity is appended. Items are unchanged. |
| `AuditStore.Store.UpdateProject` | server/django_projects/projects/serializers.py:302-317 | Only the changed attributes are set, which equals applying the whole patch. Exactly one `"Update"` activity listing the diff is appended. 404 unless the project is owned. |
| `AuditStore.Store.DeleteProject` | server/django_projects/projects/viewsets.py:31-33 | An owned project is removed; the cascade removes exactly its items and its activities; users, id counters and clock are unchanged, and no activity is written. Otherwise 404 and nothing changes. |
| `AuditStore.Store.DeleteUser` | server/django_projects/projects/models.py:16 | The user and exactly the user's projects go, and the cascade removes exactly those projects' items and activities; id counters and clock are unchanged. |
| `AuditStore.Store.RemoveProjects` | server/django_projects/projects/models.py:43-109 | The on-delete cascade: projects, their items of every kind and their activities go, and the store stays valid. |
| `AuditStore.Store.LogActivity` | server/django_projects/projects/serializers.py:53-59 | `Activity.objects.create` appends one row stamped with the clock and changes no table. |
| `Validation.RequiredText` | server/django_projects/projects/serializers.py:40 | A required text field accepts the strings that are not blank after Python's `strip()` and hold no U+0000, and integers, and nothing else. It stores the stripped text, or the integer's decimal form. |
| `Validation.TextFieldsStable` | server/django_projects/projects/serializers.py:40 | A stored text is accepted again unchanged, by both text fields. |
| `Validation.BlankText` | server/django_projects/projects/serializers.py:40 | Whitespace-only text is refused by a required field and stored as `""` by a nullable one. |
| `Validation.TextStripped` | server/django_projects/projects/serializers.py:40 | Whitespace around a text is dropped before it is stored. A text holding U+0000 is refused instead. |
| `Validation.NullableText` | server/django_projects/projects/serializers.py:246-254 | Null stays null, whitespace-only text is stored as `""`, other text is stored stripped unless it holds U+0000, which is refused, an integer is stored as its decimal form, and other JSON is refused. |
| `Validation.NullCharacterRefused` | server/django_projects/projects/serializers.py:40 | A text holding U+0000 anywhere is refused by both text fields, as the null-character validator every `CharField` carries does. |
| `Validation.StatusChoice` | server/django_projects/projects/models.py:45 | The status field accepts exactly the kind's choices. |
| `Validation.IntegerInput` | server/django_projects/projects/models.py:46 | The rank field yields only integers in the 32-bit column range, and refuses with the field's error. |
| `Validation.IntegerInputInt` | server/django_projects/projects/models.py:46 | An integer is accepted as itself exactly when it lies in [-2^31, 2^31 - 1]. |
| `Validation.IntegerInputText` | server/django_projects/projects/models.py:46 | The text of an in-range integer, with whitespace around it and a `.000` ending, is that integer: `" 5.00 "` is 5. |
| `Validation.IntegerInputRejects` | server/django_projects/projects/models.py:46 | Null, booleans, lists, objects and texts over 1000 characters are refused. |
| `Validation.IntegerInputRange` | server/django_projects/projects/models.py:46 | 2^31 is refused and -2^31 is accepted. |
| `Strings.PyIntOfString` | server/django_projects/projects/viewsets.py:59 | Python's `int()` reads the decimal text of any integer, with whitespace around it, as that integer. |
| `Strings.PyIntPlus` | server/django_projects/projects/viewsets.py:59 | `int("+n")` is n. |
| `Strings.PyIntUnderscore` | server/django_projects/projects/viewsets.py:59 | `int("1_000")` is 1000. |
| `Strings.PyIntRejectsEmpty` | server/django_projects/projects/viewsets.py:59 | Whitespace alone is refused. |
| `Strings.PyIntRejectsDoubled` | server/django_projects/projects/viewsets.py:59 | A doubled underscore is refused. |
| `Strings.PyIntRejectsEdges` | server/django_projects/projects/viewsets.py:59 | An underscore at either end of the digits is refused. |
| `Strings.DecimalCutOfInt` | server/django_projects/projects/models.py:46 | Cutting `\.0*\s*$` from an integer's text followed by a dot, zeros and whitespace leaves the integer's text with what precedes it. |
| `Strings.PyIntOfDecimal` | server/django_projects/projects/models.py:46 | `int()` of that cut text is the integer. |
| `Validation.Field` | server/django_projects/projects/serializers.py:38-41 | An absent field is an error only when it is required. A present field is converted and stored under its attribute. |
| `Validation.ItemDataShape` | server/django_projects/projects/serializers.py:38-41 | Item data names only item attributes, each at most once, never `tags`. A full save always has a non-blank description. |
| `Validation.ItemDataValue` | server/django_projects/projects/serializers.py:38-41 | Each item field present in the body is in the validated data with its converted value. |
| `Validation.ItemReadOnlyIgnored` | server/django_projects/projects/serializers.py:41 | `id`, `createdAt`, `projectId`, `tags` and any other key outside the writable fields leave item data unchanged. |
| `Validation.StatusData` | server/django_projects/projects/serializers.py:83-86 | The status-update serializer takes only `status`, and only a valid choice of the kind. |
| `Validation.ProjectReadOnlyIgnored` | server/django_projects/projects/serializers.py:269 | `id`, `createdAt`, `userId` and the nested item lists never come from the body. |
| `Validation.ProjectDataShape` | server/django_projects/projects/serializers.py:245-269 | Project data names only project attributes, each at most once, with well-typed values. A full save has a non-blank name first. |
| `Changes.GetChangedData` | server/django_projects/projects/utils.py:1-6 | The loop computes the diff of the patch against the instance, which it only reads. |
| `Changes.ChangedEntries` | server/django_projects/projects/utils.py:3-6 | Every entry holds a patched attribute, its old value, then its new value, and the two differ. |
| `Changes.ChangedIff` | server/django_projects/projects/utils.py:4-6 | An attribute has an entry exactly when the patch gives it a value different from the instance's. |
| `Changes.ChangedAttrsPatched` | server/django_projects/projects/utils.py:3-6 | The diff's attributes are a subset of the patch's. |
| `Changes.EmptyPatch` | server/django_projects/projects/utils.py:2-6 | An empty patch yields an empty diff. |
| `Changes.SetChangedAttrs` | server/django_projects/projects/serializers.py:66-67 | The `setattr` loop sets each changed attribute to its new value. |
| `Changes.ChangesAgreeWithPatch` | server/django_projects/projects/serializers.py:65-68 | Setting only the changed attributes gives the same instance as setting every patched attribute. |
| `Changes.NothingLeftToChange` | server/django_projects/projects/utils.py:4-6 | After the patch is applied, recomputing the diff with the same patch gives nothing. |
| `Changes.ApplyPatchValues` | server/django_projects/projects/serializers.py:65-68 | After an update each patched field holds its new value, and unpatched fields are unchanged. |
| `Changes.ApplyPatchTwice` | server/django_projects/projects/serializers.py:68 | Applying the same patch a second time changes nothing more. |
| `ActivityText.ChangeLines` | server/django_projects/projects/serializers.py:70-72 | One `"Field 'a' changed from 'old' to 'new'"` line per changed attribute, in diff order. |
| `ActivityText.BuildChangeLines` | server/django_projects/projects/serializers.py:70-72 | The append loop builds exactly those lines. |
| `ActivityText.CreatedTextInjective` | server/django_projects/projects/serializers.py:58 | Two creation texts of one entity are equal only for equal descriptions. |
| `ActivityText.NoChangeText` | server/django_projects/projects/serializers.py:78 | With no changes the update text ends in `"updated with "`, with nothing after it. |
| `ActivityText.UpdatedTextMentions` | server/django_projects/projects/serializers.py:71-78 | Every changed attribute's line occurs in the update text, joined with `", "`. |
| `ActivityText.StatusTextEnds` | server/django_projects/projects/serializers.py:95 | The status text ends in `"status updated to '<status>'"`. |
| `OwnerStore.StatusDefault` | shared/schema.ts:30-48 | Each kind's status column default is a valid choice of that kind. |
| `OwnerStore.StatusDefaultsAgree` | shared/schema.ts:30-48 | The TypeScript defaults are feature `pending`, bug `open` and improvement `pending`, the same as the Django defaults. |
| `OwnerStore.InsertedStatus` | shared/schema.ts:30 | An insert without `status` gets the column default; a given status, even null, is kept. |
| `OwnerStore.PatchProject` | server/storage.ts:69-75 | Only the supplied keys change; id, owner and timestamp are kept. |
| `OwnerStore.PatchProjectIdempotent` | server/storage.ts:72 | Setting the same keys twice equals setting them once, and setting no key changes nothing. |
| `OwnerStore.PatchChild` | server/storage.ts:88-91 | Only the supplied keys of an item change. |
| `OwnerStore.PatchChildIdempotent` | server/storage.ts:89 | Item patches are idempotent, and the empty patch is the identity. |
| `OwnerStore.Owned` | server/storage.ts:53-54 | A row is found exactly when both the id and the owner match. |
| `OwnerStore.UpdatedProjects` | server/storage.ts:73 | The row with the id is patched whoever owns it, and all other rows are kept. |
| `OwnerStore.DeletedProjects` | server/storage.ts:78-80 | The row with the id is gone and every other row is kept. |
| `OwnerStore.OwnershipGap` | server/storage.ts:69-80 | A user for whom `getProject` finds nothing can still rename the project, and can delete it with the same effect as its owner. |
| `OwnerStore.OwnedBelowSound` | server/storage.ts:36-44 | Every listed row belongs to the user, and the ids decrease along the listing. |
| `OwnerStore.OwnedBelowComplete` | server/storage.ts:36-37 | Every project of the user is listed. |
| `OwnerStore.Store.GetProject` | server/storage.ts:52-62 | The project with its items is returned exactly when the id and the owner match. |
| `OwnerStore.Store.GetProjectsSound` | server/storage.ts:34-50 | The listing holds only the user's projects, each with its items, with strictly decreasing `createdAt`. A database error yields `[]`. |
| `OwnerStore.Store.GetProjectsComplete` | server/storage.ts:36-44 | Without an error every project of the user is listed. |
| `OwnerStore.Store.GetProjectListed` | server/storage.ts:34-62 | `getProject` finds exactly the projects that `getProjects` lists. |
| `OwnerStore.Store.CreateProject` | server/storage.ts:64-67 | The new row stores the caller's user id, whatever the input carries. |
| `OwnerStore.Store.UpdateProject` | server/storage.ts:69-76 | The row with the id is patched and returned, with no ownership check; `undefined` if the id is missing. |
| `OwnerStore.Store.DeleteProject` | server/storage.ts:78-80 | The table becomes `DeletedProjects` of the old one: the row with the id is removed whoever owns it. Items are left in place. |
| `OwnerStore.Store.CreateChild` | server/storage.ts:83-86 | The item is inserted under its next id with the given project id, and the status default applies. |
| `OwnerStore.Store.UpdateChild` | server/storage.ts:88-91 | The item with the id gets only the supplied keys and is returned; `undefined` when there is no such row. |
| `OwnerStore.Store.DeleteChild` | server/storage.ts:93-95 | The row is removed. A missing id is a silent no-op. |
| `Routes.Fill` | shared/routes.ts:162-164 | With no params the path is returned unchanged. |
| `Routes.BuildUrl` | shared/routes.ts:162-172 | The `forEach` loop computes the fill of the template, each value put in through `replace`'s substitution. |
| `Routes.FillNoParams` | shared/routes.ts:163-164 | With no params object, or an empty one, the path is returned unchanged. |
| `Routes.FillOneAbsent` | shared/routes.ts:166 | A param whose `":key"` does not occur leaves the URL unchanged. |
| `Routes.Substitution` | shared/routes.ts:167 | A replacement without `$` is inserted as it is. |
| `Routes.SubstitutionPatterns` | shared/routes.ts:167 | `$$` gives `$`, `$&` the placeholder, `` $` `` and `$'` the text before and after it, and `$1` stays as it is. |
| `Routes.NumberHasNoDollar` | shared/routes.ts:167 | A number's text holds no `$`, so numeric ids are inserted as they are. |
| `Routes.FillOneFirst` | shared/routes.ts:166-167 | The first occurrence of `":key"` is replaced by the substitution `replace` builds from the value, and the text around it is kept. A value without `$` is inserted as it is. |
| `Routes.FillOneKeepsLater` | shared/routes.ts:167 | A later duplicate placeholder is still in the URL after the fill, shifted by the change in length. |
| `Routes.FillSingle` | shared/routes.ts:162-172 | A template with one placeholder after a colon-free prefix gets the substitution in its place, and a value without `$` as it is. |
| `Routes.FeaturesPathFilled` | shared/routes.ts:82 | Filling `/api/projects/:projectId/features` with `n` gives `/api/projects/n/features`. |
| `Routes.BugsPathFilled` | shared/routes.ts:109 | The same holds for the bugs list path. |
| `Routes.ImprovementsPathFilled` | shared/routes.ts:136 | The same holds for the improvements list path. |
| `Routes.RowPaths` | shared/routes.ts:91 | The single-row paths of projects and features are filled with the id. |
| `Routes.ItemRowPaths` | shared/routes.ts:118-145 | The single-row paths of bugs and improvements are filled with the id. |
| `TaskBoard.ToggledStatus` | client/src/components/TaskBoard.tsx:248-250 | The toggled status is always a valid choice of the item's kind. |
| `TaskBoard.ToggleFlips` | client/src/components/TaskBoard.tsx:245-250 | A completed item goes to `open` for bugs and `pending` otherwise, and any other item goes to `fixed` or `completed`. Completion always flips. |
| `TaskBoard.ToggleTwice` | client/src/components/TaskBoard.tsx:248-250 | Toggling twice restores any status valid for the kind. |
| `TaskBoard.CreateRequest` | client/src/components/TaskBoard.tsx:149-158 | Nothing is sent when the trimmed text is empty. Otherwise the untrimmed text is sent with `open` for bugs and `pending` for the other kinds. |
| `TaskBoard.EditRequest` | client/src/components/TaskBoard.tsx:273-282 | An update is sent exactly when the trimmed edit differs from the description, and it carries the untrimmed edit. |
| `TaskBoard.PaddedEditNotSent` | client/src/components/TaskBoard.tsx:274 | An edit that only adds whitespace around the description is not sent. |
| `TaskBoard.TrimmedEditSent` | client/src/components/TaskBoard.tsx:274 | An edit without surrounding whitespace is sent exactly when it differs. |
| `TaskBoard.UnchangedEditResent` | client/src/components/TaskBoard.tsx:274-276 | An unedited description that begins with whitespace is sent again. |
| `TagSelect.Unselect` | client/src/components/TagSelect.tsx:36-38 | Every occurrence of the tag is removed, and exactly the other tags remain. |
| `TagSelect.FilterOutAppend` | client/src/components/TagSelect.tsx:37 | The filter keeps order: filtering a concatenation concatenates the filtered parts. |
| `TagSelect.Select` | client/src/components/TagSelect.tsx:40-47 | A present tag is removed exactly as `Unselect` removes it, and an absent one is appended at the end. The input is cleared. |
| `TagSelect.SelectTwice` | client/src/components/TagSelect.tsx:42-46 | Selecting an absent tag twice gives back the original list. |
| `TagSelect.CreateTag` | client/src/components/TagSelect.tsx:49-55 | The trimmed text is appended only when it is non-empty, not available and not selected. The input is always cleared. |
| `TagSelect.FilteredTags` | client/src/components/TagSelect.tsx:57-59 | The offered tags are exactly the available tags that are not selected. |
| `TagSelect.HandlersKeepNoDuplicates` | client/src/components/TagSelect.tsx:42-52 | Select, create and unselect keep a duplicate-free selection duplicate-free. |
| `TagSelect.CreateKeepsOffers` | client/src/components/TagSelect.tsx:51-59 | Creating a tag never hides an offered tag. |
| `Dashboard.FilteredProjects` | client/src/pages/Dashboard.tsx:52-54 | Missing project data gives `[]`. |
| `Dashboard.FilterCardsSpec` | client/src/pages/Dashboard.tsx:52-53 | The result holds exactly the projects whose lower-cased name contains the lower-cased search, and it is a subsequence of the input. |
| `Dashboard.FilteredProjectsSpec` | client/src/pages/Dashboard.tsx:52-54 | The loaded list is filtered as above, and an empty search keeps every project. |
| `Dashboard.EmptySearchKeepsAll` | client/src/pages/Dashboard.tsx:53 | An empty search matches every name. |
| `Dashboard.PendingCount` | client/src/pages/Dashboard.tsx:214-216 | A missing list counts 0, and a count never exceeds the list's length. |
| `Dashboard.PendingAreNotCompleted` | client/src/pages/Dashboard.tsx:214-216 | For valid statuses, the pending count is the number of items TaskBoard does not show as completed. |
| `Dashboard.CountPendingAppend` | client/src/pages/Dashboard.tsx:214 | The count splits over the parts of a list. |
| `ProjectForm.FormDefaults` | client/src/components/ProjectForm.tsx:28-40 | Every text field starts as `""` and `setupSteps` as `[]`. |
| `ProjectForm.InitialValuesSpec` | client/src/components/ProjectForm.tsx:28-42 | A supplied default value wins, and every other field keeps its empty default. |
| `ProjectForm.InitialValuesDefaults` | client/src/components/ProjectForm.tsx:28-42 | With nothing supplied the form starts empty, and spreading again changes nothing. |
| `ProjectForm.AddStep` | client/src/components/ProjectForm.tsx:204-205 | One `""` is appended, and the earlier steps are unchanged. |
| `ProjectForm.DropIndexSpec` | client/src/components/ProjectForm.tsx:240-241 | Removing at an in-range index drops exactly that position and keeps order. An out-of-range index changes nothing. |
| `ProjectForm.RemoveStep` | client/src/components/ProjectForm.tsx:240-241 | An in-range removal shortens the list by one. |
| `ProjectForm.StepsRoundTrip` | client/src/components/ProjectForm.tsx:204-249 | The empty-state message shows exactly when there are no steps, and removing a freshly added step restores the list. |
| `CsvExport.SerializeValue` | server/django_projects/export_db_to_csv.py:31-41 | `None` becomes `''`, lists and dicts become JSON text written with `ensure_ascii=False`, a related object becomes `str(pk)`, and text stays itself. |
| `CsvExport.ReadFieldSameText` | server/django_projects/export_db_to_csv.py:82-84 | Replacing a related object by its pk writes the same text, so foreign-key columns hold `str(pk)`. |
| `CsvExport.EmptyCell` | server/django_projects/export_db_to_csv.py:31-41 | Only `None` and the empty text write an empty cell. |
| `CsvExport.M2MCell` | server/django_projects/export_db_to_csv.py:86-91 | A relation that cannot be read writes `''`. |
| `CsvExport.KeyStrings` | server/django_projects/export_db_to_csv.py:89 | Each key is written as its `str()`. |
| `CsvExport.Header` | server/django_projects/export_db_to_csv.py:69 | The header is the concrete field names, then the many-to-many names. |
| `CsvExport.RowOf` | server/django_projects/export_db_to_csv.py:78-91 | A row has one cell per header column, in header order. |
| `CsvExport.ExportRow` | server/django_projects/export_db_to_csv.py:78-91 | The cell loops build exactly that row. |
| `CsvExport.ExportTable` | server/django_projects/export_db_to_csv.py:69-93 | A file is the header plus one row per object, and every row is as wide as the header. |
| `CsvImport.CoerceValue` | server/django_projects/import_csv_to_db.py:56-63 | `''` becomes `None`, valid JSON becomes its decoded value, and anything else stays raw text. |
| `CsvImport.ExportedCellRoundTrip` | server/django_projects/import_csv_to_db.py:56-63 | `None`, lists and dicts come back equal through export and import; numbers and pks come back as numbers. |
| `CsvImport.ExportedTextRoundTrip` | server/django_projects/import_csv_to_db.py:56-63 | Text that is not JSON comes back. `''` comes back as `None`, and `"42"` comes back as a number. |
| `CsvImport.M2MKeys` | server/django_projects/import_csv_to_db.py:201-205 | An empty cell leaves the relation untouched. Otherwise the cell is split on `';'` and the empty parts are dropped. |
| `CsvImport.M2MRoundTrip` | server/django_projects/import_csv_to_db.py:201-205 | A non-empty pk list written by the exporter comes back as the same keys. |
| `CsvImport.Dirs` | server/django_projects/import_csv_to_db.py:41 | The candidates are exactly the sub-folders. |
| `CsvImport.MaxNameIsGreatest` | server/django_projects/import_csv_to_db.py:44 | No candidate name is greater than the chosen one. |
| `CsvImport.LatestBackupSpec` | server/django_projects/import_csv_to_db.py:37-44 | `None` when there is no backups folder or no sub-folder. Otherwise the result is the sub-folder with the greatest name. |
| `CsvImport.FirstIndexAfter` | server/django_projects/import_csv_to_db.py:86 | The split happens at the first `'_'`. |
| `CsvImport.CsvSuffixDot` | server/django_projects/import_csv_to_db.py:82 | `rsplit('.', 1)` removes the `.csv` extension. |
| `CsvImport.FileNameRoundTrip` | server/django_projects/import_csv_to_db.py:82-86 | A file the exporter names reads back as its app label and model name when the label has no `'_'`. |
| `CsvImport.UnderscoreAppLabel` | server/django_projects/import_csv_to_db.py:86 | An app label containing `'_'` is split at its own first `'_'`. |
| `CsvImport.Get` | server/django_projects/import_csv_to_db.py:105 | A missing column gives the default. |
| `CsvImport.KwargsSpec` | server/django_projects/import_csv_to_db.py:109-123 | Pass 1 sets exactly the known, plain, non-many-to-many columns, each to its coerced cell. |
| `CsvImport.BuildKwargs` | server/django_projects/import_csv_to_db.py:109-123 | The loop builds exactly those keyword arguments. |
| `CsvImport.ExportedKeyRoundTrip` | server/django_projects/import_csv_to_db.py:129 | A pk or related key written by the exporter comes back through `coerce_value` and `int()` as the same integer. |
| `CsvImport.RefusedKeyText` | server/django_projects/import_csv_to_db.py:129 | A key cell `abc` is refused by `int()`. |
| `CsvImport.RefusedKeyDict` | server/django_projects/import_csv_to_db.py:129 | A key cell `{}` decodes to a dict, which `int()` refuses. |
| `CsvImport.AcceptedKeyBool` | server/django_projects/import_csv_to_db.py:129 | A key cell `true` decodes to `True`, which `int()` turns into 1. |
| `CsvImport.AcceptedKeyUnderscore` | server/django_projects/import_csv_to_db.py:129 | A key cell `1_000` is text that `int()` reads as 1000. |
| `CsvImport.FkUpdate` | server/django_projects/import_csv_to_db.py:185-196 | An empty cell sets the relation to `None`. A cell whose key converts and exists sets that key. A cell whose key is refused or missing leaves the field as it was, and only such a cell does. |
| `CsvImport.ExportedForeignKey` | server/django_projects/import_csv_to_db.py:185-196 | A related key written by the exporter is set again when its object exists, and is left unchanged otherwise. An exported `None` clears the relation. |
| `CsvImport.RelinkedField` | server/django_projects/import_csv_to_db.py:181-197 | A foreign-key column present in the row gets its cell's update, the last cell winning for a repeated column. Every other field keeps its value. |
| `CsvImport.ApplyForeignKeys` | server/django_projects/import_csv_to_db.py:181-197 | The foreign-key loop applies exactly those updates. |
| `CsvImport.EmptyRequiredKey` | server/django_projects/import_csv_to_db.py:188-197 | An empty cell for a required foreign key leaves a `None` there that `save()` refuses. |
| `CsvImport.Linked` | server/django_projects/import_csv_to_db.py:205-209 | The relation fails exactly when some listed key is refused by `int()`. Otherwise it holds exactly the related objects whose keys the cell lists. |
| `CsvImport.LinkedExported` | server/django_projects/import_csv_to_db.py:205-209 | Keys written by the exporter link exactly those of them that exist. |
| `CsvImport.ExportedLinksRoundTrip` | server/django_projects/import_csv_to_db.py:200-209 | An exported non-empty relation is restored to its existing keys. An exported empty one leaves the relation untouched. |
| `CsvImport.RefusedLinkCell` | server/django_projects/import_csv_to_db.py:205-211 | A cell `1;abc` sets nothing, because the whole filter fails. |
| `CsvImport.SetLinksOfSpec` | server/django_projects/import_csv_to_db.py:199-211 | After the many-to-many loop, each relation whose cell is usable holds that cell's objects. Every other relation, and every other object's relations, are unchanged. |
| `CsvImport.UpsertStep` | server/django_projects/import_csv_to_db.py:125-139 | A refused key fails. An existing key is updated. A create, which omits every foreign key, fails exactly when the model has a required one. A row without a key uses up the sequence's next value, and also fails when an imported object holds that value. A failure changes no object. Each object keeps its pk. |
| `CsvImport.ImportFoldSpec` | server/django_projects/import_csv_to_db.py:103-141 | No object is removed. A pass that gets through counts every row and leaves an object under every key named. A pass that stops does so at a refused key, or at a create of a model with a required foreign key, or from the sequence. |
| `CsvImport.ImportStopsAtRequiredKey` | server/django_projects/import_csv_to_db.py:119-139 | For a model with a required foreign key, a first row that does not update an existing object fails, and nothing of the file is created. |
| `CsvImport.ImportStopsAtRefusedKey` | server/django_projects/import_csv_to_db.py:127-129 | A first row whose key `int()` refuses ends the pass with nothing done. |
| `CsvImport.ImportWithoutRequiredKeys` | server/django_projects/import_csv_to_db.py:103-141 | A model without required foreign keys, whose rows all name a key that converts, is imported completely. |
| `CsvImport.RelinkStepSpec` | server/django_projects/import_csv_to_db.py:163-211 | A row without a pk, or whose object is missing, is skipped. A refused key, or a required foreign key left `None`, fails and changes nothing. No object appears or disappears, no relation is dropped, and each object keeps its pk. |
| `CsvImport.RelinkFoldSpec` | server/django_projects/import_csv_to_db.py:163-211 | The second pass over a file keeps every object and relation and each object's pk. |
| `CsvImport.Table.Upsert` | server/django_projects/import_csv_to_db.py:125-139 | The step for one row is the one `UpsertStep` gives, success flag included. |
| `CsvImport.Table.ImportRows` | server/django_projects/import_csv_to_db.py:103-141 | The loop computes `ImportFold`: rows are upserted in order, counted, and the first failure ends the pass. |
| `CsvImport.Table.Relink` | server/django_projects/import_csv_to_db.py:163-211 | The second-pass step for one row is the one `RelinkStep` gives, success flag included. |
| `CsvImport.Table.SetLinks` | server/django_projects/import_csv_to_db.py:199-211 | The many-to-many loop computes `SetLinksOf`. |
| `CsvImport.Table.RelinkRows` | server/django_projects/import_csv_to_db.py:163-211 | The loop computes `RelinkFold`: rows are relinked in order, and the first failure ends the pass. |

## Left out

- HTTP plumbing is not modelled: Express handlers and the seed endpoint in `server/routes.ts`, the session views and `GoogleAuthView` (a network call) in `views.py`, and the axios and react-query wrappers in `use-projects.ts`.
- Authentication (JWT claims, `use-auth.ts`) is left out. The caller's user id is a plain parameter, and an unauthenticated request is not modelled.
- UI rendering is left out: JSX, dialogs, animations, `ActivityLog.tsx`, `Landing.tsx`, `Login.tsx` and `ReplitAuth.tsx`.
- Framework configuration is left out (`settings.py`, `urls.py`, `admin.py`), and so is DRF pagination. DRF validation is modelled only through the field rules the serializers declare; `max_length` of the status column is not checked.
- Timestamps are a counter that every insert advances; wall-clock time is not modelled.
- `Json.Loads`: Python's `json.loads` also accepts fractions, exponents, `NaN` and `Infinity`. The model parses only the integer subset, so such cells are read as raw text by `CsvImport.CoerceValue`.
- `Models.ValueStr`: Python's `repr` also escapes the non-printable characters above U+00FF (U+2028, unassigned code points, …) as `\uXXXX`. The model's printability test covers Latin-1 only, so `Json.StrRepr` shows those characters as they are.
- `Strings.PyInt`: Python's `int()` also reads non-ASCII decimal digits (Arabic-Indic, fullwidth, …). The model reads ASCII digits only.
- `Validation.IntegerInput`: DRF also accepts a JSON number such as `5.0`. Fractions are outside the integer subset of `Json`, so only the text form `"5.0"` is modelled.
- `Json.Dumps`: Python strings may hold lone surrogates, which Dafny's `char` cannot; their `\uXXXX` escapes are not modelled.
- `Changes.GetChangedData`: Python's `!=` is modelled as structural equality of values. `True == 1` and the order-insensitive equality of dicts are not captured.
- `Dashboard.FilteredProjects`: `toLowerCase` is modelled on ASCII letters only.
- `Routes.BuildUrl`: the params are taken in the order `Object.entries` yields them, given as a list. JavaScript's placing of integer-like keys first is not modelled.
- Filesystem and CSV reader/writer I/O are left out: quoting, encodings, `sorted` file order, and the filter that keeps only developer apps. The file loop is not modelled; export and import work on given tables and rows. A file name that names no model makes `apps.get_model` raise `LookupError`, which ends the import: the `if model is None` branches never run.
- `CsvImport.Table.Upsert`: an update that the database refuses (a null in a `NOT NULL` plain column, for example) is not modelled. Only a key that `int()` refuses, a create without its required foreign keys and a sequence value already in use fail.
- `CsvImport.Table.ImportRows`: the exception that ends the pass also ends the whole script; rows of earlier files stay, each having been committed in its own transaction. The failure is returned as a flag.
- `CsvImport.Table.RelinkRows`: a refused key or a failing `save()` in the second pass also ends the whole script. The model returns it as a flag and stops the pass over that file.
- `CsvImport.KeyOf`: a key cell such as `5.0` is read as text, because `Json.Loads` has no fractions, so `int()` refuses it. Python would decode a float, which `int()` accepts.
- `Routes.ValueString`: JavaScript's `String(n)` switches to exponent form when the magnitude is at least 10^21. The model always writes every digit.
- The printed import counts are not modelled; only the count itself is (`CsvImport.Table.ImportRows`).
- Transactions (`transaction.atomic`), concurrency and last-writer-wins are left out. Each operation is one atomic step on the store.
- `OwnerStore.Store.GetProjects`: only the database error that `getProjects` catches is modelled. Errors of the other operations propagate in the source and are not modelled.
- The `features`/`bugs`/`improvements` nested lists of the project serializer are not modelled; they are read-only and are reached through the item tables.
