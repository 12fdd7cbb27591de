/** The field diff the serializers compute before an update
    (`get_changed_data`), and the `setattr` loop that applies it.

    An instance is the map from its attribute names to their values; a patch
    is the validated input, a sequence of (attribute, new value) pairs in the
    serializer's field order. The diff keeps the patch order and holds one
    (attribute, old value, new value) entry for each patched attribute whose
    value differs. */
module Changes {
  import opened Common
  import opened Models

  type Instance = map<Attr, Value>
  type Patch = seq<(Attr, Value)>

  datatype Change = Change(attr: Attr, oldValue: Value, newValue: Value)

  /** Every patched attribute exists on the instance (`getattr` succeeds). */
  predicate PatchFits(instance: Instance, patch: Patch) {
    forall i :: 0 <= i < |patch| ==> patch[i].0 in instance
  }

  /** A patch names each attribute at most once, as a dict does. */
  predicate DistinctAttrs(patch: Patch) {
    forall i, j :: 0 <= i < j < |patch| ==> patch[i].0 != patch[j].0
  }

  predicate InPatch(patch: Patch, attr: Attr) {
    exists i :: 0 <= i < |patch| && patch[i].0 == attr
  }

  /** The diff of `patch` against `instance`, defined on patch prefixes. */
  function ChangedData(instance: Instance, patch: Patch): seq<Change>
    requires PatchFits(instance, patch)
  {
    if patch == [] then []
    else
      var (attr, value) := patch[|patch| - 1];
      var front := ChangedData(instance, patch[..|patch| - 1]);
      if instance[attr] != value then front + [Change(attr, instance[attr], value)] else front
  }

  /** utils.py `get_changed_data`: one pass over the patch, reading the
      instance and never writing it. */
  method GetChangedData(instance: Instance, patch: Patch) returns (changed: seq<Change>)
    requires PatchFits(instance, patch)
    ensures changed == ChangedData(instance, patch)
  {
    changed := [];
    var i := 0;
    while i < |patch|
      invariant 0 <= i <= |patch|
      invariant changed == ChangedData(instance, patch[..i])
    {
      var (attr, value) := patch[i];
      var oldValue := instance[attr];
      if oldValue != value {
        changed := changed + [Change(attr, oldValue, value)];
      }
      assert patch[..i + 1][..i] == patch[..i];
      i := i + 1;
    }
    assert patch[..|patch|] == patch;
  }

  /** Each entry names a patched attribute of the instance, holds the
      instance's value first and the patched value second, and the two
      differ. */
  predicate EntriesFromPatch(instance: Instance, patch: Patch, d: seq<Change>) {
    forall k :: 0 <= k < |d| ==>
      && d[k].attr in instance && d[k].oldValue == instance[d[k].attr] && d[k].oldValue != d[k].newValue
      && exists i :: 0 <= i < |patch| && patch[i] == (d[k].attr, d[k].newValue)
  }

  lemma {:induction false} ChangedEntries(instance: Instance, patch: Patch)
    requires PatchFits(instance, patch)
    ensures EntriesFromPatch(instance, patch, ChangedData(instance, patch))
  {
    if patch != [] {
      var front := patch[..|patch| - 1];
      ChangedEntries(instance, front);
      var d := ChangedData(instance, patch);
      var df := ChangedData(instance, front);
      forall k | 0 <= k < |d|
        ensures d[k].attr in instance && d[k].oldValue == instance[d[k].attr] && d[k].oldValue != d[k].newValue
        ensures exists i :: 0 <= i < |patch| && patch[i] == (d[k].attr, d[k].newValue)
      {
        if k < |df| {
          assert d[k] == df[k];
          var i :| 0 <= i < |front| && front[i] == (df[k].attr, df[k].newValue);
          assert patch[i] == front[i];
        } else {
          assert patch[|patch| - 1] == (d[k].attr, d[k].newValue);
        }
      }
    }
  }

  /** For a patch that names each attribute once, an attribute is in the
      diff exactly when it is patched to a value different from the
      instance's. */
  lemma {:induction false} ChangedIff(instance: Instance, patch: Patch, attr: Attr, value: Value)
    requires PatchFits(instance, patch) && attr in instance
    ensures (exists k :: 0 <= k < |ChangedData(instance, patch)| &&
               ChangedData(instance, patch)[k] == Change(attr, instance[attr], value))
        <==> (exists i :: 0 <= i < |patch| && patch[i] == (attr, value)) && instance[attr] != value
  {
    var d := ChangedData(instance, patch);
    ChangedEntries(instance, patch);
    if exists i :: 0 <= i < |patch| && patch[i] == (attr, value) {
      if instance[attr] != value {
        var i :| 0 <= i < |patch| && patch[i] == (attr, value);
        PatchedEntryKept(instance, patch, i);
      }
    }
  }

  /** A patched attribute whose value differs has its entry in the diff. */
  lemma {:induction false} PatchedEntryKept(instance: Instance, patch: Patch, i: nat)
    requires PatchFits(instance, patch) && i < |patch|
    requires instance[patch[i].0] != patch[i].1
    ensures Change(patch[i].0, instance[patch[i].0], patch[i].1) in ChangedData(instance, patch)
  {
    var front := patch[..|patch| - 1];
    if i < |patch| - 1 {
      assert front[i] == patch[i];
      PatchedEntryKept(instance, front, i);
    }
  }

  /** An empty patch changes nothing. */
  lemma EmptyPatch(instance: Instance)
    ensures ChangedData(instance, []) == []
  {
  }

  /** The diff names only patched attributes. */
  lemma ChangedAttrsPatched(instance: Instance, patch: Patch, k: nat)
    requires PatchFits(instance, patch) && k < |ChangedData(instance, patch)|
    ensures InPatch(patch, ChangedData(instance, patch)[k].attr)
  {
    ChangedEntries(instance, patch);
  }

  // ---------------------------------------------------------------------------
  // Applying a diff or a patch

  /** The instance after `setattr(instance, attr, new)` for each entry. */
  function ApplyChanges(instance: Instance, changes: seq<Change>): Instance {
    if changes == [] then instance
    else ApplyChanges(instance, changes[..|changes| - 1])[changes[|changes| - 1].attr := changes[|changes| - 1].newValue]
  }

  /** The instance after every patched attribute is set (`super().update`). */
  function ApplyPatch(instance: Instance, patch: Patch): Instance {
    if patch == [] then instance
    else ApplyPatch(instance, patch[..|patch| - 1])[patch[|patch| - 1].0 := patch[|patch| - 1].1]
  }

  /** The serializers' `for attr, (old, new) in changed_data.items():
      setattr(instance, attr, new)`. */
  method SetChangedAttrs(instance: Instance, changes: seq<Change>) returns (updated: Instance)
    ensures updated == ApplyChanges(instance, changes)
  {
    updated := instance;
    var i := 0;
    while i < |changes|
      invariant 0 <= i <= |changes|
      invariant updated == ApplyChanges(instance, changes[..i])
    {
      assert changes[..i + 1][..i] == changes[..i];
      updated := updated[changes[i].attr := changes[i].newValue];
      i := i + 1;
    }
    assert changes[..|changes|] == changes;
  }

  /** A patch adds exactly the attributes it names. */
  lemma {:induction false} ApplyPatchKeys(instance: Instance, patch: Patch, attr: Attr)
    ensures attr in ApplyPatch(instance, patch) <==> attr in instance || InPatch(patch, attr)
  {
    if patch != [] {
      var front := patch[..|patch| - 1];
      ApplyPatchKeys(instance, front, attr);
      if InPatch(patch, attr) && patch[|patch| - 1].0 != attr {
        var i :| 0 <= i < |patch| && patch[i].0 == attr;
        assert front[i] == patch[i];
      }
      if InPatch(front, attr) {
        var i :| 0 <= i < |front| && front[i].0 == attr;
        assert patch[i] == front[i];
      }
    }
  }

  /** An attribute the patch does not name keeps its value. */
  lemma {:induction false} ApplyPatchUntouched(instance: Instance, patch: Patch, attr: Attr)
    requires !InPatch(patch, attr) && attr in instance
    ensures attr in ApplyPatch(instance, patch) && ApplyPatch(instance, patch)[attr] == instance[attr]
  {
    if patch != [] {
      ApplyPatchUntouched(instance, patch[..|patch| - 1], attr);
    }
  }

  /** A patched attribute holds the value of its last entry. */
  lemma {:induction false} ApplyPatchLast(instance: Instance, patch: Patch, i: nat)
    requires i < |patch|
    requires forall j :: i < j < |patch| ==> patch[j].0 != patch[i].0
    ensures patch[i].0 in ApplyPatch(instance, patch) && ApplyPatch(instance, patch)[patch[i].0] == patch[i].1
  {
    var front := patch[..|patch| - 1];
    if i < |patch| - 1 {
      assert front[i] == patch[i];
      assert forall j :: i < j < |front| ==> front[j] == patch[j];
      ApplyPatchLast(instance, front, i);
    }
  }

  /** After a patch each patched attribute holds its last patched value and
      every other attribute keeps its value. */
  lemma ApplyPatchValues(instance: Instance, patch: Patch, attr: Attr)
    ensures attr in ApplyPatch(instance, patch) <==> attr in instance || InPatch(patch, attr)
    ensures !InPatch(patch, attr) && attr in instance ==> ApplyPatch(instance, patch)[attr] == instance[attr]
    ensures forall i :: 0 <= i < |patch| && patch[i].0 == attr && (forall j :: i < j < |patch| ==> patch[j].0 != attr)
              ==> ApplyPatch(instance, patch)[attr] == patch[i].1
  {
    ApplyPatchKeys(instance, patch, attr);
    if !InPatch(patch, attr) && attr in instance {
      ApplyPatchUntouched(instance, patch, attr);
    }
    forall i | 0 <= i < |patch| && patch[i].0 == attr && (forall j :: i < j < |patch| ==> patch[j].0 != attr)
      ensures ApplyPatch(instance, patch)[attr] == patch[i].1
    {
      ApplyPatchLast(instance, patch, i);
    }
  }

  /** Setting only the changed attributes leaves the instance exactly as
      setting every patched attribute does: the unchanged ones already hold
      their patched values. */
  lemma {:induction false} ChangesAgreeWithPatch(instance: Instance, patch: Patch)
    requires PatchFits(instance, patch) && DistinctAttrs(patch)
    ensures ApplyChanges(instance, ChangedData(instance, patch)) == ApplyPatch(instance, patch)
  {
    if patch != [] {
      var front := patch[..|patch| - 1];
      var (attr, value) := patch[|patch| - 1];
      assert DistinctAttrs(front);
      ChangesAgreeWithPatch(instance, front);
      if instance[attr] == value {
        ApplyPatchValues(instance, front, attr);
        forall i | 0 <= i < |front|
          ensures front[i].0 != attr
        {
          assert front[i] == patch[i];
        }
        var m := ApplyPatch(instance, front);
        assert m[attr := value] == m;
      }
    }
  }

  /** Recomputing the diff after the update finds nothing left to change. */
  lemma {:induction false} NothingLeftToChange(instance: Instance, patch: Patch)
    requires PatchFits(instance, patch) && DistinctAttrs(patch)
    ensures PatchFits(ApplyPatch(instance, patch), patch)
    ensures ChangedData(ApplyPatch(instance, patch), patch) == []
  {
    var after := ApplyPatch(instance, patch);
    forall i | 0 <= i < |patch|
      ensures patch[i].0 in after && after[patch[i].0] == patch[i].1
    {
      ApplyPatchValues(instance, patch, patch[i].0);
    }
    NoDiffWhenEqual(after, patch);
  }

  lemma {:induction false} NoDiffWhenEqual(instance: Instance, patch: Patch)
    requires forall i :: 0 <= i < |patch| ==> patch[i].0 in instance && instance[patch[i].0] == patch[i].1
    ensures ChangedData(instance, patch) == []
  {
    if patch != [] {
      NoDiffWhenEqual(instance, patch[..|patch| - 1]);
    }
  }

  /** After a patch an attribute of the instance holds either its old value
      or one the patch gives it. */
  lemma {:induction false} ApplyPatchFrom(instance: Instance, patch: Patch, attr: Attr)
    requires attr in instance
    ensures attr in ApplyPatch(instance, patch)
    ensures ApplyPatch(instance, patch)[attr] == instance[attr] || (attr, ApplyPatch(instance, patch)[attr]) in patch
  {
    if patch != [] {
      var front := patch[..|patch| - 1];
      ApplyPatchFrom(instance, front, attr);
      var v := ApplyPatch(instance, front)[attr];
      if (attr, v) in front {
        var i :| 0 <= i < |front| && front[i] == (attr, v);
        assert patch[i] == front[i];
      }
    }
  }

  /** Setting the same attributes a second time changes nothing more. */
  lemma ApplyPatchTwice(instance: Instance, patch: Patch)
    requires DistinctAttrs(patch)
    ensures ApplyPatch(ApplyPatch(instance, patch), patch) == ApplyPatch(instance, patch)
  {
    var once := ApplyPatch(instance, patch);
    var twice := ApplyPatch(once, patch);
    forall a
      ensures a in twice <==> a in once
      ensures a in once ==> twice[a] == once[a]
    {
      ApplyPatchValues(instance, patch, a);
      ApplyPatchValues(once, patch, a);
      if InPatch(patch, a) {
        var i :| 0 <= i < |patch| && patch[i].0 == a;
        assert forall j :: i < j < |patch| ==> patch[j].0 != a;
      }
    }
  }

  /** The value a patch gives `attr` (its first entry for `attr`), as
      `validated_data.get(attr)`. */
  function PatchValue(patch: Patch, attr: Attr): (r: Option<Value>)
    ensures r.Some? ==> (attr, r.value) in patch
    ensures r.None? <==> !InPatch(patch, attr)
  {
    if patch == [] then None
    else if patch[0].0 == attr then Some(patch[0].1)
    else
      assert forall i :: 1 <= i < |patch| ==> patch[1..][i - 1] == patch[i];
      PatchValue(patch[1..], attr)
  }

  lemma {:induction false} PatchValueConcat(a: Patch, b: Patch, attr: Attr)
    ensures PatchValue(a + b, attr) == if PatchValue(a, attr).Some? then PatchValue(a, attr) else PatchValue(b, attr)
  {
    if a != [] {
      assert (a + b)[1..] == a[1..] + b;
      PatchValueConcat(a[1..], b, attr);
    } else {
      assert a + b == b;
    }
  }

  /** After a patch that names each attribute once, an attribute holds its
      patched value if it has one and its old value otherwise. */
  lemma PatchValueApplied(instance: Instance, patch: Patch, attr: Attr)
    requires DistinctAttrs(patch)
    ensures attr in ApplyPatch(instance, patch) <==> attr in instance || PatchValue(patch, attr).Some?
    ensures PatchValue(patch, attr).Some? ==> ApplyPatch(instance, patch)[attr] == PatchValue(patch, attr).value
    ensures PatchValue(patch, attr).None? && attr in instance ==> ApplyPatch(instance, patch)[attr] == instance[attr]
  {
    ApplyPatchValues(instance, patch, attr);
    var v := PatchValue(patch, attr);
    if v.Some? {
      var i :| 0 <= i < |patch| && patch[i] == (attr, v.value);
      assert forall j :: i < j < |patch| ==> patch[j].0 != attr;
    }
  }
}
