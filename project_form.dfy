/** The project form: its initial values (empty fields overridden by the
    values of the project being edited) and the editing of the list of setup
    steps. */
module ProjectForm {
  import opened Common
  import opened Models

  /** A form field's value: text, the list of setup steps, or a null the
      edited project carries. */
  datatype FormValue = FText(text: string) | FSteps(steps: seq<string>) | FNull

  /** The initial value of each field before `defaultValues` are spread in:
      an empty list of steps, and empty text for every other field. */
  function FieldDefault(a: Attr): FormValue {
    if a == SetupSteps then FSteps([]) else FText("")
  }

  function FormDefaults(): (r: map<Attr, FormValue>)
    ensures r.Keys == ProjectAttrNames()
    ensures forall a :: a in r ==> r[a] == FieldDefault(a)
  {
    map a | a in ProjectAttrNames() :: FieldDefault(a)
  }

  /** `{ name: "", ..., setupSteps: [], ...defaultValues }`: a given value
      replaces the default of its field. */
  function InitialValues(given: map<Attr, FormValue>): (r: map<Attr, FormValue>)
    ensures r.Keys == ProjectAttrNames() + given.Keys
  {
    FormDefaults() + given
  }

  /** Every given value wins, and every other field starts from its
      default. */
  lemma InitialValuesSpec(given: map<Attr, FormValue>, a: Attr)
    ensures a in given ==> InitialValues(given)[a] == given[a]
    ensures a !in given && a in ProjectAttrNames() ==> InitialValues(given)[a] == FieldDefault(a)
  {
  }

  /** With nothing given the form starts empty, and re-spreading the initial
      values changes nothing. */
  lemma InitialValuesDefaults(given: map<Attr, FormValue>)
    ensures InitialValues(map[]) == FormDefaults()
    ensures InitialValues(InitialValues(given)) == InitialValues(given)
  {
    assert FormDefaults() + map[] == FormDefaults();
    assert FormDefaults() + (FormDefaults() + given) == FormDefaults() + given;
  }

  // ---------------------------------------------------------------------------
  // Setup steps

  /** The "Add Step" button: one empty step after the current ones (a
      missing list counts as empty). */
  function AddStep(current: Option<seq<string>>): (r: seq<string>)
    ensures |r| == |current.GetOr([])| + 1
    ensures r[..|r| - 1] == current.GetOr([]) && r[|r| - 1] == ""
  {
    current.GetOr([]) + [""]
  }

  /** `steps.filter((_, i) => i !== index)`, walking the list with the
      position of its first element. */
  function DropIndex(steps: seq<string>, index: int): (r: seq<string>)
    ensures |r| <= |steps|
  {
    if steps == [] then []
    else (if index == 0 then [] else [steps[0]]) + DropIndex(steps[1..], index - 1)
  }

  /** Removing at a position inside the list drops exactly that step and
      keeps the others in order; at any other position nothing changes. */
  lemma {:induction false} DropIndexSpec(steps: seq<string>, index: int)
    ensures 0 <= index < |steps| ==> DropIndex(steps, index) == steps[..index] + steps[index + 1..]
    ensures !(0 <= index < |steps|) ==> DropIndex(steps, index) == steps
  {
    if steps != [] {
      DropIndexSpec(steps[1..], index - 1);
      if index == 0 {
        assert steps[..0] + steps[1..] == steps[1..];
      } else if 0 < index < |steps| {
        assert steps[..index] == [steps[0]] + steps[1..][..index - 1];
        assert steps[index + 1..] == steps[1..][index..];
      } else {
        assert steps == [steps[0]] + steps[1..];
      }
    }
  }

  /** The remove button of step `index`. */
  function RemoveStep(current: Option<seq<string>>, index: int): (r: seq<string>)
    ensures 0 <= index < |current.GetOr([])| ==> |r| == |current.GetOr([])| - 1
  {
    DropIndexSpec(current.GetOr([]), index);
    DropIndex(current.GetOr([]), index)
  }

  /** The "No setup steps added yet." message. */
  predicate ShowsEmptyState(current: Option<seq<string>>) {
    current.None? || |current.value| == 0
  }

  /** The message shows exactly when there is no step; adding a step hides
      it, and removing the new step brings back the steps before it. */
  lemma StepsRoundTrip(current: Option<seq<string>>)
    ensures ShowsEmptyState(current) <==> current.GetOr([]) == []
    ensures !ShowsEmptyState(Some(AddStep(current)))
    ensures RemoveStep(Some(AddStep(current)), |current.GetOr([])|) == current.GetOr([])
  {
    var s := AddStep(current);
    DropIndexSpec(s, |current.GetOr([])|);
    assert s[..|s| - 1] == current.GetOr([]);
  }
}
