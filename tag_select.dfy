/** The tag picker: removing and toggling tags of the current selection,
    adding a typed tag, and the list of tags still offered. Each handler
    gives the selection it passes to `onChange` (or the old one when it does
    not call it) and the new text of the input box. */
module TagSelect {
  import opened Strings

  /** `xs.filter((s) => !drop.includes(s))`. */
  function FilterOut(xs: seq<string>, drop: seq<string>): (r: seq<string>)
    ensures |r| <= |xs|
  {
    if xs == [] then []
    else (if xs[0] in drop then [] else [xs[0]]) + FilterOut(xs[1..], drop)
  }

  /** The filter keeps exactly the elements outside `drop`. */
  lemma {:induction false} FilterOutMembers(xs: seq<string>, drop: seq<string>, x: string)
    ensures x in FilterOut(xs, drop) <==> x in xs && x !in drop
  {
    if xs != [] {
      FilterOutMembers(xs[1..], drop, x);
      assert xs == [xs[0]] + xs[1..];
    }
  }

  /** The filter keeps the order: filtering a concatenation is
      concatenating the filtered parts. */
  lemma {:induction false} FilterOutAppend(xs: seq<string>, ys: seq<string>, drop: seq<string>)
    ensures FilterOut(xs + ys, drop) == FilterOut(xs, drop) + FilterOut(ys, drop)
  {
    if xs == [] {
      assert xs + ys == ys;
    } else {
      assert (xs + ys)[1..] == xs[1..] + ys;
      FilterOutAppend(xs[1..], ys, drop);
    }
  }

  /** A list with nothing to drop comes back unchanged. */
  lemma {:induction false} FilterOutNothing(xs: seq<string>, drop: seq<string>)
    requires forall i :: 0 <= i < |xs| ==> xs[i] !in drop
    ensures FilterOut(xs, drop) == xs
  {
    if xs != [] {
      FilterOutNothing(xs[1..], drop);
    }
  }

  /** No element occurs twice. */
  predicate NoDuplicates(xs: seq<string>) {
    forall i, j :: 0 <= i < j < |xs| ==> xs[i] != xs[j]
  }

  lemma {:induction false} FilterOutNoDuplicates(xs: seq<string>, drop: seq<string>)
    requires NoDuplicates(xs)
    ensures NoDuplicates(FilterOut(xs, drop))
  {
    if xs != [] {
      FilterOutNoDuplicates(xs[1..], drop);
      FilterOutMembers(xs[1..], drop, xs[0]);
      var r := FilterOut(xs, drop);
      var rest := FilterOut(xs[1..], drop);
      if xs[0] !in drop {
        forall i, j | 0 <= i < j < |r| ensures r[i] != r[j] {
          if i == 0 {
            assert r[j] == rest[j - 1];
            assert r[j] in rest;
          }
        }
      }
    }
  }

  /** The selection after a handler, and the text left in the input box. */
  datatype TagEdit = TagEdit(selected: seq<string>, input: string)

  /** `handleUnselect`: every occurrence of the tag goes, the other tags keep
      their order. */
  function Unselect(selected: seq<string>, tag: string): (r: seq<string>)
    ensures forall x :: x in r <==> x in selected && x != tag
  {
    forall x ensures x in FilterOut(selected, [tag]) <==> x in selected && x != tag {
      FilterOutMembers(selected, [tag], x);
    }
    FilterOut(selected, [tag])
  }

  /** `handleSelect`: a selected tag is removed, another one is appended;
      the input is cleared. */
  function Select(selected: seq<string>, input: string, tag: string): (r: TagEdit)
    ensures r.input == ""
    ensures tag in selected ==> tag !in r.selected && r.selected == Unselect(selected, tag)
    ensures tag !in selected ==> r.selected == selected + [tag]
  {
    if tag in selected then TagEdit(Unselect(selected, tag), "")
    else TagEdit(selected + [tag], "")
  }

  /** Selecting a tag that is not selected, and then selecting it again,
      gives back the selection. */
  lemma SelectTwice(selected: seq<string>, input: string, tag: string)
    requires tag !in selected
    ensures Select(Select(selected, input, tag).selected, "", tag).selected == selected
  {
    FilterOutAppend(selected, [tag], [tag]);
    FilterOutNothing(selected, [tag]);
  }

  /** `createTag`: the trimmed input is appended when it is non-empty, not
      one of the available tags and not selected yet; the input is cleared
      either way. */
  function CreateTag(selected: seq<string>, input: string, available: seq<string>): (r: TagEdit)
    ensures r.input == ""
    ensures var t := Trim(input);
      r.selected == (if t != "" && t !in available && t !in selected then selected + [t] else selected)
  {
    var t := Trim(input);
    if t != "" && t !in available && t !in selected then TagEdit(selected + [t], "")
    else TagEdit(selected, "")
  }

  /** `filteredTags`: the available tags that are not selected, in their
      order. */
  function FilteredTags(available: seq<string>, selected: seq<string>): (r: seq<string>)
    ensures forall x :: x in r <==> x in available && x !in selected
  {
    forall x ensures x in FilterOut(available, selected) <==> x in available && x !in selected {
      FilterOutMembers(available, selected, x);
    }
    FilterOut(available, selected)
  }

  /** Selecting and creating keep a selection without duplicates free of
      duplicates. */
  lemma HandlersKeepNoDuplicates(selected: seq<string>, input: string, tag: string, available: seq<string>)
    requires NoDuplicates(selected)
    ensures NoDuplicates(Select(selected, input, tag).selected)
    ensures NoDuplicates(CreateTag(selected, input, available).selected)
    ensures NoDuplicates(Unselect(selected, tag))
  {
    FilterOutNoDuplicates(selected, [tag]);
  }

  /** A created tag is never one of the offered tags, so creating does not
      hide any offered tag. */
  lemma CreateKeepsOffers(selected: seq<string>, input: string, available: seq<string>)
    ensures FilteredTags(available, CreateTag(selected, input, available).selected) ==
            FilteredTags(available, selected)
  {
    var t := Trim(input);
    if t != "" && t !in available && t !in selected {
      var s2 := selected + [t];
      SameFilter(available, selected, s2);
    }
  }

  /** Filtering by two lists that agree on the members of `xs` gives the
      same result. */
  lemma {:induction false} SameFilter(xs: seq<string>, d1: seq<string>, d2: seq<string>)
    requires forall i :: 0 <= i < |xs| ==> (xs[i] in d1 <==> xs[i] in d2)
    ensures FilterOut(xs, d1) == FilterOut(xs, d2)
  {
    if xs != [] {
      SameFilter(xs[1..], d1, d2);
    }
  }
}
