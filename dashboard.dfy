/** The dashboard's project list: the search filter over the loaded projects
    and the pending-item counts each project card shows. */
module Dashboard {
  import opened Common
  import opened Strings
  import opened Models
  import TaskBoard

  /** What a card needs of a project: its name and, per kind, the statuses
      of its items (None when the list was not loaded). */
  datatype Card = Card(name: string, features: Option<seq<Option<string>>>,
                       bugs: Option<seq<Option<string>>>, improvements: Option<seq<Option<string>>>)

  /** The case-insensitive name test of the search box. */
  predicate Matches(p: Card, search: string) {
    Contains(ToLower(p.name), ToLower(search))
  }

  function FilterCards(ps: seq<Card>, search: string): (r: seq<Card>)
    ensures |r| <= |ps|
  {
    if ps == [] then []
    else (if Matches(ps[0], search) then [ps[0]] else []) + FilterCards(ps[1..], search)
  }

  /** `filteredProjects`: the loaded projects whose lower-cased name contains
      the lower-cased search; no projects loaded gives the empty list. */
  function FilteredProjects(projects: Option<seq<Card>>, search: string): (r: seq<Card>)
    ensures projects.None? ==> r == []
  {
    match projects
    case None => []
    case Some(ps) => FilterCards(ps, search)
  }

  /** `r` is `xs` with some elements left out. */
  predicate SubsequenceOf(r: seq<Card>, xs: seq<Card>)
    decreases |xs|
  {
    if xs == [] then r == []
    else (r != [] && r[0] == xs[0] && SubsequenceOf(r[1..], xs[1..])) || SubsequenceOf(r, xs[1..])
  }

  /** The filter keeps exactly the matching projects, in their order. */
  lemma {:induction false} FilterCardsSpec(ps: seq<Card>, search: string)
    ensures forall p :: p in FilterCards(ps, search) <==> p in ps && Matches(p, search)
    ensures SubsequenceOf(FilterCards(ps, search), ps)
  {
    if ps != [] {
      FilterCardsSpec(ps[1..], search);
      assert ps == [ps[0]] + ps[1..];
      var r := FilterCards(ps, search);
      var rest := FilterCards(ps[1..], search);
      if Matches(ps[0], search) {
        assert r[0] == ps[0] && r[1..] == rest;
      } else {
        assert r == rest;
      }
    }
  }

  /** The filtered list is part of the loaded list, keeps each matching
      project, and an empty search keeps them all. */
  lemma FilteredProjectsSpec(projects: Option<seq<Card>>, search: string)
    ensures projects.Some? ==>
      (forall p :: p in FilteredProjects(projects, search) <==> p in projects.value && Matches(p, search))
      && SubsequenceOf(FilteredProjects(projects, search), projects.value)
    ensures projects.Some? && search == "" ==> FilteredProjects(projects, search) == projects.value
  {
    if projects.Some? {
      FilterCardsSpec(projects.value, search);
      if search == "" {
        EmptySearchKeepsAll(projects.value);
      }
    }
  }

  lemma {:induction false} EmptySearchKeepsAll(ps: seq<Card>)
    ensures FilterCards(ps, "") == ps
  {
    if ps != [] {
      assert ToLower("") == "";
      EmptyContained(ToLower(ps[0].name));
      EmptySearchKeepsAll(ps[1..]);
    }
  }

  // ---------------------------------------------------------------------------
  // Pending counts

  /** The statuses the card counts as pending. */
  predicate IsPending(status: Option<string>) {
    status == Some("pending") || status == Some("open")
  }

  function CountPending(items: seq<Option<string>>): (r: nat)
    ensures r <= |items|
  {
    if items == [] then 0
    else (if IsPending(items[0]) then 1 else 0) + CountPending(items[1..])
  }

  /** A card's pending count for one kind: a missing list counts 0. */
  function PendingCount(items: Option<seq<Option<string>>>): (r: nat)
    ensures items.None? ==> r == 0
    ensures items.Some? ==> r <= |items.value|
  {
    match items
    case None => 0
    case Some(xs) => CountPending(xs)
  }

  /** For items whose statuses are valid for their kind, an item is pending
      exactly when TaskBoard does not show it as completed, so the
      pending count is the number of items not completed. */
  lemma {:induction false} PendingAreNotCompleted(kind: Kind, items: seq<Option<string>>)
    requires forall i :: 0 <= i < |items| ==> items[i].Some? && IsStatusOf(kind, items[i].value)
    ensures CountPending(items) == |items| - CountCompleted(items)
  {
    if items != [] {
      PendingAreNotCompleted(kind, items[1..]);
    }
  }

  function CountCompleted(items: seq<Option<string>>): (r: nat)
    ensures r <= |items|
  {
    if items == [] then 0
    else (if TaskBoard.IsCompleted(items[0]) then 1 else 0) + CountCompleted(items[1..])
  }

  /** Counting splits over the parts of a list. */
  lemma {:induction false} CountPendingAppend(xs: seq<Option<string>>, ys: seq<Option<string>>)
    ensures CountPending(xs + ys) == CountPending(xs) + CountPending(ys)
  {
    if xs == [] {
      assert xs + ys == ys;
    } else {
      assert (xs + ys)[1..] == xs[1..] + ys;
      CountPendingAppend(xs[1..], ys);
    }
  }
}
