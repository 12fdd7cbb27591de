/** The decisions TaskBoard makes about one kind of item: whether an
    item shows as completed, the status a click on its checkbox asks for,
    and when a create or an edit of the description is sent. */
module TaskBoard {
  import opened Common
  import opened Strings
  import opened Models

  /** `isCompleted`: the status is "completed" or "fixed" (a null status is
      not completed). */
  predicate IsCompleted(status: Option<string>) {
    status == Some("completed") || status == Some("fixed")
  }

  /** The status `handleToggleStatus` sends for an item of `kind`. */
  function ToggledStatus(kind: Kind, status: Option<string>): (r: string)
    ensures IsStatusOf(kind, r)
  {
    if IsCompleted(status) then (if kind == Bug then "open" else "pending")
    else (if kind == Bug then "fixed" else "completed")
  }

  /** A toggle turns a completed item into its kind's default status and any
      other item into its kind's done status; either way it flips
      completion. */
  lemma ToggleFlips(kind: Kind, status: Option<string>)
    ensures IsCompleted(status) ==> ToggledStatus(kind, status) == DefaultStatus(kind)
    ensures !IsCompleted(status) ==> ToggledStatus(kind, status) == StatusChoices(kind)[1]
    ensures IsCompleted(Some(ToggledStatus(kind, status))) == !IsCompleted(status)
  {
  }

  /** Toggling twice gives back any status that is valid for the kind; for
      any other status, the second toggle gives the kind's default. */
  lemma ToggleTwice(kind: Kind, status: Option<string>)
    ensures status.Some? && IsStatusOf(kind, status.value) ==>
            ToggledStatus(kind, Some(ToggledStatus(kind, status))) == status.value
    ensures !IsCompleted(status) ==> ToggledStatus(kind, Some(ToggledStatus(kind, status))) == DefaultStatus(kind)
  {
  }

  /** The body `handleCreate` sends. */
  datatype CreateBody = CreateBody(projectId: int, description: string, status: string)

  /** `handleCreate`: nothing when the trimmed text is empty; otherwise the
      text as typed, with the kind's initial status. */
  function CreateRequest(kind: Kind, projectId: int, text: string): (r: Option<CreateBody>)
    ensures r.None? <==> AllWhitespace(text)
    ensures r.Some? ==> r.value == CreateBody(projectId, text, DefaultStatus(kind))
  {
    TrimEmptyIff(JsSpace, text);
    if Trim(text) == [] then None
    else Some(CreateBody(projectId, text, if kind == Bug then "open" else "pending"))
  }

  /** `handleUpdateText`: the new description to send, if any. The edit is
      compared trimmed but sent as typed. */
  function EditRequest(edit: string, current: string): (r: Option<string>)
    ensures r.Some? <==> Trim(edit) != current
    ensures r.Some? ==> r.value == edit
  {
    if Trim(edit) != current then Some(edit) else None
  }

  /** An edit that only adds whitespace around the current description is
      not sent. */
  lemma PaddedEditNotSent(current: string, pre: string, post: string)
    requires AllWhitespace(pre) && AllWhitespace(post) && Trimmed(current)
    ensures EditRequest(pre + current + post, current) == None
  {
    TrimAround(JsSpace, pre, current, post);
  }

  /** An edit with no whitespace at its ends is sent exactly when it
      differs from the current description. */
  lemma TrimmedEditSent(edit: string, current: string)
    requires Trimmed(edit)
    ensures EditRequest(edit, current).Some? <==> edit != current
  {
    TrimOfTrimmed(JsSpace, edit);
  }

  /** Re-submitting a description that has whitespace at an end sends an
      update even though nothing was edited. */
  lemma UnchangedEditResent(current: string)
    requires current != [] && IsJsWhitespace(current[0])
    ensures EditRequest(current, current) == Some(current)
  {
    TrimEnds(JsSpace, current);
  }
}
