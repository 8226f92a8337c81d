/** The edit dialog: the length errors of the edited name and description,
    saving the edited copy into the user's tasks, cancelling, and the rule
    that disables the save button. */
module EditTask {
  import opened Wrappers
  import opened UserTypes

  /** The dialog's state: the edited copy and the categories picked for it. */
  datatype EditState = EditState(edited: Option<Task>, selectedCategories: Option<seq<Category>>)

  /** `nameError`: a non-empty name over the limit. */
  function NameError(edited: Option<Task>, maxName: nat): (b: bool)
    ensures b <==> edited.Some? && |edited.value.name| > maxName
  {
    edited.Some? && edited.value.name != "" && |edited.value.name| > maxName
  }

  /** `descriptionError`: a non-empty description over the limit. */
  function DescriptionError(edited: Option<Task>, maxDescription: nat): (b: bool)
    ensures b <==> edited.Some? && edited.value.description.Some? &&
                   |edited.value.description.value| > maxDescription
  {
    edited.Some? && edited.value.description.Some? && edited.value.description.value != "" &&
    |edited.value.description.value| > maxDescription
  }

  /** `x || undefined` on an optional string: the empty string becomes
      missing. */
  function OrUndefined(s: Option<string>): (r: Option<string>)
    ensures r.None? <==> s.None? || s.value == ""
    ensures r.Some? ==> r == s
  {
    if s.Some? && s.value != "" then s else None
  }

  /** The saved version of a task: the edited name, colour, emoji,
      description, deadline and categories, and a fresh `lastSave`. */
  function Saved(task: Task, edited: Task, now: int): Task {
    task.(name := edited.name, color := edited.color, emoji := OrUndefined(edited.emoji),
          description := OrUndefined(edited.description), deadline := edited.deadline,
          category := edited.category, lastSave := Some(now))
  }

  /** `handleSave`: with an edited copy and no error the task with its id is
      replaced by its saved version; otherwise nothing changes. */
  function Save(tasks: seq<Task>, edited: Option<Task>, maxName: nat, maxDescription: nat,
                now: int): (r: seq<Task>)
    ensures edited.None? || NameError(edited, maxName) || DescriptionError(edited, maxDescription) ==> r == tasks
    ensures |r| == |tasks|
  {
    if edited.None? || NameError(edited, maxName) || DescriptionError(edited, maxDescription) then tasks
    else
      seq(|tasks|, i requires 0 <= i < |tasks| =>
        if tasks[i].id == edited.value.id then Saved(tasks[i], edited.value, now) else tasks[i])
  }

  /** A save keeps the ids; it changes only the task with the edited id;
      that task keeps its id, done and pinned flags, date, position and
      sharer, takes the edited fields (an empty emoji or description
      becoming missing) and gets a fresh `lastSave`. */
  lemma SaveEffect(tasks: seq<Task>, edited: Task, maxName: nat, maxDescription: nat, now: int)
    requires !NameError(Some(edited), maxName) && !DescriptionError(Some(edited), maxDescription)
    ensures var r := Save(tasks, Some(edited), maxName, maxDescription, now);
            TaskIds(r) == TaskIds(tasks) &&
            forall i :: 0 <= i < |r| ==>
              if tasks[i].id == edited.id then
                r[i].id == tasks[i].id && r[i].done == tasks[i].done && r[i].pinned == tasks[i].pinned &&
                r[i].date == tasks[i].date && r[i].position == tasks[i].position &&
                r[i].sharedBy == tasks[i].sharedBy &&
                r[i].name == edited.name && r[i].color == edited.color &&
                r[i].deadline == edited.deadline && r[i].category == edited.category &&
                (r[i].emoji.None? <==> edited.emoji.None? || edited.emoji.value == "") &&
                (r[i].emoji.Some? ==> r[i].emoji == edited.emoji) &&
                (r[i].description.None? <==> edited.description.None? || edited.description.value == "") &&
                (r[i].description.Some? ==> r[i].description == edited.description) &&
                r[i].lastSave == Some(now)
              else r[i] == tasks[i]
  {
    var r := Save(tasks, Some(edited), maxName, maxDescription, now);
    assert TaskIds(r) == TaskIds(tasks);
  }

  /** `handleCancel`: the edited copy and its categories are those of the
      original task again. */
  function Cancel(st: EditState, task: Option<Task>): (r: EditState)
    ensures r.edited == task
    ensures r.selectedCategories == if task.Some? then task.value.category else None
  {
    EditState(task, if task.Some? then task.value.category else None)
  }

  /** The save button is disabled exactly on a name or description over its
      limit, an empty name, or an edited copy equal to the original. */
  function SaveDisabled(edited: Option<Task>, original: Option<Task>, maxName: nat, maxDescription: nat): (b: bool)
    ensures b <==> edited == original ||
                   (edited.Some? && (edited.value.name == "" || |edited.value.name| > maxName ||
                                     (edited.value.description.Some? &&
                                      |edited.value.description.value| > maxDescription)))
    ensures !b ==> edited.Some? || original.Some?
  {
    NameError(edited, maxName) || (edited.Some? && edited.value.name == "") ||
    DescriptionError(edited, maxDescription) || edited == original
  }

  /** An enabled button means the save goes through: the edited copy has
      a name and differs from the original, and every task with the edited
      id is replaced by its saved version. */
  lemma EnabledSaveSaves(tasks: seq<Task>, edited: Task, original: Option<Task>,
                         maxName: nat, maxDescription: nat, now: int)
    requires !SaveDisabled(Some(edited), original, maxName, maxDescription)
    ensures edited.name != "" && Some(edited) != original
    ensures forall i :: 0 <= i < |tasks| && tasks[i].id == edited.id ==>
              Save(tasks, Some(edited), maxName, maxDescription, now)[i] == Saved(tasks[i], edited, now)
  {
  }
}
