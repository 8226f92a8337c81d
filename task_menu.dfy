/** The per-task menu: marking done, pinning, duplicating, the path of the
    details page, entering move mode and the text read aloud. */
module TaskMenu {
  import opened Wrappers
  import opened UserTypes
  import Text
  import Seqs
  import TasksList

  /** What `{} as Task` stands for: every field unset. */
  const BlankTask: Task := Task("", false, false, "", None, None, "", 0, None, None, None, None, None)

  /** `tasks.find(t => t.id === selectedTaskId) || {}`. */
  function SelectedTask(tasks: seq<Task>, selectedTaskId: Option<Id>): (t: Task)
    ensures selectedTaskId.Some? && FindTask(tasks, selectedTaskId.value).Some? ==>
              t in tasks && t.id == selectedTaskId.value &&
              exists k :: 0 <= k < |tasks| && tasks[k] == t && NoTaskIdBefore(tasks, selectedTaskId.value, k)
    ensures (selectedTaskId.None? || FindTask(tasks, selectedTaskId.value).None?) ==> t == BlankTask
  {
    if selectedTaskId.None? then BlankTask
    else match FindTask(tasks, selectedTaskId.value)
      case Some(t) => t
      case None => BlankTask
  }

  // ---------------------------------------------------------------------
  // Done and pinned
  // ---------------------------------------------------------------------

  /** `handleMarkAsDone`: the selected task's `done` is flipped and it gets a
      fresh `lastSave`; with no selection nothing changes. */
  function MarkAsDone(tasks: seq<Task>, selectedTaskId: Option<Id>, now: int): (r: seq<Task>)
    ensures Falsy(selectedTaskId) ==> r == tasks
  {
    if Falsy(selectedTaskId) then tasks
    else
      seq(|tasks|, i requires 0 <= i < |tasks| =>
        if tasks[i].id == selectedTaskId.value then tasks[i].(done := !tasks[i].done, lastSave := Some(now))
        else tasks[i])
  }

  /** Exactly the tasks with the selected id change, and only in `done` and
      `lastSave`. */
  lemma MarkAsDoneEffect(tasks: seq<Task>, id: Id, now: int)
    requires id != ""
    ensures var r := MarkAsDone(tasks, Some(id), now);
            |r| == |tasks| && TaskIds(r) == TaskIds(tasks) &&
            forall i :: 0 <= i < |r| ==>
              if tasks[i].id == id then
                r[i].done == !tasks[i].done && r[i].lastSave == Some(now) &&
                r[i].(done := tasks[i].done, lastSave := tasks[i].lastSave) == tasks[i]
              else r[i] == tasks[i]
  {
    var r := MarkAsDone(tasks, Some(id), now);
    assert TaskIds(r) == TaskIds(tasks);
  }

  /** Marking twice restores every task but for its `lastSave`. */
  lemma MarkAsDoneTwice(tasks: seq<Task>, selectedTaskId: Option<Id>, now: int, later: int)
    ensures var r := MarkAsDone(MarkAsDone(tasks, selectedTaskId, now), selectedTaskId, later);
            |r| == |tasks| && forall i :: 0 <= i < |r| ==> r[i].(lastSave := tasks[i].lastSave) == tasks[i]
  {
  }

  /** The "all done" notice after marking: shown iff something was marked
      and every task of the updated list is done. */
  function AllDoneNotice(tasks: seq<Task>, selectedTaskId: Option<Id>, now: int): (b: bool)
    ensures b <==> !Falsy(selectedTaskId) && forall t :: t in MarkAsDone(tasks, selectedTaskId, now) ==> t.done
  {
    var r := MarkAsDone(tasks, selectedTaskId, now);
    !Falsy(selectedTaskId) && forall i | 0 <= i < |r| :: r[i].done
  }

  /** `handlePin`: the selected task's `pinned` is flipped and it gets a fresh
      `lastSave`; with no selection nothing changes. */
  function Pin(tasks: seq<Task>, selectedTaskId: Option<Id>, now: int): (r: seq<Task>)
    ensures Falsy(selectedTaskId) ==> r == tasks
  {
    if Falsy(selectedTaskId) then tasks
    else
      seq(|tasks|, i requires 0 <= i < |tasks| =>
        if tasks[i].id == selectedTaskId.value then tasks[i].(pinned := !tasks[i].pinned, lastSave := Some(now))
        else tasks[i])
  }

  /** Exactly the tasks with the selected id change, and only in `pinned`
      and `lastSave`. */
  lemma PinEffect(tasks: seq<Task>, id: Id, now: int)
    requires id != ""
    ensures var r := Pin(tasks, Some(id), now);
            |r| == |tasks| && TaskIds(r) == TaskIds(tasks) &&
            forall i :: 0 <= i < |r| ==>
              if tasks[i].id == id then
                r[i].pinned == !tasks[i].pinned && r[i].lastSave == Some(now) &&
                r[i].(pinned := tasks[i].pinned, lastSave := tasks[i].lastSave) == tasks[i]
              else r[i] == tasks[i]
  {
    var r := Pin(tasks, Some(id), now);
    assert TaskIds(r) == TaskIds(tasks);
  }

  /** Pinning twice restores `pinned`. */
  lemma PinTwice(tasks: seq<Task>, selectedTaskId: Option<Id>, now: int, later: int)
    ensures var r := Pin(Pin(tasks, selectedTaskId, now), selectedTaskId, later);
            |r| == |tasks| && forall i :: 0 <= i < |r| ==> r[i].pinned == tasks[i].pinned
  {
  }

  // ---------------------------------------------------------------------
  // Duplicate
  // ---------------------------------------------------------------------

  /** `handleDuplicateTask`: a copy of the selected task with a fresh id, the
      current date and no `lastSave` is appended; with a selected id that no
      task has, the copy is of the blank task. */
  function Duplicate(tasks: seq<Task>, selectedTaskId: Option<Id>, newId: Id, now: int): (r: seq<Task>)
    ensures Falsy(selectedTaskId) ==> r == tasks
    ensures !Falsy(selectedTaskId) ==> |r| == |tasks| + 1 && r[..|tasks|] == tasks
  {
    if Falsy(selectedTaskId) then tasks
    else
      var copy := SelectedTask(tasks, selectedTaskId).(id := newId, date := now, lastSave := None);
      assert (tasks + [copy])[..|tasks|] == tasks;
      tasks + [copy]
  }

  /** The copy equals the original but for its id, date and `lastSave`; a
      fresh id keeps the ids unique. */
  lemma DuplicateCopy(tasks: seq<Task>, id: Id, newId: Id, now: int)
    requires id != ""
    ensures var r := Duplicate(tasks, Some(id), newId, now);
            var orig := SelectedTask(tasks, Some(id));
            var copy := r[|tasks|];
            copy.id == newId && copy.date == now && copy.lastSave.None? &&
            copy.(id := orig.id, date := orig.date, lastSave := orig.lastSave) == orig
    ensures UniqueTaskIds(tasks) && newId !in TaskIds(tasks) ==>
              UniqueTaskIds(Duplicate(tasks, Some(id), newId, now))
  {
    var r := Duplicate(tasks, Some(id), newId, now);
    if UniqueTaskIds(tasks) && newId !in TaskIds(tasks) {
      forall i, j | 0 <= i < j < |r| ensures r[i].id != r[j].id {
        if j == |tasks| {
          assert TaskIds(tasks)[i] == r[i].id;
        }
      }
    }
  }

  // ---------------------------------------------------------------------
  // Details path, move mode, read aloud
  // ---------------------------------------------------------------------

  /** `redirectToTaskDetails`: `/task/` and the selected task's id with its
      first `.` removed. With no selection, or a selected id no task has, the
      menu works on `{}`, whose missing id makes `id.toString()` throw; that
      error is `None`. */
  function DetailsPath(tasks: seq<Task>, selectedTaskId: Option<Id>): (p: Option<string>)
    ensures p.None? <==> selectedTaskId.None? || FindTask(tasks, selectedTaskId.value).None?
    ensures p.Some? ==> Text.StartsWith(p.value, "/task/")
    ensures p.Some? && '.' !in selectedTaskId.value ==> p.value == "/task/" + selectedTaskId.value
    ensures p.Some? && '.' in selectedTaskId.value ==>
              var id := selectedTaskId.value;
              var k := Text.IndexOf(id, '.');
              p.value == "/task/" + id[..k] + id[k + 1..]
  {
    if selectedTaskId.None? then None
    else
      var id := selectedTaskId.value;
      var found := FindTask(tasks, id);
      if found.None? then None
      else
        assert found.value.id == id;
        TaskPathFacts(id);
        Some(TaskPath(found.value.id))
  }

  /** `/task/` and the id with its first `.` removed. */
  function TaskPath(id: Id): string {
    "/task/" + Text.RemoveFirst(id, '.')
  }

  lemma TaskPathFacts(id: Id)
    ensures Text.StartsWith(TaskPath(id), "/task/")
    ensures '.' !in id ==> TaskPath(id) == "/task/" + id
    ensures '.' in id ==> TaskPath(id) == "/task/" + id[..Text.IndexOf(id, '.')] + id[Text.IndexOf(id, '.') + 1..]
  {
    var rest := Text.RemoveFirst(id, '.');
    assert TaskPath(id)[..|"/task/"|] == "/task/";
    if '.' in id {
      var k := Text.IndexOf(id, '.');
      assert rest == id[..k] + id[k + 1..];
      assert "/task/" + (id[..k] + id[k + 1..]) == "/task/" + id[..k] + id[k + 1..];
    }
  }

  /** The details path names the task: two found tasks whose ids have no
      `.` get the same path only when they have the same id. */
  lemma DetailsPathIdentifies(tasks: seq<Task>, a: Id, b: Id)
    requires '.' !in a && '.' !in b
    requires DetailsPath(tasks, Some(a)).Some? && DetailsPath(tasks, Some(a)) == DetailsPath(tasks, Some(b))
    ensures a == b
  {
    var pa := DetailsPath(tasks, Some(a)).value;
    assert pa == "/task/" + a && pa == "/task/" + b;
    assert a == pa[6..] && b == pa[6..];
  }

  /** What the list shows besides the record: whether move mode is on, and
      the search text. */
  datatype ListView = ListView(moveMode: bool, search: string)

  /** The "Mover" item: move mode goes on, the search is cleared, and the
      sort switches to the custom order; every other setting and the rest of
      the user stay as they were. */
  function EnterMoveMode(user: User, view: ListView): (r: (User, ListView))
    ensures r.1.moveMode && r.1.search == ""
    ensures r.0.settings.sortOption == Custom
    ensures r.0.settings == user.settings.(sortOption := Custom)
    ensures r.0 == user.(settings := r.0.settings)
  {
    (user.(settings := user.settings.(sortOption := Custom)), ListView(true, ""))
  }

  /** The notice about the changed sort is shown iff the sort was not
      already the custom one; entering twice is entering once. */
  lemma EnterMoveModeIdempotent(user: User, view: ListView)
    ensures var r := EnterMoveMode(user, view);
            EnterMoveMode(r.0, r.1) == r
    ensures user.settings.sortOption == Custom <==> EnterMoveMode(user, view).0 == user
  {
  }

  /** With the search cleared, the search filter lets every task through:
      entering move mode shows the whole of a block that no category narrows. */
  lemma EnterMoveModeShowsAll(user: User, view: ListView, tasks: seq<Task>)
    ensures TasksList.Narrow(tasks, None, EnterMoveMode(user, view).1.search) == tasks
  {
    var search := EnterMoveMode(user, view).1.search;
    Seqs.FilterAll(tasks, (t: Task) => TasksList.MatchesSearch(t, search));
  }

  /** The text read aloud: the name and the description (links already
      stripped by `stripLinks`) each followed by `. ` when present, then the
      date as formatted for the voice, then the deadline when the task has
      one; it is spoken only when the volume is above zero. */
  function ReadAloudText(task: Task, stripLinks: string -> string, formattedDate: string,
                         deadlineText: string, volume: real): (r: Option<string>)
    ensures r.Some? <==> volume > 0.0
    ensures r.Some? && task.name != "" ==> Text.StartsWith(r.value, task.name + ". ")
    ensures r.Some? && task.name == "" && (task.description.None? || task.description.value == "") ==>
              Text.StartsWith(r.value, "Fecha: " + formattedDate)
    ensures r.Some? && task.deadline.None? ==>
              var tail := "Fecha: " + formattedDate;
              |tail| <= |r.value| && r.value[|r.value| - |tail|..] == tail
  {
    if volume <= 0.0 then None
    else
      var name := if task.name != "" then task.name + ". " else "";
      var description := if task.description.Some? && task.description.value != ""
                         then stripLinks(task.description.value) + ". " else "";
      var deadline := if task.deadline.Some? then ". Fecha límite: " + deadlineText else "";
      var text := name + description + "Fecha: " + formattedDate + deadline;
      assert task.name != "" ==> text[..|task.name + ". "|] == task.name + ". ";
      Some(text)
  }
}
