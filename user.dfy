/** The replica record the pages work on: a user with live tasks and
    categories, favourite category ids, tombstones of deleted ids and the
    settings that drive the views. Optional (`undefined`) fields are
    `Option`s; timestamps are integers. */
module UserTypes {
  import opened Wrappers
  import Seqs

  type Id = string

  datatype Category = Category(
    id: Id,
    name: string,
    emoji: Option<string>,
    color: string,
    lastSave: Option<int>)

  datatype Task = Task(
    id: Id,
    done: bool,
    pinned: bool,
    name: string,
    description: Option<string>,
    emoji: Option<string>,
    color: string,
    date: int,
    deadline: Option<int>,
    category: Option<seq<Category>>,
    lastSave: Option<int>,
    sharedBy: Option<string>,
    position: Option<int>)

  /** The four orderings of the task list, plus any other stored value, which
      the list leaves in storage order. */
  datatype SortOption = DateCreated | DueDate | Alphabetical | Custom | Other(name: string)

  datatype Settings = Settings(
    sortOption: SortOption,
    doneToBottom: bool,
    enableCategories: bool,
    showProgressBar: bool,
    enableReadAloud: bool,
    voice: string,
    voiceVolume: real)

  datatype User = User(
    name: Option<string>,
    tasks: seq<Task>,
    categories: seq<Category>,
    favoriteCategories: seq<Id>,
    deletedTasks: seq<Id>,
    deletedCategories: seq<Id>,
    settings: Settings)

  /** A falsy id (`!id`): missing or the empty string. */
  predicate Falsy(id: Option<Id>) {
    id.None? || id.value == ""
  }

  /** `task.category?.some(c => c.id === id) ?? false`. */
  predicate HasCategory(t: Task, id: Id) {
    t.category.Some? && exists c :: c in t.category.value && c.id == id
  }

  /** The ids of `tasks`, in order (`tasks.map(t => t.id)`). */
  function TaskIds(tasks: seq<Task>): (ids: seq<Id>)
    ensures |ids| == |tasks|
    ensures forall i :: 0 <= i < |tasks| ==> ids[i] == tasks[i].id
  {
    if |tasks| == 0 then [] else [tasks[0].id] + TaskIds(tasks[1..])
  }

  /** The ids of `categories`, in order. */
  function CategoryIds(cats: seq<Category>): (ids: seq<Id>)
    ensures |ids| == |cats|
    ensures forall i :: 0 <= i < |cats| ==> ids[i] == cats[i].id
  {
    if |cats| == 0 then [] else [cats[0].id] + CategoryIds(cats[1..])
  }

  lemma TaskIdsSnoc(tasks: seq<Task>, t: Task)
    ensures TaskIds(tasks + [t]) == TaskIds(tasks) + [t.id]
  {
    assert TaskIds(tasks + [t]) == TaskIds(tasks) + [t.id];
  }

  lemma CategoryIdsSnoc(cats: seq<Category>, c: Category)
    ensures CategoryIds(cats + [c]) == CategoryIds(cats) + [c.id]
  {
    assert CategoryIds(cats + [c]) == CategoryIds(cats) + [c.id];
  }

  /** No two tasks share an id. */
  predicate UniqueTaskIds(tasks: seq<Task>) {
    forall i, j :: 0 <= i < j < |tasks| ==> tasks[i].id != tasks[j].id
  }

  /** No two categories share an id. */
  predicate UniqueCategoryIds(cats: seq<Category>) {
    forall i, j :: 0 <= i < j < |cats| ==> cats[i].id != cats[j].id
  }

  function TaskId(t: Task): Id { t.id }

  function CategoryId(c: Category): Id { c.id }

  /** `tasks.findIndex(t => t.id === id)`. */
  function FindTaskIndex(tasks: seq<Task>, id: Id): (r: int)
    ensures -1 <= r < |tasks|
    ensures r >= 0 ==> tasks[r].id == id && forall k :: 0 <= k < r ==> tasks[k].id != id
    ensures r == -1 ==> forall k :: 0 <= k < |tasks| ==> tasks[k].id != id
  {
    Seqs.FirstIndex(tasks, TaskId, id)
  }

  /** `categories.findIndex(c => c.id === id)`. */
  function FindCategoryIndex(cats: seq<Category>, id: Id): (r: int)
    ensures -1 <= r < |cats|
    ensures r >= 0 ==> cats[r].id == id && forall k :: 0 <= k < r ==> cats[k].id != id
    ensures r == -1 ==> forall k :: 0 <= k < |cats| ==> cats[k].id != id
  {
    Seqs.FirstIndex(cats, CategoryId, id)
  }

  /** The error under a text input limited to `max` characters: empty while
      the text fits, and the input's message once it is longer. */
  function LengthError(text: string, max: nat, message: string): (e: string)
    requires message != ""
    ensures e != "" <==> |text| > max
    ensures e != "" ==> e == message
  {
    if |text| > max then message else ""
  }

  /** No category before position `k` has the id `id`. */
  predicate NoCategoryIdBefore(cats: seq<Category>, id: Id, k: int) {
    forall j :: 0 <= j < k && j < |cats| ==> cats[j].id != id
  }

  /** No task before position `k` has the id `id`. */
  predicate NoTaskIdBefore(tasks: seq<Task>, id: Id, k: int) {
    forall j :: 0 <= j < k && j < |tasks| ==> tasks[j].id != id
  }

  /** `tasks.find(t => t.id === id)`: the first task with the id. */
  function FindTask(tasks: seq<Task>, id: Id): (r: Option<Task>)
    ensures r.Some? <==> exists k :: 0 <= k < |tasks| && tasks[k].id == id
    ensures r.Some? ==> r.value in tasks && r.value.id == id
    ensures r.Some? ==> exists k :: 0 <= k < |tasks| && tasks[k] == r.value && NoTaskIdBefore(tasks, id, k)
  {
    var k := FindTaskIndex(tasks, id);
    if k == -1 then None else Some(tasks[k])
  }
}
