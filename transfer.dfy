/** The transfer page: selecting tasks for export, importing a JSON file of
    tasks (validation, category upsert and the merge of tasks by id), and
    the guards of the link, QR-code and drag-and-drop imports. */
module Transfer {
  import opened Wrappers
  import opened UserTypes
  import Seqs
  import Text
  import TasksList

  // ---------------------------------------------------------------------
  // Validation
  // ---------------------------------------------------------------------

  /** The file handed to the import: its MIME type and size in bytes. */
  datatype ImportFile = ImportFile(mimeType: string, size: nat)

  /** What `JSON.parse` made of the file's text. */
  datatype Parsed = Unparsable | NotAnArray | TaskArray(tasks: seq<Task>)

  /** The reasons an import is refused, in the order they are checked. */
  datatype ImportError =
    | WrongFileType(mimeType: string)
    | ParseFailure
    | InvalidStructure
    | TooLong(names: seq<string>)
    | InvalidColors
    | FileTooLarge(size: nat)

  const MaxFileSize: nat := 6 * 1024 * 1024

  /** The length limits of task names, descriptions and category names. */
  datatype Limits = Limits(taskName: nat, description: nat, categoryName: nat)

  /** A task exceeding one of the length limits. */
  predicate ExceedsLimits(t: Task, limits: Limits) {
    |t.name| > limits.taskName ||
    (t.description.Some? && |t.description.value| > limits.description) ||
    (t.category.Some? && exists c :: c in t.category.value && |c.name| > limits.categoryName)
  }

  /** A task whose colour is set and not hexadecimal, or one of whose
      categories has a missing or non-hexadecimal colour. */
  predicate HasInvalidColor(t: Task, isHexColor: string -> bool) {
    (t.color != "" && !isHexColor(t.color)) ||
    (t.category.Some? && exists c :: c in t.category.value && (c.color == "" || !isHexColor(c.color)))
  }

  /** The imported tasks exceeding a length limit, in order. */
  function TooLongTasks(tasks: seq<Task>, limits: Limits): (r: seq<Task>)
    ensures forall t :: t in r <==> t in tasks && ExceedsLimits(t, limits)
  {
    Seqs.Filter(tasks, (t: Task) => ExceedsLimits(t, limits))
  }

  function TaskNames(tasks: seq<Task>): (r: seq<string>)
    ensures |r| == |tasks| && forall i :: 0 <= i < |tasks| ==> r[i] == tasks[i].name
  {
    seq(|tasks|, i requires 0 <= i < |tasks| => tasks[i].name)
  }

  /** The checks `handleImport` makes before it changes anything; on success
      the imported tasks. */
  function Validate(file: ImportFile, parsed: Parsed, limits: Limits,
                    isHexColor: string -> bool): (r: Result<seq<Task>, ImportError>)
    ensures r.Ok? <==>
              file.mimeType == "application/json" && parsed.TaskArray? &&
              (forall t :: t in parsed.tasks ==> !ExceedsLimits(t, limits)) &&
              (forall t :: t in parsed.tasks ==> !HasInvalidColor(t, isHexColor)) &&
              file.size <= MaxFileSize
    ensures r.Ok? ==> r.value == parsed.tasks
    ensures file.mimeType != "application/json" ==> r == Err(WrongFileType(file.mimeType))
    ensures r.Err? && r.error.TooLong? ==>
              (parsed.TaskArray? && r.error.names == TaskNames(TooLongTasks(parsed.tasks, limits)) &&
               |r.error.names| > 0)
  {
    if file.mimeType != "application/json" then Err(WrongFileType(file.mimeType))
    else match parsed
      case Unparsable => Err(ParseFailure)
      case NotAnArray => Err(InvalidStructure)
      case TaskArray(tasks) =>
        var invalid := TooLongTasks(tasks, limits);
        if |invalid| > 0 then
          assert invalid[0] in invalid;
          Err(TooLong(TaskNames(invalid)))
        else if exists t :: t in tasks && HasInvalidColor(t, isHexColor) then Err(InvalidColors)
        else if file.size > MaxFileSize then Err(FileTooLarge(file.size))
        else
          assert forall t :: t !in invalid;
          Ok(tasks)
  }

  // ---------------------------------------------------------------------
  // Category upsert
  // ---------------------------------------------------------------------

  /** `Object.assign(existing, imported)`: the imported category's fields
      win; an optional field absent from the imported one keeps the
      existing value. */
  function Assign(existing: Category, imported: Category): (r: Category)
    ensures r.id == imported.id && r.name == imported.name && r.color == imported.color
    ensures r.emoji == (if imported.emoji.Some? then imported.emoji else existing.emoji)
    ensures r.lastSave == (if imported.lastSave.Some? then imported.lastSave else existing.lastSave)
  {
    imported.(emoji := if imported.emoji.Some? then imported.emoji else existing.emoji,
              lastSave := if imported.lastSave.Some? then imported.lastSave else existing.lastSave)
  }

  /** One imported category: assigned onto the first category with its id,
      or appended when there is none. */
  function UpsertOne(cats: seq<Category>, c: Category): (r: seq<Category>)
    ensures CategoryIds(r) == if FindCategoryIndex(cats, c.id) == -1 then CategoryIds(cats) + [c.id] else CategoryIds(cats)
    ensures |r| >= |cats| && forall k :: 0 <= k < |cats| && cats[k].id != c.id ==> r[k] == cats[k]
    ensures (forall k :: 0 <= k < |cats| ==> cats[k].id != c.id) ==> r == cats + [c]
    ensures forall k :: 0 <= k < |cats| && cats[k].id == c.id && NoCategoryIdBefore(cats, c.id, k) ==>
              r == cats[k := Assign(cats[k], c)]
  {
    var k := FindCategoryIndex(cats, c.id);
    if k == -1 then
      var r := cats + [c];
      assert CategoryIds(r) == CategoryIds(cats) + [c.id];
      r
    else
      var r := cats[k := Assign(cats[k], c)];
      assert CategoryIds(r) == CategoryIds(cats);
      r
  }

  /** The imported categories, taken in encounter order. */
  function UpsertAll(cats: seq<Category>, imported: seq<Category>): (r: seq<Category>)
    ensures |r| >= |cats|
  {
    if |imported| == 0 then cats
    else UpsertOne(UpsertAll(cats, imported[..|imported| - 1]), imported[|imported| - 1])
  }

  /** One task's categories, upserted into `updated` one by one. */
  method UpsertTaskCategories(updated: seq<Category>, cats: seq<Category>) returns (r: seq<Category>)
    ensures r == UpsertAll(updated, cats)
  {
    r := updated;
    var k := 0;
    while k < |cats|
      invariant 0 <= k <= |cats|
      invariant r == UpsertAll(updated, cats[..k])
    {
      assert cats[..k + 1][..k] == cats[..k];
      var i := FindCategoryIndex(r, cats[k].id);
      if i == -1 {
        r := r + [cats[k]];
      } else {
        r := r[i := Assign(r[i], cats[k])];
      }
      k := k + 1;
    }
    assert cats[..k] == cats;
  }

  /** Upserting a concatenation is upserting its parts in turn. */
  lemma {:induction false} UpsertAllConcat(cats: seq<Category>, a: seq<Category>, b: seq<Category>)
    ensures UpsertAll(cats, a + b) == UpsertAll(UpsertAll(cats, a), b)
  {
    if |b| > 0 {
      var n := |b| - 1;
      assert (a + b)[..|a + b| - 1] == a + b[..n];
      UpsertAllConcat(cats, a, b[..n]);
    } else {
      assert a + b == a;
    }
  }

  /** The category upsert of `handleImport`: a copy of the user's categories
      receives, task by task, each imported category. */
  method UpsertCategories(existing: seq<Category>, imported: seq<Task>) returns (updated: seq<Category>)
    ensures updated == UpsertAll(existing, TasksList.AllCategories(imported))
  {
    updated := existing;
    var i := 0;
    while i < |imported|
      invariant 0 <= i <= |imported|
      invariant updated == UpsertAll(existing, TasksList.AllCategories(imported[..i]))
    {
      assert imported[..i + 1][..i] == imported[..i];
      var here := TasksList.CategoriesOf(imported[i]);
      assert TasksList.AllCategories(imported[..i + 1]) == TasksList.AllCategories(imported[..i]) + here;
      UpsertAllConcat(existing, TasksList.AllCategories(imported[..i]), here);
      if imported[i].category.Some? {
        updated := UpsertTaskCategories(updated, imported[i].category.value);
      }
      i := i + 1;
    }
    assert imported[..i] == imported;
  }

  /** Two sequences with the same ids agree on whether an id occurs. */
  lemma SameCategoryIds(u: seq<Category>, d: seq<Category>, id: Id)
    requires CategoryIds(u) == CategoryIds(d)
    ensures FindCategoryIndex(u, id) == -1 <==> !Seqs.HasKey(d, id, TasksList.CategoryKey)
  {
    assert |u| == |d|;
    assert forall j :: 0 <= j < |u| ==> u[j].id == CategoryIds(u)[j] == CategoryIds(d)[j] == d[j].id;
    if FindCategoryIndex(u, id) != -1 {
      var k := FindCategoryIndex(u, id);
      assert TasksList.CategoryKey(d[k]) == id;
    }
  }

  /** Ids kept in order of first appearance have no duplicates. */
  lemma IdsOfDedupUnique(cats: seq<Category>, d: seq<Category>)
    requires CategoryIds(cats) == CategoryIds(d)
    requires forall i, j :: 0 <= i < j < |d| ==> TasksList.CategoryKey(d[i]) != TasksList.CategoryKey(d[j])
    ensures UniqueCategoryIds(cats)
  {
    assert |cats| == |d|;
    assert forall j :: 0 <= j < |cats| ==> cats[j].id == CategoryIds(cats)[j] == CategoryIds(d)[j] == d[j].id;
  }

  /** One upsert step and one dedup step add the same id, if any. */
  lemma UpsertIdsStep(u: seq<Category>, d: seq<Category>, c: Category)
    requires CategoryIds(u) == CategoryIds(d)
    ensures CategoryIds(UpsertOne(u, c)) ==
            CategoryIds(if Seqs.HasKey(d, c.id, TasksList.CategoryKey) then d else d + [c])
  {
    SameCategoryIds(u, d, c.id);
    CategoryIdsSnoc(d, c);
  }

  /** After the upsert the category ids are those of the existing list
      followed by the new imported ids in order of first appearance, so
      existing ids keep their places and unique ids stay unique. */
  lemma {:induction false} UpsertIds(cats: seq<Category>, imported: seq<Category>)
    requires UniqueCategoryIds(cats)
    ensures CategoryIds(UpsertAll(cats, imported)) ==
            CategoryIds(Seqs.DedupBy(cats + imported, TasksList.CategoryKey))
    ensures UniqueCategoryIds(UpsertAll(cats, imported))
  {
    if |imported| == 0 {
      assert cats + imported == cats;
      Seqs.DedupByUnique(cats, TasksList.CategoryKey);
    } else {
      var n := |imported| - 1;
      assert imported == imported[..n] + [imported[n]];
      UpsertIds(cats, imported[..n]);
      UpsertIdsSnoc(cats, imported[..n], imported[n]);
    }
    IdsOfDedupUnique(UpsertAll(cats, imported), Seqs.DedupBy(cats + imported, TasksList.CategoryKey));
  }

  /** The id equation of `UpsertIds` carries over to one more imported
      category. */
  lemma UpsertIdsSnoc(cats: seq<Category>, p: seq<Category>, c: Category)
    requires CategoryIds(UpsertAll(cats, p)) == CategoryIds(Seqs.DedupBy(cats + p, TasksList.CategoryKey))
    ensures CategoryIds(UpsertAll(cats, p + [c])) ==
            CategoryIds(Seqs.DedupBy(cats + (p + [c]), TasksList.CategoryKey))
  {
    var u := UpsertAll(cats, p);
    var d := Seqs.DedupBy(cats + p, TasksList.CategoryKey);
    UpsertAllSnoc(cats, p, c);
    UpsertIdsStep(u, d, c);
    DedupSnoc(cats, p, c);
  }

  lemma UpsertAllSnoc(cats: seq<Category>, p: seq<Category>, c: Category)
    ensures UpsertAll(cats, p + [c]) == UpsertOne(UpsertAll(cats, p), c)
  {
    assert (p + [c])[..|p|] == p && (p + [c])[|p|] == c;
  }

  lemma DedupSnoc(cats: seq<Category>, p: seq<Category>, c: Category)
    ensures var d := Seqs.DedupBy(cats + p, TasksList.CategoryKey);
            Seqs.DedupBy(cats + (p + [c]), TasksList.CategoryKey) ==
            if Seqs.HasKey(d, c.id, TasksList.CategoryKey) then d else d + [c]
  {
    assert cats + (p + [c]) == (cats + p) + [c];
    Seqs.DedupBySnoc(cats + p, c, TasksList.CategoryKey);
  }

  /** An existing category whose id is not imported is left as it was. */
  lemma {:induction false} UpsertKeepsOthers(cats: seq<Category>, imported: seq<Category>, k: nat)
    requires k < |cats|
    requires forall c :: c in imported ==> c.id != cats[k].id
    ensures UpsertAll(cats, imported)[k] == cats[k]
  {
    if |imported| > 0 {
      var n := |imported| - 1;
      assert forall c :: c in imported[..n] ==> c in imported;
      UpsertKeepsOthers(cats, imported[..n], k);
      assert imported[n] in imported;
    }
  }

  // ---------------------------------------------------------------------
  // Task merge
  // ---------------------------------------------------------------------

  /** One step of the merge's `reduce`: a task whose id is already there
      replaces it, otherwise it is appended. */
  function MergeStep(acc: seq<Task>, task: Task): (r: seq<Task>)
    ensures forall t :: t in r <==> t == task || (t in acc && t.id != task.id)
    ensures TaskIds(r) == if FindTaskIndex(acc, task.id) == -1 then TaskIds(acc) + [task.id] else TaskIds(acc)
    ensures UniqueTaskIds(acc) ==> UniqueTaskIds(r)
  {
    var k := FindTaskIndex(acc, task.id);
    if k != -1 then
      var r := seq(|acc|, i requires 0 <= i < |acc| => if acc[i].id == task.id then task else acc[i]);
      assert r[k] == task;
      assert TaskIds(r) == TaskIds(acc);
      assert UniqueTaskIds(acc) ==> UniqueTaskIds(r) by {
        if UniqueTaskIds(acc) {
          forall i, j | 0 <= i < j < |r| ensures r[i].id != r[j].id {
            assert r[i].id == acc[i].id && r[j].id == acc[j].id;
          }
        }
      }
      r
    else
      var r := acc + [task];
      assert TaskIds(r) == TaskIds(acc) + [task.id];
      r
  }

  /** `[...existing, ...imported].reduce(...)`. */
  function Merge(s: seq<Task>): (r: seq<Task>)
    ensures UniqueTaskIds(r)
  {
    if |s| == 0 then [] else MergeStep(Merge(s[..|s| - 1]), s[|s| - 1])
  }

  function TaskKey(t: Task): Id {
    t.id
  }

  /** Two sequences with the same ids agree on whether an id occurs. */
  lemma SameTaskIds(m: seq<Task>, d: seq<Task>, id: Id)
    requires TaskIds(m) == TaskIds(d)
    ensures FindTaskIndex(m, id) == -1 <==> !Seqs.HasKey(d, id, TaskKey)
  {
    assert |m| == |d|;
    assert forall j :: 0 <= j < |m| ==> m[j].id == TaskIds(m)[j] == TaskIds(d)[j] == d[j].id;
    if FindTaskIndex(m, id) != -1 {
      var k := FindTaskIndex(m, id);
      assert TaskKey(d[k]) == id;
    }
  }

  lemma MergeIdsStep(p: seq<Task>, x: Task)
    requires TaskIds(Merge(p)) == TaskIds(Seqs.DedupBy(p, TaskKey))
    ensures TaskIds(Merge(p + [x])) == TaskIds(Seqs.DedupBy(p + [x], TaskKey))
  {
    var m := Merge(p);
    var d := Seqs.DedupBy(p, TaskKey);
    assert (p + [x])[..|p|] == p;
    assert Merge(p + [x]) == MergeStep(m, x);
    Seqs.DedupBySnoc(p, x, TaskKey);
    SameTaskIds(m, d, x.id);
    TaskIdsSnoc(d, x);
  }

  /** The merge keeps every id once, in the order of first occurrence. */
  lemma {:induction false} MergeIds(s: seq<Task>)
    ensures TaskIds(Merge(s)) == TaskIds(Seqs.DedupBy(s, TaskKey))
  {
    if |s| > 0 {
      var n := |s| - 1;
      assert s == s[..n] + [s[n]];
      MergeIds(s[..n]);
      MergeIdsStep(s[..n], s[n]);
    }
  }

  /** `t` is an element of `s` after which no element has its id. */
  predicate LastOccurrence(s: seq<Task>, t: Task) {
    exists i :: 0 <= i < |s| && s[i] == t && forall j :: i < j < |s| ==> s[j].id != t.id
  }

  /** The last occurrences in `p + [x]`: `x`, and those of `p` with another
      id. */
  lemma LastOccurrenceSnoc(p: seq<Task>, x: Task, t: Task)
    ensures LastOccurrence(p + [x], t) <==> t == x || (LastOccurrence(p, t) && t.id != x.id)
  {
    var s := p + [x];
    var n := |p|;
    assert forall j :: 0 <= j < n ==> s[j] == p[j];
    if t == x {
      assert s[n] == t;
    } else if LastOccurrence(p, t) && t.id != x.id {
      var i :| 0 <= i < |p| && p[i] == t && forall j :: i < j < |p| ==> p[j].id != t.id;
      assert s[i] == t;
    }
    if LastOccurrence(s, t) && t != x {
      var i :| 0 <= i < |s| && s[i] == t && forall j :: i < j < |s| ==> s[j].id != t.id;
      assert i != n;
      assert s[n] == x;
      assert p[i] == t;
    }
  }

  /** The merge holds, for each id, its last occurrence and nothing else. */
  lemma {:induction false} MergeLastWins(s: seq<Task>)
    ensures forall t :: t in Merge(s) <==> LastOccurrence(s, t)
  {
    if |s| > 0 {
      var n := |s| - 1;
      var p := s[..n];
      var x := s[n];
      assert s == p + [x];
      MergeLastWins(p);
      forall t ensures t in Merge(s) <==> LastOccurrence(s, t) {
        LastOccurrenceSnoc(p, x, t);
      }
    }
  }

  /** Imported tasks with distinct ids all end up in the merge, replacing
      the existing versions. */
  lemma MergeKeepsImported(existing: seq<Task>, imported: seq<Task>)
    requires UniqueTaskIds(imported)
    ensures forall t :: t in imported ==> t in Merge(existing + imported)
  {
    var s := existing + imported;
    MergeLastWins(s);
    forall t | t in imported ensures LastOccurrence(s, t) {
      var m :| 0 <= m < |imported| && imported[m] == t;
      var i := |existing| + m;
      assert s[i] == t;
      assert forall j :: i < j < |s| ==> s[j] == imported[j - |existing|];
    }
  }

  /** An existing task whose id is not imported stays. */
  lemma MergeKeepsExisting(existing: seq<Task>, imported: seq<Task>)
    requires UniqueTaskIds(existing)
    ensures forall t :: t in existing && (forall u :: u in imported ==> u.id != t.id) ==>
              t in Merge(existing + imported)
  {
    var s := existing + imported;
    MergeLastWins(s);
    forall t | t in existing && (forall u :: u in imported ==> u.id != t.id) ensures LastOccurrence(s, t) {
      var m :| 0 <= m < |existing| && existing[m] == t;
      assert s[m] == t;
      forall j | m < j < |s| ensures s[j].id != t.id {
        if j < |existing| {
          assert s[j] == existing[j];
        } else {
          assert s[j] == imported[j - |existing|] && s[j] in imported;
        }
      }
    }
  }

  /** The merge takes its tasks from the existing and the imported ones. */
  lemma MergeFromInputs(existing: seq<Task>, imported: seq<Task>)
    ensures forall t :: t in Merge(existing + imported) ==> t in existing || t in imported
  {
    var s := existing + imported;
    MergeLastWins(s);
    forall t | t in Merge(s) ensures t in s {
      var i :| 0 <= i < |s| && s[i] == t && forall j :: i < j < |s| ==> s[j].id != t.id;
    }
  }

  // ---------------------------------------------------------------------
  // The import
  // ---------------------------------------------------------------------

  /** What a successful import does to the user: the categories upserted,
      the tasks merged by id; nothing else changes. */
  function ImportInto(user: User, imported: seq<Task>): (u: User)
    ensures u == user.(categories := u.categories, tasks := u.tasks)
    ensures UniqueTaskIds(u.tasks)
    ensures UniqueCategoryIds(user.categories) ==> UniqueCategoryIds(u.categories)
  {
    var cats := UpsertAll(user.categories, TasksList.AllCategories(imported));
    if UniqueCategoryIds(user.categories) then
      UpsertIds(user.categories, TasksList.AllCategories(imported));
      user.(categories := cats, tasks := Merge(user.tasks + imported))
    else user.(categories := cats, tasks := Merge(user.tasks + imported))
  }

  /** `handleImport`: a refused file changes nothing; an accepted one is
      imported into the user. */
  method HandleImport(user: User, file: ImportFile, parsed: Parsed, limits: Limits,
                      isHexColor: string -> bool) returns (r: Result<User, ImportError>)
    ensures r.Err? <==> Validate(file, parsed, limits, isHexColor).Err?
    ensures r.Err? ==> r.error == Validate(file, parsed, limits, isHexColor).error
    ensures r.Ok? ==> r.value == ImportInto(user, parsed.tasks)
  {
    var v := Validate(file, parsed, limits, isHexColor);
    if v.Err? {
      return Err(v.error);
    }
    var imported := v.value;
    var cats := UpsertCategories(user.categories, imported);
    var merged := Merge(user.tasks + imported);
    var u := user.(categories := cats);
    u := u.(tasks := merged);
    return Ok(u);
  }

  // ---------------------------------------------------------------------
  // Link, QR code and drop
  // ---------------------------------------------------------------------

  /** The link and QR-code imports follow the text only when it starts with
      this site's `protocol//hostname`; the result is the address followed. */
  function ImportFromLink(text: string, protocol: string, hostname: string): (r: Option<string>)
    ensures r.Some? <==> Text.StartsWith(text, protocol + "//" + hostname)
    ensures r.Some? ==> r.value == text && r.value[..|protocol + "//" + hostname|] == protocol + "//" + hostname
  {
    if Text.StartsWith(text, protocol + "//" + hostname) then Some(text) else None
  }

  /** What a drop leads to: a rejected file or the import of it. */
  datatype DropOutcome = UnknownFileType | Imported(result: Result<User, ImportError>)

  /** `handleDrop`: a file of size 0 or without a type is rejected before the
      import is tried. */
  function HandleDrop(user: User, file: ImportFile, parsed: Parsed, limits: Limits,
                      isHexColor: string -> bool): (r: DropOutcome)
    ensures r.UnknownFileType? <==> file.size == 0 || file.mimeType == ""
    ensures r.Imported? ==> (r.result.Err? <==> Validate(file, parsed, limits, isHexColor).Err?)
    ensures r.Imported? && r.result.Err? ==> r.result.error == Validate(file, parsed, limits, isHexColor).error
    ensures r.Imported? && r.result.Ok? ==> r.result.value == ImportInto(user, parsed.tasks)
  {
    if file.size == 0 || file.mimeType == "" then UnknownFileType
    else
      var v := Validate(file, parsed, limits, isHexColor);
      if v.Err? then Imported(Err(v.error)) else Imported(Ok(ImportInto(user, v.value)))
  }
}
