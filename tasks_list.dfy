/** The task list page: the derived, ordered view of the user's tasks, the
    categories shown above it with their counts, and the list's delete,
    mark-done and drag-to-reorder operations. */
module TasksList {
  import opened Wrappers
  import opened UserTypes
  import Seqs
  import Sorting
  import Text

  // ---------------------------------------------------------------------
  // Filtering
  // ---------------------------------------------------------------------

  /** The search box filter: the lower-cased search occurs in the lower-cased
      name, or in the lower-cased description when there is a non-empty one. */
  predicate MatchesSearch(t: Task, search: string)
    ensures search == "" ==> MatchesSearch(t, search)
  {
    assert search == "" ==> Text.OccursAt(Text.Lower(t.name), Text.Lower(search), 0);
    var q := Text.Lower(search);
    Text.Contains(Text.Lower(t.name), q) ||
    (t.description.Some? && t.description.value != "" &&
     Text.Contains(Text.Lower(t.description.value), q))
  }

  /** A task survives both filters: it has the selected category (if one is
      selected) and matches the search. */
  predicate Shown(t: Task, cat: Option<Id>, search: string) {
    (cat.None? || HasCategory(t, cat.value)) && MatchesSearch(t, search)
  }

  /** The category filter, when a category is selected, then the search
      filter, applied to one block of the list. */
  function Narrow(s: seq<Task>, cat: Option<Id>, search: string): (r: seq<Task>)
    ensures forall t :: t in r <==> t in s && Shown(t, cat, search)
  {
    var c := if cat.Some? then Seqs.Filter(s, (t: Task) => HasCategory(t, cat.value)) else s;
    Seqs.Filter(c, (t: Task) => MatchesSearch(t, search))
  }

  /** Narrowing is filtering by `Shown`. */
  lemma NarrowIsShown(s: seq<Task>, cat: Option<Id>, search: string)
    ensures Narrow(s, cat, search) == Seqs.Filter(s, (t: Task) => Shown(t, cat, search))
  {
    if cat.Some? {
      Seqs.FilterFilter(s, (t: Task) => HasCategory(t, cat.value), (t: Task) => MatchesSearch(t, search),
                        (t: Task) => Shown(t, cat, search));
    } else {
      Seqs.FilterExt(s, (t: Task) => MatchesSearch(t, search), (t: Task) => Shown(t, cat, search));
    }
  }

  // ---------------------------------------------------------------------
  // Comparators
  // ---------------------------------------------------------------------

  /** "dateCreated": older tasks first. */
  predicate DateLeq(a: Task, b: Task) {
    a.date <= b.date
  }

  /** The "dueDate" comparator as written in the list: a task without a
      deadline compares greater than anything, itself included. */
  function DueDateCmpAsWritten(a: Task, b: Task): int {
    if a.deadline.None? then 1
    else if b.deadline.None? then -1
    else a.deadline.value - b.deadline.value
  }

  predicate DueDateLeqAsWritten(a: Task, b: Task) {
    DueDateCmpAsWritten(a, b) <= 0
  }

  /** The "dueDate" comparator corrected so that two tasks without a deadline
      compare equal: tasks with a deadline first, by deadline, then the rest. */
  function DueDateCmp(a: Task, b: Task): (c: int)
    ensures a.deadline.Some? || b.deadline.Some? ==> c == DueDateCmpAsWritten(a, b)
  {
    if a.deadline.None? && b.deadline.None? then 0 else DueDateCmpAsWritten(a, b)
  }

  predicate DueDateLeq(a: Task, b: Task) {
    DueDateCmp(a, b) <= 0
  }

  /** The "custom" comparator: positioned tasks first, by position; the
      unpositioned ones after them, by creation date. */
  function CustomCmp(a: Task, b: Task): int {
    if a.position.Some? && b.position.Some? then a.position.value - b.position.value
    else if a.position.None? && b.position.Some? then 1
    else if a.position.Some? && b.position.None? then -1
    else a.date - b.date
  }

  predicate CustomLeq(a: Task, b: Task) {
    CustomCmp(a, b) <= 0
  }

  /** The comparator a sort option selects; `nameLeq` stands for
      `localeCompare` on names. */
  function ModeLeq(mode: SortOption, nameLeq: (string, string) -> bool): (Task, Task) -> bool {
    match mode
    case DateCreated => DateLeq
    case DueDate => DueDateLeq
    case Alphabetical => (a: Task, b: Task) => nameLeq(a.name, b.name)
    case Custom => CustomLeq
    case Other(_) => (a: Task, b: Task) => true
  }

  /** One block sorted by the option; an unknown option keeps storage order. */
  function SortTasks(s: seq<Task>, mode: SortOption, nameLeq: (string, string) -> bool): (r: seq<Task>)
    ensures |r| == |s|
  {
    if mode.Other? then s else Sorting.Sort(s, ModeLeq(mode, nameLeq))
  }

  lemma SortTasksPermutation(s: seq<Task>, mode: SortOption, nameLeq: (string, string) -> bool)
    ensures multiset(SortTasks(s, mode, nameLeq)) == multiset(s)
    ensures forall t :: t in SortTasks(s, mode, nameLeq) <==> t in s
  {
    if !mode.Other? {
      Sorting.SortPermutation(s, ModeLeq(mode, nameLeq));
      Sorting.SortMembers(s, ModeLeq(mode, nameLeq));
    }
  }

  /** The as-written "dueDate" comparator is not a consistent comparator:
      a task without a deadline is neither before nor after itself. */
  lemma DueDateAsWrittenInconsistent()
    ensures !Sorting.TotalPreorder(DueDateLeqAsWritten)
  {
    var t := Task("", false, false, "", None, None, "", 0, None, None, None, None, None);
    assert !DueDateLeqAsWritten(t, t);
  }

  /** Every selectable comparator is a consistent one, given a consistent
      name order. */
  lemma ModeLeqTotal(mode: SortOption, nameLeq: (string, string) -> bool)
    requires !mode.Other?
    requires Sorting.TotalPreorder(nameLeq)
    ensures Sorting.TotalPreorder(ModeLeq(mode, nameLeq))
  {
    var leq := ModeLeq(mode, nameLeq);
    forall a: Task, b: Task, c: Task | leq(a, b) && leq(b, c) ensures leq(a, c) {
      if mode.Alphabetical? {
        assert nameLeq(a.name, b.name) && nameLeq(b.name, c.name);
      }
    }
    forall a: Task, b: Task ensures leq(a, b) || leq(b, a) {
      if mode.Alphabetical? {
        assert nameLeq(a.name, b.name) || nameLeq(b.name, a.name);
      }
    }
  }

  /** What a list sorted by the corrected "dueDate" comparator looks like:
      tasks with a deadline come first, in non-decreasing deadline order. */
  lemma DueDateOrder(s: seq<Task>)
    requires Sorting.SortedBy(s, DueDateLeq)
    ensures forall i, j :: 0 <= i < j < |s| && s[j].deadline.Some? ==>
              s[i].deadline.Some? && s[i].deadline.value <= s[j].deadline.value
  {
    forall i, j | 0 <= i < j < |s| && s[j].deadline.Some?
      ensures s[i].deadline.Some? && s[i].deadline.value <= s[j].deadline.value
    {
      assert DueDateLeq(s[i], s[j]);
    }
  }

  /** What a list sorted by the "custom" comparator looks like: positioned
      tasks precede unpositioned ones, positions are non-decreasing, and the
      unpositioned ones are in creation order. */
  lemma CustomOrder(s: seq<Task>)
    requires Sorting.SortedBy(s, CustomLeq)
    ensures forall i, j :: 0 <= i < j < |s| && s[j].position.Some? ==>
              s[i].position.Some? && s[i].position.value <= s[j].position.value
    ensures forall i, j :: 0 <= i < j < |s| && s[i].position.None? && s[j].position.None? ==>
              s[i].date <= s[j].date
  {
    forall i, j | 0 <= i < j < |s| ensures CustomLeq(s[i], s[j]) {
    }
  }

  // ---------------------------------------------------------------------
  // The ordered view
  // ---------------------------------------------------------------------

  /** The pinned tasks that pass the filters, sorted. */
  function PinnedBlock(tasks: seq<Task>, cat: Option<Id>, search: string, mode: SortOption,
                       nameLeq: (string, string) -> bool): seq<Task> {
    SortTasks(Narrow(Seqs.Filter(tasks, (t: Task) => t.pinned), cat, search), mode, nameLeq)
  }

  /** The unpinned tasks that pass the filters, sorted. */
  function UnpinnedBlock(tasks: seq<Task>, cat: Option<Id>, search: string, mode: SortOption,
                         nameLeq: (string, string) -> bool): seq<Task> {
    SortTasks(Narrow(Seqs.Filter(tasks, (t: Task) => !t.pinned), cat, search), mode, nameLeq)
  }

  /** The unpinned block, with its done tasks moved to the end when
      `doneToBottom` is set. */
  function UnpinnedTail(u: seq<Task>, doneToBottom: bool): seq<Task> {
    if doneToBottom then Seqs.Filter(u, (t: Task) => !t.done) + Seqs.Filter(u, (t: Task) => t.done)
    else u
  }

  /** `reorderTasks`. */
  function ReorderTasks(tasks: seq<Task>, cat: Option<Id>, search: string, mode: SortOption,
                        doneToBottom: bool, nameLeq: (string, string) -> bool): seq<Task> {
    PinnedBlock(tasks, cat, search, mode, nameLeq) +
    UnpinnedTail(UnpinnedBlock(tasks, cat, search, mode, nameLeq), doneToBottom)
  }

  /** The members of each block. */
  lemma BlockMembers(tasks: seq<Task>, cat: Option<Id>, search: string, mode: SortOption,
                     nameLeq: (string, string) -> bool)
    ensures forall t :: t in PinnedBlock(tasks, cat, search, mode, nameLeq) <==>
              t in tasks && t.pinned && Shown(t, cat, search)
    ensures forall t :: t in UnpinnedBlock(tasks, cat, search, mode, nameLeq) <==>
              t in tasks && !t.pinned && Shown(t, cat, search)
  {
    var fp := Seqs.Filter(tasks, (t: Task) => t.pinned);
    var fu := Seqs.Filter(tasks, (t: Task) => !t.pinned);
    NarrowIsShown(fp, cat, search);
    NarrowIsShown(fu, cat, search);
    SortTasksPermutation(Narrow(fp, cat, search), mode, nameLeq);
    SortTasksPermutation(Narrow(fu, cat, search), mode, nameLeq);
  }

  /** Moving done tasks to the end is a permutation of the block. */
  lemma TailPermutation(u: seq<Task>, doneToBottom: bool)
    ensures multiset(UnpinnedTail(u, doneToBottom)) == multiset(u)
    ensures forall t :: t in UnpinnedTail(u, doneToBottom) <==> t in u
  {
    if doneToBottom {
      Seqs.FilterPartition(u, (t: Task) => !t.done, (t: Task) => t.done);
      var r := UnpinnedTail(u, true);
      assert forall t :: t in multiset(r) <==> t in multiset(u);
    }
  }

  /** With `doneToBottom`, the not-done tasks come first, then the done
      ones; `split` is where the done part starts. */
  lemma TailSplit(u: seq<Task>) returns (split: nat)
    ensures var r := UnpinnedTail(u, true);
            split <= |r| && split == |Seqs.Filter(u, (t: Task) => !t.done)| &&
            (forall k :: 0 <= k < split ==> !r[k].done) &&
            (forall k :: split <= k < |r| ==> r[k].done)
  {
    var a := Seqs.Filter(u, (t: Task) => !t.done);
    var b := Seqs.Filter(u, (t: Task) => t.done);
    var r := a + b;
    split := |a|;
    forall k | 0 <= k < split ensures !r[k].done {
      assert r[k] == a[k] && a[k] in a;
    }
    forall k | split <= k < |r| ensures r[k].done {
      assert r[k] == b[k - split] && b[k - split] in b;
    }
  }

  /** With `doneToBottom`, every not-done task precedes every done one. */
  lemma TailFacts(u: seq<Task>, doneToBottom: bool)
    ensures multiset(UnpinnedTail(u, doneToBottom)) == multiset(u)
    ensures forall t :: t in UnpinnedTail(u, doneToBottom) <==> t in u
    ensures doneToBottom ==> var r := UnpinnedTail(u, true);
              forall i, j :: 0 <= i < j < |r| && r[i].done ==> r[j].done
  {
    TailPermutation(u, doneToBottom);
    if doneToBottom {
      var split := TailSplit(u);
    }
  }

  /** A sorted unpinned block stays sorted in each of its parts. */
  lemma TailSorted(u: seq<Task>, doneToBottom: bool, leq: (Task, Task) -> bool)
    requires Sorting.SortedBy(u, leq)
    ensures var r := UnpinnedTail(u, doneToBottom);
            forall i, j :: 0 <= i < j < |r| && (doneToBottom ==> r[i].done == r[j].done) ==> leq(r[i], r[j])
  {
    if doneToBottom {
      var a := Seqs.Filter(u, (t: Task) => !t.done);
      var b := Seqs.Filter(u, (t: Task) => t.done);
      Sorting.FilterSorted(u, (t: Task) => !t.done, leq);
      Sorting.FilterSorted(u, (t: Task) => t.done, leq);
      var r := a + b;
      var split := TailSplit(u);
      forall i, j | 0 <= i < j < |a| ensures leq(r[i], r[j]) {
        assert r[i] == a[i] && r[j] == a[j];
      }
      forall i, j | |a| <= i < j < |r| ensures leq(r[i], r[j]) {
        assert r[i] == b[i - |a|] && r[j] == b[j - |a|];
      }
    }
  }

  /** The shape of the view: the pinned block, then the unpinned tasks. */
  lemma ReorderLayout(tasks: seq<Task>, cat: Option<Id>, search: string, mode: SortOption,
                      doneToBottom: bool, nameLeq: (string, string) -> bool)
    ensures var r := ReorderTasks(tasks, cat, search, mode, doneToBottom, nameLeq);
            var p := PinnedBlock(tasks, cat, search, mode, nameLeq);
            var w := UnpinnedTail(UnpinnedBlock(tasks, cat, search, mode, nameLeq), doneToBottom);
            r == p + w &&
            (forall k :: 0 <= k < |p| ==> p[k].pinned && r[k] == p[k]) &&
            (forall k :: |p| <= k < |r| ==> !r[k].pinned && r[k] == w[k - |p|]) &&
            (forall k :: 0 <= k < |r| ==> r[k] in tasks && Shown(r[k], cat, search))
  {
    var p := PinnedBlock(tasks, cat, search, mode, nameLeq);
    var u := UnpinnedBlock(tasks, cat, search, mode, nameLeq);
    BlockMembers(tasks, cat, search, mode, nameLeq);
    TailFacts(u, doneToBottom);
    var w := UnpinnedTail(u, doneToBottom);
    assert forall t :: t in p ==> t.pinned && t in tasks && Shown(t, cat, search);
    assert forall t :: t in w ==> !t.pinned && t in tasks && Shown(t, cat, search);
    ConcatBlocks(p, w, tasks, cat, search);
  }

  /** A block of pinned shown tasks followed by a block of unpinned ones. */
  lemma ConcatBlocks(p: seq<Task>, w: seq<Task>, tasks: seq<Task>, cat: Option<Id>, search: string)
    requires forall t :: t in p ==> t.pinned && t in tasks && Shown(t, cat, search)
    requires forall t :: t in w ==> !t.pinned && t in tasks && Shown(t, cat, search)
    ensures var r := p + w;
            (forall k :: 0 <= k < |p| ==> p[k].pinned && r[k] == p[k]) &&
            (forall k :: |p| <= k < |r| ==> !r[k].pinned && r[k] == w[k - |p|]) &&
            (forall k :: 0 <= k < |r| ==> r[k] in tasks && Shown(r[k], cat, search))
  {
    var r := p + w;
    forall k | 0 <= k < |r| ensures r[k] in tasks && Shown(r[k], cat, search) {
      if k < |p| {
        assert r[k] == p[k] && p[k] in p;
      } else {
        assert r[k] == w[k - |p|] && w[k - |p|] in w;
      }
    }
    forall k | 0 <= k < |p| ensures p[k].pinned {
      assert p[k] in p;
    }
    forall k | |p| <= k < |r| ensures !r[k].pinned {
      assert r[k] == w[k - |p|] && w[k - |p|] in w;
    }
  }

  /** The view shows exactly the tasks that pass the filters, each as often
      as it occurs in the user's tasks: it is a permutation of
      `tasks.filter(shown)` and never fabricates tasks. */
  lemma {:induction false} ReorderContents(tasks: seq<Task>, cat: Option<Id>, search: string,
                                           mode: SortOption, doneToBottom: bool,
                                           nameLeq: (string, string) -> bool)
    ensures multiset(ReorderTasks(tasks, cat, search, mode, doneToBottom, nameLeq)) ==
            multiset(Seqs.Filter(tasks, (t: Task) => Shown(t, cat, search)))
    ensures multiset(ReorderTasks(tasks, cat, search, mode, doneToBottom, nameLeq)) <= multiset(tasks)
  {
    var shown := Seqs.Filter(tasks, (t: Task) => Shown(t, cat, search));
    var fp := Seqs.Filter(tasks, (t: Task) => t.pinned);
    var fu := Seqs.Filter(tasks, (t: Task) => !t.pinned);
    NarrowIsShown(fp, cat, search);
    NarrowIsShown(fu, cat, search);
    var p := PinnedBlock(tasks, cat, search, mode, nameLeq);
    var u := UnpinnedBlock(tasks, cat, search, mode, nameLeq);
    SortTasksPermutation(Narrow(fp, cat, search), mode, nameLeq);
    SortTasksPermutation(Narrow(fu, cat, search), mode, nameLeq);
    Seqs.FilterFilter(tasks, (t: Task) => t.pinned, (t: Task) => Shown(t, cat, search),
                      (t: Task) => t.pinned && Shown(t, cat, search));
    Seqs.FilterFilter(tasks, (t: Task) => !t.pinned, (t: Task) => Shown(t, cat, search),
                      (t: Task) => !t.pinned && Shown(t, cat, search));
    Seqs.FilterFilter(tasks, (t: Task) => Shown(t, cat, search), (t: Task) => t.pinned,
                      (t: Task) => t.pinned && Shown(t, cat, search));
    Seqs.FilterFilter(tasks, (t: Task) => Shown(t, cat, search), (t: Task) => !t.pinned,
                      (t: Task) => !t.pinned && Shown(t, cat, search));
    Seqs.FilterPartition(shown, (t: Task) => t.pinned, (t: Task) => !t.pinned);
    assert multiset(p) + multiset(u) == multiset(shown);
    TailFacts(u, doneToBottom);
    Seqs.FilterSubMultiset(tasks, (t: Task) => Shown(t, cat, search));
  }

  /** Every shown task is one of the user's tasks and passes the filters. */
  lemma ReorderShown(tasks: seq<Task>, cat: Option<Id>, search: string, mode: SortOption,
                     doneToBottom: bool, nameLeq: (string, string) -> bool)
    ensures forall t :: t in ReorderTasks(tasks, cat, search, mode, doneToBottom, nameLeq) ==>
              t in tasks && Shown(t, cat, search)
  {
    ReorderLayout(tasks, cat, search, mode, doneToBottom, nameLeq);
  }

  /** Every pinned task precedes every unpinned one. */
  lemma ReorderPinnedFirst(tasks: seq<Task>, cat: Option<Id>, search: string, mode: SortOption,
                           doneToBottom: bool, nameLeq: (string, string) -> bool)
    ensures var r := ReorderTasks(tasks, cat, search, mode, doneToBottom, nameLeq);
            forall i, j :: 0 <= i < j < |r| && r[j].pinned ==> r[i].pinned
  {
    ReorderLayout(tasks, cat, search, mode, doneToBottom, nameLeq);
  }

  /** With `doneToBottom`, among the unpinned tasks every not-done task
      precedes every done one; the pinned block is the same as without it. */
  lemma ReorderDoneToBottom(tasks: seq<Task>, cat: Option<Id>, search: string, mode: SortOption,
                            nameLeq: (string, string) -> bool)
    ensures var r := ReorderTasks(tasks, cat, search, mode, true, nameLeq);
            forall i, j :: 0 <= i < j < |r| && !r[i].pinned && r[i].done ==> !r[j].pinned && r[j].done
    ensures var r := ReorderTasks(tasks, cat, search, mode, true, nameLeq);
            var r0 := ReorderTasks(tasks, cat, search, mode, false, nameLeq);
            var k := |PinnedBlock(tasks, cat, search, mode, nameLeq)|;
            k <= |r| && k <= |r0| && r[..k] == r0[..k]
  {
    var p := PinnedBlock(tasks, cat, search, mode, nameLeq);
    var u := UnpinnedBlock(tasks, cat, search, mode, nameLeq);
    BlockMembers(tasks, cat, search, mode, nameLeq);
    TailFacts(u, true);
    var w := UnpinnedTail(u, true);
    forall k | 0 <= k < |p| ensures p[k].pinned {
      assert p[k] in p;
    }
    forall k | 0 <= k < |w| ensures !w[k].pinned {
      assert w[k] in w;
    }
    DoneAfterPinned(p, w);
    PrefixOfConcat(p, w);
    PrefixOfConcat(p, u);
  }

  /** A pinned block followed by an unpinned one whose done tasks come last
      has its unpinned done tasks last. */
  lemma DoneAfterPinned(p: seq<Task>, w: seq<Task>)
    requires forall k :: 0 <= k < |p| ==> p[k].pinned
    requires forall k :: 0 <= k < |w| ==> !w[k].pinned
    requires forall i, j :: 0 <= i < j < |w| && w[i].done ==> w[j].done
    ensures var r := p + w;
            forall i, j :: 0 <= i < j < |r| && !r[i].pinned && r[i].done ==> !r[j].pinned && r[j].done
  {
    var r := p + w;
    assert forall k :: 0 <= k < |p| ==> r[k] == p[k];
    forall i, j | 0 <= i < j < |r| && !r[i].pinned && r[i].done ensures !r[j].pinned && r[j].done {
      assert i >= |p|;
      assert r[i] == w[i - |p|] && r[j] == w[j - |p|];
    }
  }

  lemma PrefixOfConcat(p: seq<Task>, w: seq<Task>)
    ensures (p + w)[..|p|] == p
  {
  }

  /** The sortedness of the view from that of its blocks. */
  lemma SortedParts(p: seq<Task>, w: seq<Task>, doneToBottom: bool, leq: (Task, Task) -> bool)
    requires Sorting.SortedBy(p, leq)
    requires forall k :: 0 <= k < |p| ==> p[k].pinned
    requires forall k :: 0 <= k < |w| ==> !w[k].pinned
    requires forall i, j :: 0 <= i < j < |w| && (doneToBottom ==> w[i].done == w[j].done) ==> leq(w[i], w[j])
    ensures var r := p + w;
            forall i, j :: (0 <= i < j < |r| && r[i].pinned == r[j].pinned &&
                            (doneToBottom && !r[i].pinned ==> r[i].done == r[j].done)) ==>
              leq(r[i], r[j])
  {
    var r := p + w;
    forall i, j | 0 <= i < j < |p| ensures leq(r[i], r[j]) {
      assert r[i] == p[i] && r[j] == p[j];
    }
    forall i, j | |p| <= i < j < |r| && (doneToBottom ==> r[i].done == r[j].done)
      ensures leq(r[i], r[j])
    {
      assert r[i] == w[i - |p|] && r[j] == w[j - |p|];
    }
    assert forall k :: 0 <= k < |p| ==> r[k].pinned;
    assert forall k :: |p| <= k < |r| ==> !r[k].pinned;
  }

  /** Within each block (pinned; unpinned, or with `doneToBottom` its not-done
      and done parts) the tasks are in the order of the selected comparator. */
  lemma ReorderSorted(tasks: seq<Task>, cat: Option<Id>, search: string, mode: SortOption,
                      doneToBottom: bool, nameLeq: (string, string) -> bool)
    requires !mode.Other?
    requires Sorting.TotalPreorder(nameLeq)
    ensures var r := ReorderTasks(tasks, cat, search, mode, doneToBottom, nameLeq);
            forall i, j :: (0 <= i < j < |r| && r[i].pinned == r[j].pinned &&
                            (doneToBottom && !r[i].pinned ==> r[i].done == r[j].done)) ==>
              ModeLeq(mode, nameLeq)(r[i], r[j])
  {
    var leq := ModeLeq(mode, nameLeq);
    ModeLeqTotal(mode, nameLeq);
    var p := PinnedBlock(tasks, cat, search, mode, nameLeq);
    var u := UnpinnedBlock(tasks, cat, search, mode, nameLeq);
    var w := UnpinnedTail(u, doneToBottom);
    BlockMembers(tasks, cat, search, mode, nameLeq);
    TailPermutation(u, doneToBottom);
    assert forall k :: 0 <= k < |p| ==> p[k] in p;
    assert forall k :: 0 <= k < |w| ==> w[k] in w;
    Sorting.SortSorted(Narrow(Seqs.Filter(tasks, (t: Task) => t.pinned), cat, search), leq);
    Sorting.SortSorted(Narrow(Seqs.Filter(tasks, (t: Task) => !t.pinned), cat, search), leq);
    TailSorted(u, doneToBottom, leq);
    SortedParts(p, w, doneToBottom, leq);
  }

  // ---------------------------------------------------------------------
  // Categories above the list and their counts
  // ---------------------------------------------------------------------

  function CategoriesOf(t: Task): seq<Category> {
    if t.category.Some? then t.category.value else []
  }

  /** Every category reference of the tasks, in order. */
  function AllCategories(tasks: seq<Task>): (r: seq<Category>)
    ensures forall c :: c in r <==> exists t :: t in tasks && c in CategoriesOf(t)
  {
    if |tasks| == 0 then []
    else
      var p := tasks[..|tasks| - 1];
      assert tasks == p + [tasks[|tasks| - 1]];
      AllCategories(p) + CategoriesOf(tasks[|tasks| - 1])
  }

  function CategoryKey(c: Category): Id {
    c.id
  }

  /** The number of the tasks that have the category `id`. */
  function CountWith(tasks: seq<Task>, id: Id): (n: nat)
    ensures n <= |tasks|
  {
    Seqs.Count(tasks, (t: Task) => HasCategory(t, id))
  }

  /** The category order: more tasks first, then by name (`nameLeq` stands for
      `localeCompare`). */
  function CountLeq(counts: map<Id, nat>, nameLeq: (string, string) -> bool): (Category, Category) -> bool {
    (a: Category, b: Category) =>
      var ca := if a.id in counts then counts[a.id] else 0;
      var cb := if b.id in counts then counts[b.id] else 0;
      if ca != cb then ca > cb else nameLeq(a.name, b.name)
  }

  lemma AddFirstReferenceStep(prefix: seq<Category>, cs: seq<Category>, k: nat)
    requires k < |cs|
    ensures var d := Seqs.DedupBy(prefix + cs[..k], CategoryKey);
            Seqs.DedupBy(prefix + cs[..k + 1], CategoryKey) ==
            if Seqs.HasKey(d, CategoryKey(cs[k]), CategoryKey) then d else d + [cs[k]]
  {
    assert prefix + cs[..k + 1] == prefix + cs[..k] + [cs[k]];
    Seqs.DedupBySnoc(prefix + cs[..k], cs[k], CategoryKey);
  }

  /** The first reference per id among `prefix` followed by `cs`, given the
      one among `prefix`. */
  method AddFirstReferences(prefix: seq<Category>, unique: seq<Category>, cs: seq<Category>)
    returns (r: seq<Category>)
    requires unique == Seqs.DedupBy(prefix, CategoryKey)
    ensures r == Seqs.DedupBy(prefix + cs, CategoryKey)
  {
    r := unique;
    var k := 0;
    assert prefix + cs[..0] == prefix;
    while k < |cs|
      invariant 0 <= k <= |cs|
      invariant r == Seqs.DedupBy(prefix + cs[..k], CategoryKey)
    {
      AddFirstReferenceStep(prefix, cs, k);
      if !Seqs.HasKey(r, CategoryKey(cs[k]), CategoryKey) {
        r := r + [cs[k]];
      }
      k := k + 1;
    }
    assert cs[..k] == cs;
  }

  /** The first reference per id among the categories of `tasks`. */
  method FirstReferences(tasks: seq<Task>) returns (unique: seq<Category>)
    ensures unique == Seqs.DedupBy(AllCategories(tasks), CategoryKey)
  {
    unique := [];
    var i := 0;
    while i < |tasks|
      invariant 0 <= i <= |tasks|
      invariant unique == Seqs.DedupBy(AllCategories(tasks[..i]), CategoryKey)
    {
      assert tasks[..i + 1][..i] == tasks[..i];
      assert AllCategories(tasks[..i + 1]) == AllCategories(tasks[..i]) + CategoriesOf(tasks[i]);
      if tasks[i].category.Some? {
        unique := AddFirstReferences(AllCategories(tasks[..i]), unique, tasks[i].category.value);
      } else {
        assert AllCategories(tasks[..i]) + CategoriesOf(tasks[i]) == AllCategories(tasks[..i]);
      }
      i := i + 1;
    }
    assert tasks[..i] == tasks;
  }

  /** The number of tasks having each of the categories. */
  method CountCategories(tasks: seq<Task>, unique: seq<Category>) returns (counts: map<Id, nat>)
    ensures forall id :: id in counts <==> exists k :: 0 <= k < |unique| && unique[k].id == id
    ensures forall id :: id in counts ==> counts[id] == CountWith(tasks, id)
  {
    counts := map[];
    var j := 0;
    while j < |unique|
      invariant 0 <= j <= |unique|
      invariant forall id :: id in counts <==> exists k :: 0 <= k < j && unique[k].id == id
      invariant forall id :: id in counts ==> counts[id] == CountWith(tasks, id)
    {
      counts := counts[unique[j].id := CountWith(tasks, unique[j].id)];
      j := j + 1;
    }
  }

  /** The category effect: collects the categories of the shown tasks, the
      first reference per id, counts the tasks having each, then sorts them
      by count (descending) and name. */
  method CollectCategories(tasks: seq<Task>, nameLeq: (string, string) -> bool)
    returns (cats: seq<Category>, counts: map<Id, nat>)
    ensures cats == Sorting.Sort(Seqs.DedupBy(AllCategories(tasks), CategoryKey), CountLeq(counts, nameLeq))
    ensures forall id :: id in counts <==> exists c :: c in cats && c.id == id
    ensures forall id :: id in counts ==> counts[id] == CountWith(tasks, id)
  {
    var unique := FirstReferences(tasks);
    counts := CountCategories(tasks, unique);
    cats := Sorting.Sort(unique, CountLeq(counts, nameLeq));
    Sorting.SortMembers(unique, CountLeq(counts, nameLeq));
    MembersKeepIds(unique, cats);
  }

  /** Two lists of the same categories have the same ids. */
  lemma MembersKeepIds(a: seq<Category>, b: seq<Category>)
    requires forall c :: c in b <==> c in a
    ensures forall id :: (exists k :: 0 <= k < |a| && a[k].id == id) <==> HasCategoryId(b, id)
  {
    forall id ensures (exists k :: 0 <= k < |a| && a[k].id == id) <==> HasCategoryId(b, id) {
      if exists k :: 0 <= k < |a| && a[k].id == id {
        var k :| 0 <= k < |a| && a[k].id == id;
        assert a[k] in b;
      }
      if HasCategoryId(b, id) {
        var c :| c in b && c.id == id;
        var k :| 0 <= k < |a| && a[k] == c;
      }
    }
  }

  /** The category order is a consistent comparator. */
  lemma CountLeqTotal(counts: map<Id, nat>, nameLeq: (string, string) -> bool)
    requires Sorting.TotalPreorder(nameLeq)
    ensures Sorting.TotalPreorder(CountLeq(counts, nameLeq))
  {
    var leq := CountLeq(counts, nameLeq);
    forall a: Category, b: Category ensures leq(a, b) || leq(b, a) {
      assert nameLeq(a.name, b.name) || nameLeq(b.name, a.name);
    }
    forall a: Category, b: Category, c: Category | leq(a, b) && leq(b, c) ensures leq(a, c) {
      assert nameLeq(a.name, b.name) && nameLeq(b.name, c.name) ==> nameLeq(a.name, c.name);
    }
  }

  /** Some category of `cats` has the id. */
  predicate HasCategoryId(cats: seq<Category>, id: Id) {
    exists d :: d in cats && d.id == id
  }

  /** The collected categories carry distinct ids and include a category of
      every id that some shown task refers to. */
  lemma CollectedCategoriesCover(tasks: seq<Task>, cats: seq<Category>, leq: (Category, Category) -> bool)
    requires cats == Sorting.Sort(Seqs.DedupBy(AllCategories(tasks), CategoryKey), leq)
    ensures UniqueCategoryIds(cats)
    ensures forall t, c :: t in tasks && c in CategoriesOf(t) ==> HasCategoryId(cats, c.id)
  {
    CollectedUnique(tasks, cats, leq);
    CollectedCover(tasks, cats, leq);
  }

  lemma CollectedUnique(tasks: seq<Task>, cats: seq<Category>, leq: (Category, Category) -> bool)
    requires cats == Sorting.Sort(Seqs.DedupBy(AllCategories(tasks), CategoryKey), leq)
    ensures UniqueCategoryIds(cats)
  {
    var firsts := Seqs.DedupBy(AllCategories(tasks), CategoryKey);
    Sorting.SortPermutation(firsts, leq);
    KeysUnderPermutation(firsts, cats);
  }

  lemma CollectedCover(tasks: seq<Task>, cats: seq<Category>, leq: (Category, Category) -> bool)
    requires cats == Sorting.Sort(Seqs.DedupBy(AllCategories(tasks), CategoryKey), leq)
    ensures forall t, c :: t in tasks && c in CategoriesOf(t) ==> HasCategoryId(cats, c.id)
  {
    var firsts := Seqs.DedupBy(AllCategories(tasks), CategoryKey);
    Sorting.SortMembers(firsts, leq);
    forall t, c | t in tasks && c in CategoriesOf(t) ensures HasCategoryId(cats, c.id) {
      DedupCovers(tasks, firsts, cats, t, c);
    }
  }

  /** Any sequence with the members of the first references has a category
      of the id of every category of the tasks. */
  lemma DedupCovers(tasks: seq<Task>, firsts: seq<Category>, cats: seq<Category>, t: Task, c: Category)
    requires firsts == Seqs.DedupBy(AllCategories(tasks), CategoryKey)
    requires forall x :: x in cats <==> x in firsts
    requires t in tasks && c in CategoriesOf(t)
    ensures HasCategoryId(cats, c.id)
  {
    var all := AllCategories(tasks);
    assert c in all;
    var k :| 0 <= k < |all| && all[k] == c;
    assert Seqs.HasKey(firsts, CategoryKey(all[k]), CategoryKey);
    var m :| 0 <= m < |firsts| && CategoryKey(firsts[m]) == CategoryKey(all[k]);
    assert firsts[m] in cats && firsts[m].id == c.id;
  }

  /** The collected categories are ordered by non-increasing task count, and
      by name among equal counts. */
  lemma CollectedCategoriesOrder(tasks: seq<Task>, nameLeq: (string, string) -> bool,
                                 cats: seq<Category>, counts: map<Id, nat>)
    requires Sorting.TotalPreorder(nameLeq)
    requires cats == Sorting.Sort(Seqs.DedupBy(AllCategories(tasks), CategoryKey), CountLeq(counts, nameLeq))
    requires forall id :: id in counts <==> exists c :: c in cats && c.id == id
    requires forall id :: id in counts ==> counts[id] == CountWith(tasks, id)
    ensures forall i, j :: 0 <= i < j < |cats| ==>
              CountWith(tasks, cats[i].id) >= CountWith(tasks, cats[j].id) &&
              (CountWith(tasks, cats[i].id) == CountWith(tasks, cats[j].id) ==> nameLeq(cats[i].name, cats[j].name))
  {
    var d := Seqs.DedupBy(AllCategories(tasks), CategoryKey);
    var leq := CountLeq(counts, nameLeq);
    CountLeqTotal(counts, nameLeq);
    Sorting.SortSorted(d, leq);
    forall i, j | 0 <= i < j < |cats|
      ensures CountWith(tasks, cats[i].id) >= CountWith(tasks, cats[j].id) &&
              (CountWith(tasks, cats[i].id) == CountWith(tasks, cats[j].id) ==> nameLeq(cats[i].name, cats[j].name))
    {
      assert leq(cats[i], cats[j]);
      assert cats[i] in cats && cats[j] in cats;
      assert cats[i].id in counts && cats[j].id in counts;
    }
  }

  /** Distinct keys survive a permutation. */
  lemma KeysUnderPermutation(d: seq<Category>, e: seq<Category>)
    requires forall a, b :: 0 <= a < b < |d| ==> CategoryKey(d[a]) != CategoryKey(d[b])
    requires multiset(e) == multiset(d)
    ensures UniqueCategoryIds(e)
  {
    assert Seqs.NoDup(d);
    Seqs.NoDupPermutation(d, e);
    forall i, j | 0 <= i < j < |e| ensures e[i].id != e[j].id {
      assert e[i] != e[j];
      assert e[i] in multiset(d) && e[j] in multiset(d);
      var a :| 0 <= a < |d| && d[a] == e[i];
      var b :| 0 <= b < |d| && d[b] == e[j];
      assert a != b;
    }
  }

  // ---------------------------------------------------------------------
  // Deleting, marking done, dragging
  // ---------------------------------------------------------------------

  /** What a bulk action leaves behind: the new record and the new
      selection of the list. */
  datatype Bulk = Bulk(user: User, selection: seq<Id>)

  /** Bulk delete: the selected tasks go, the selected ids not already
      tombstoned are appended to the tombstones, and the selection is
      cleared. */
  function DeleteSelected(user: User, selected: seq<Id>): (r: Bulk)
    ensures r.selection == []
    ensures r.user.tasks == Seqs.Filter(user.tasks, (t: Task) => t.id !in selected)
    ensures r.user == user.(tasks := r.user.tasks, deletedTasks := r.user.deletedTasks)
  {
    Bulk(user.(tasks := Seqs.Filter(user.tasks, (t: Task) => t.id !in selected),
               deletedTasks := user.deletedTasks + Seqs.Filter(selected, (id: Id) => id !in user.deletedTasks)),
         [])
  }

  /** Bulk delete removes exactly the selected ids, keeps the old tombstones
      as a prefix and tombstones every selected id. */
  lemma DeleteSelectedEffect(user: User, selected: seq<Id>)
    ensures var u := DeleteSelected(user, selected).user;
            (forall t :: t in u.tasks <==> t in user.tasks && t.id !in selected) &&
            u.deletedTasks[..|user.deletedTasks|] == user.deletedTasks &&
            (forall id :: id in u.deletedTasks <==> id in user.deletedTasks || id in selected)
  {
    var old_ := user.deletedTasks;
    var added := Seqs.Filter(selected, (id: Id) => id !in old_);
    assert (old_ + added)[..|old_|] == old_;
  }

  /** Bulk delete adds no duplicate tombstone. */
  lemma DeleteSelectedNoDup(user: User, selected: seq<Id>)
    requires Seqs.NoDup(user.deletedTasks) && Seqs.NoDup(selected)
    ensures Seqs.NoDup(DeleteSelected(user, selected).user.deletedTasks)
  {
    var old_ := user.deletedTasks;
    var added := Seqs.Filter(selected, (id: Id) => id !in old_);
    Seqs.FilterNoDup(selected, (id: Id) => id !in old_);
    forall k | 0 <= k < |added| ensures added[k] !in old_ {
      assert added[k] in added;
    }
    Seqs.NoDupAppend(old_, added);
  }

  /** `handleMarkSelectedAsDone`: the selected tasks are marked done, each
      with a fresh `lastSave`, and the selection is cleared. */
  function MarkSelectedAsDone(user: User, selected: seq<Id>, now: int): (r: Bulk)
    ensures r.selection == [] && r.user == user.(tasks := r.user.tasks)
  {
    Bulk(user.(tasks := seq(|user.tasks|, i requires 0 <= i < |user.tasks| =>
                 if user.tasks[i].id in selected then user.tasks[i].(done := true, lastSave := Some(now))
                 else user.tasks[i])),
         [])
  }

  /** Marking done keeps the list and its ids, leaves every unselected task
      as it was, makes every selected task done with `lastSave` now and
      nothing else changed; the done tasks only grow. */
  lemma MarkSelectedAsDoneEffect(user: User, selected: seq<Id>, now: int)
    ensures var tasks := user.tasks;
            var r := MarkSelectedAsDone(user, selected, now).user.tasks;
            |r| == |tasks| && TaskIds(r) == TaskIds(tasks) &&
            (forall i :: 0 <= i < |r| ==> r[i].done == (tasks[i].done || tasks[i].id in selected)) &&
            (forall i :: 0 <= i < |r| && tasks[i].id !in selected ==> r[i] == tasks[i]) &&
            (forall i :: 0 <= i < |r| && tasks[i].id in selected ==>
               r[i] == tasks[i].(done := true, lastSave := Some(now))) &&
            Seqs.Count(tasks, (t: Task) => t.done) <= Seqs.Count(r, (t: Task) => t.done)
  {
    var r := MarkSelectedAsDone(user, selected, now).user.tasks;
    assert TaskIds(r) == TaskIds(user.tasks);
    CountMonotone(user.tasks, r);
  }

  /** If every task done before is done after, the done count does not drop. */
  lemma {:induction false} CountMonotone(a: seq<Task>, b: seq<Task>)
    requires |a| == |b|
    requires forall i :: 0 <= i < |a| && a[i].done ==> b[i].done
    ensures Seqs.Count(a, (t: Task) => t.done) <= Seqs.Count(b, (t: Task) => t.done)
  {
    if |a| > 0 {
      CountMonotone(a[1..], b[1..]);
    }
  }

  /** Where the element at position `k` of a move comes from. */
  function MoveSource(from: nat, to: nat, k: nat): nat {
    if k == to then from
    else
      var m := if k < to then k else k - 1;
      if m < from then m else m + 1
  }

  /** `arrayMove(s, from, to)`: the element at `from` is taken out and put
      back in at `to`. */
  function ArrayMove<T>(s: seq<T>, from: nat, to: nat): (r: seq<T>)
    requires from < |s| && to < |s|
    ensures |r| == |s|
    ensures r[to] == s[from]
    ensures forall k :: 0 <= k < |r| ==> MoveSource(from, to, k) < |s| && r[k] == s[MoveSource(from, to, k)]
  {
    var rest := s[..from] + s[from + 1..];
    rest[..to] + [s[from]] + rest[to..]
  }

  /** A move loses and duplicates nothing: different positions of the
      result come from different positions of the input. */
  lemma MoveSourceInjective(from: nat, to: nat, n: nat, k1: nat, k2: nat)
    requires from < n && to < n && k1 < n && k2 < n && k1 != k2
    ensures MoveSource(from, to, k1) != MoveSource(from, to, k2)
  {
  }

  lemma MoveUnique(s: seq<Task>, from: nat, to: nat)
    requires from < |s| && to < |s|
    requires UniqueTaskIds(s)
    ensures UniqueTaskIds(ArrayMove(s, from, to))
  {
    var r := ArrayMove(s, from, to);
    forall i, j | 0 <= i < j < |r| ensures r[i].id != r[j].id {
      MoveSourceInjective(from, to, |s|, i, j);
    }
  }

  /** The result of a drag: `None` when the drag is ignored, otherwise the
      moved order of the displayed tasks. */
  function DragOrder(ordered: seq<Task>, active: Id, over: Option<Id>): (r: Option<seq<Task>>)
    ensures r.Some? ==> |r.value| == |ordered|
  {
    if over.None? || active == over.value then None
    else
      var oldIndex := FindTaskIndex(ordered, active);
      var newIndex := FindTaskIndex(ordered, over.value);
      if oldIndex == -1 || newIndex == -1 then None
      else Some(ArrayMove(ordered, oldIndex, newIndex))
  }

  /** `handleDragEnd`: every task displayed gets its index in the moved order
      as `position` and a fresh `lastSave`; the others are untouched. */
  function DragEnd(tasks: seq<Task>, ordered: seq<Task>, active: Id, over: Option<Id>, now: int): (r: seq<Task>)
    ensures |r| == |tasks|
    ensures DragOrder(ordered, active, over).None? ==> r == tasks
  {
    match DragOrder(ordered, active, over)
    case None => tasks
    case Some(moved) =>
      seq(|tasks|, i requires 0 <= i < |tasks| =>
        var idx := FindTaskIndex(moved, tasks[i].id);
        if idx != -1 then tasks[i].(position := Some(idx), lastSave := Some(now)) else tasks[i])
  }

  /** A drag keeps the ids; a displayed task's position names the place of
      that task in the moved order; tasks not displayed are unchanged; the
      dragged task lands at the index of the task it was dropped on. An
      ignored drag changes nothing. */
  lemma DragEndEffect(tasks: seq<Task>, ordered: seq<Task>, active: Id, over: Option<Id>, now: int)
    requires UniqueTaskIds(ordered)
    ensures var r := DragEnd(tasks, ordered, active, over, now);
            |r| == |tasks| && TaskIds(r) == TaskIds(tasks)
    ensures DragOrder(ordered, active, over).None? ==> DragEnd(tasks, ordered, active, over, now) == tasks
    ensures DragOrder(ordered, active, over).Some? ==>
              var moved := DragOrder(ordered, active, over).value;
              var r := DragEnd(tasks, ordered, active, over, now);
              forall i :: 0 <= i < |tasks| ==>
                if exists k :: 0 <= k < |moved| && moved[k].id == tasks[i].id then
                  r[i].position.Some? && 0 <= r[i].position.value < |moved| &&
                  moved[r[i].position.value].id == tasks[i].id && r[i].lastSave == Some(now) &&
                  r[i].(position := tasks[i].position, lastSave := tasks[i].lastSave) == tasks[i]
                else r[i] == tasks[i]
    ensures over.Some? && DragOrder(ordered, active, over).Some? ==>
              forall i :: 0 <= i < |tasks| && tasks[i].id == active ==>
                DragEnd(tasks, ordered, active, over, now)[i].position == Some(FindTaskIndex(ordered, over.value))
  {
    var r := DragEnd(tasks, ordered, active, over, now);
    assert TaskIds(r) == TaskIds(tasks);
    if over.Some? && DragOrder(ordered, active, over).Some? {
      var oldIndex := FindTaskIndex(ordered, active);
      var newIndex := FindTaskIndex(ordered, over.value);
      var moved := ArrayMove(ordered, oldIndex, newIndex);
      MoveUnique(ordered, oldIndex, newIndex);
      assert moved[newIndex].id == active;
      assert FindTaskIndex(moved, active) == newIndex;
    }
  }

  // ---------------------------------------------------------------------
  // Single delete, which appends to the tombstones in place
  // ---------------------------------------------------------------------

  /** The single delete's `tasks.filter(t => t.id !== id)`: the task with the
      id goes and every other task stays, in order. */
  function RemoveTask(tasks: seq<Task>, id: Id): (r: seq<Task>)
    ensures forall t :: t in r <==> t in tasks && t.id != id
    ensures multiset(r) <= multiset(tasks)
    ensures UniqueTaskIds(tasks) && (exists k :: 0 <= k < |tasks| && tasks[k].id == id) ==> |r| == |tasks| - 1
  {
    Seqs.FilterSubMultiset(tasks, (t: Task) => t.id != id);
    if UniqueTaskIds(tasks) && exists k :: 0 <= k < |tasks| && tasks[k].id == id then
      RemoveOne(tasks, id);
      Seqs.Filter(tasks, (t: Task) => t.id != id)
    else Seqs.Filter(tasks, (t: Task) => t.id != id)
  }

  lemma {:induction false} RemoveOne(tasks: seq<Task>, id: Id)
    requires UniqueTaskIds(tasks)
    requires exists k :: 0 <= k < |tasks| && tasks[k].id == id
    ensures |Seqs.Filter(tasks, (t: Task) => t.id != id)| == |tasks| - 1
  {
    if tasks[0].id == id {
      assert forall t :: t in tasks[1..] ==> t.id != id;
      Seqs.FilterAll(tasks[1..], (t: Task) => t.id != id);
    } else {
      RemoveOne(tasks[1..], id);
    }
  }

  /** The list's state that the single delete touches. */
  class TaskListState {
    var user: User
    var selectedTaskId: Option<Id>

    constructor (user: User)
      ensures this.user == user && selectedTaskId.None?
    {
      this.user := user;
      selectedTaskId := None;
    }

    /** `confirmDeleteTask`: with no selected id nothing happens; otherwise
        the task is dropped and its id pushed onto the tombstones, with no
        check for a duplicate. */
    method ConfirmDeleteTask()
      modifies this`user
      ensures Falsy(old(selectedTaskId)) ==> user == old(user)
      ensures !Falsy(old(selectedTaskId)) ==>
                user == old(user).(tasks := RemoveTask(old(user.tasks), old(selectedTaskId).value),
                                   deletedTasks := old(user.deletedTasks) + [old(selectedTaskId).value])
    {
      if Falsy(selectedTaskId) {
        return;
      }
      var id := selectedTaskId.value;
      var updated := RemoveTask(user.tasks, id);
      user := user.(tasks := updated);
      user := user.(deletedTasks := user.deletedTasks + [id]);
    }
  }
}
