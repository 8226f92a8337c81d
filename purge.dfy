/** The purge page: permanently removing a chosen set of tasks (the
    selected ones, the done ones or all of them), tombstoning their ids and
    clearing the selection. */
module Purge {
  import opened UserTypes
  import Seqs

  /** The page's state: the user and the ids selected for purging. */
  datatype PurgeState = PurgeState(user: User, selected: seq<Id>)

  /** `doneTasks` and `notDoneTasks`. */
  function DoneTasks(tasks: seq<Task>): (r: seq<Task>)
    ensures forall t :: t in r <==> t in tasks && t.done
  {
    Seqs.Filter(tasks, (t: Task) => t.done)
  }

  function NotDoneTasks(tasks: seq<Task>): (r: seq<Task>)
    ensures forall t :: t in r <==> t in tasks && !t.done
  {
    Seqs.Filter(tasks, (t: Task) => !t.done)
  }

  /** The done and the not-done tasks split the tasks between them. */
  lemma DonePartition(tasks: seq<Task>)
    ensures |DoneTasks(tasks)| + |NotDoneTasks(tasks)| == |tasks|
    ensures multiset(DoneTasks(tasks)) + multiset(NotDoneTasks(tasks)) == multiset(tasks)
  {
    Seqs.FilterPartition(tasks, (t: Task) => t.done, (t: Task) => !t.done);
  }

  /** `purgeTasks`: the tasks in `purge` go, their ids not yet tombstoned are
      appended to the tombstones, and the selection is cleared. Tasks are
      compared by value. */
  function PurgeTasks(st: PurgeState, purge: seq<Task>): (r: PurgeState)
    ensures r.selected == []
    ensures r.user == st.user.(tasks := r.user.tasks, deletedTasks := r.user.deletedTasks)
  {
    var old_ := st.user.deletedTasks;
    PurgeState(st.user.(tasks := Seqs.Filter(st.user.tasks, (t: Task) => t !in purge),
                        deletedTasks := old_ + Seqs.Filter(TaskIds(purge), (id: Id) => id !in old_)),
               [])
  }

  /** A purge leaves exactly the tasks not purged; the old
      tombstones stay as a prefix and every purged id is tombstoned; no id
      that is neither is added. */
  lemma PurgeEffect(st: PurgeState, purge: seq<Task>)
    ensures var r := PurgeTasks(st, purge);
            (forall t :: t in r.user.tasks <==> t in st.user.tasks && t !in purge) &&
            r.user.deletedTasks[..|st.user.deletedTasks|] == st.user.deletedTasks &&
            (forall id :: id in r.user.deletedTasks <==>
                          id in st.user.deletedTasks || exists t :: t in purge && t.id == id)
  {
    var old_ := st.user.deletedTasks;
    var ids := TaskIds(purge);
    var added := Seqs.Filter(ids, (id: Id) => id !in old_);
    assert (old_ + added)[..|old_|] == old_;
    forall id ensures id in ids <==> exists t :: t in purge && t.id == id {
      if id in ids {
        var k :| 0 <= k < |ids| && ids[k] == id;
        assert purge[k] in purge;
      }
      if exists t :: t in purge && t.id == id {
        var t :| t in purge && t.id == id;
        var k :| 0 <= k < |purge| && purge[k] == t;
        assert ids[k] == id;
      }
    }
  }

  /** With distinct ids to purge and no duplicate tombstone before, there is
      none after. */
  lemma PurgeNoDup(st: PurgeState, purge: seq<Task>)
    requires Seqs.NoDup(st.user.deletedTasks) && UniqueTaskIds(purge)
    ensures Seqs.NoDup(PurgeTasks(st, purge).user.deletedTasks)
  {
    var old_ := st.user.deletedTasks;
    var ids := TaskIds(purge);
    assert Seqs.NoDup(ids) by {
      forall i, j | 0 <= i < j < |ids| ensures ids[i] != ids[j] {
        assert ids[i] == purge[i].id && ids[j] == purge[j].id;
      }
    }
    var added := Seqs.Filter(ids, (id: Id) => id !in old_);
    Seqs.FilterNoDup(ids, (id: Id) => id !in old_);
    forall k | 0 <= k < |added| ensures added[k] !in old_ {
      assert added[k] in added;
    }
    Seqs.NoDupAppend(old_, added);
  }

  /** `handlePurgeSelected`: the tasks whose id is selected. */
  function PurgeSelected(st: PurgeState): (r: PurgeState)
    ensures forall t :: t in r.user.tasks <==> t in st.user.tasks && t.id !in st.selected
    ensures r.selected == []
  {
    var chosen := Seqs.Filter(st.user.tasks, (t: Task) => t.id in st.selected);
    PurgeEffect(st, chosen);
    PurgeTasks(st, chosen)
  }

  /** `handlePurgeDone`: exactly the done tasks go. */
  function PurgeDone(st: PurgeState): (r: PurgeState)
    ensures forall t :: t in r.user.tasks <==> t in st.user.tasks && !t.done
    ensures r.selected == []
  {
    PurgeEffect(st, DoneTasks(st.user.tasks));
    PurgeTasks(st, DoneTasks(st.user.tasks))
  }

  /** The confirmed purge-all: no task is left and every id is tombstoned. */
  function PurgeAll(st: PurgeState): (r: PurgeState)
    ensures r.user.tasks == []
    ensures forall t :: t in st.user.tasks ==> t.id in r.user.deletedTasks
    ensures r.selected == []
  {
    PurgeEffect(st, st.user.tasks);
    AllPurged(st.user.tasks);
    PurgeTasks(st, st.user.tasks)
  }

  lemma AllPurged(tasks: seq<Task>)
    ensures Seqs.Filter(tasks, (t: Task) => t !in tasks) == []
  {
    Seqs.FilterNone(tasks, (t: Task) => t !in tasks);
  }

  /** Purging the done tasks leaves the not-done ones, in order. */
  lemma PurgeDoneLeavesNotDone(st: PurgeState)
    ensures PurgeDone(st).user.tasks == NotDoneTasks(st.user.tasks)
  {
    var done := DoneTasks(st.user.tasks);
    Seqs.FilterExt(st.user.tasks, (t: Task) => t !in done, (t: Task) => !t.done);
  }
}
