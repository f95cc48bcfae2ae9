/**
 * The standalone executor of src/executor.rs: TASK_STORAGE, a lazily created
 * vector of optional tasks that workers take from the front, and
 * TASKS_REMAINING, the count of tasks enqueued and not yet finished. A task
 * must finish on its first poll; a pending one is a panic. Thread spawning is
 * outside the model, and a worker is modelled one loop iteration at a time.
 */
module Executor {
  import opened Bytes
  import opened Tasks

  /** The number of slots holding a task. */
  function CountSome(s: seq<Option<Task>>): (n: nat)
    ensures n <= |s|
    ensures n == 0 <==> forall j :: 0 <= j < |s| ==> s[j].None?
  {
    if s == [] then 0 else (if s[0].Some? then 1 else 0) + CountSome(s[1..])
  }

  /** The index of the first slot holding a task, if any. */
  function FirstSome(s: seq<Option<Task>>): (r: Option<nat>)
    ensures r.Some? ==> r.value < |s| && s[r.value].Some?
    ensures forall j :: 0 <= j < |s| && (r.None? || j < r.value) ==> s[j].None?
  {
    if s == [] then None
    else if s[0].Some? then Some(0)
    else match FirstSome(s[1..])
      case None =>
        assert forall j :: 1 <= j < |s| ==> s[j] == s[1..][j - 1];
        None
      case Some(i) =>
        assert forall j :: 1 <= j < |s| ==> s[j] == s[1..][j - 1];
        Some(i + 1)
  }

  lemma {:induction false} CountSomeAppend(s: seq<Option<Task>>, x: Option<Task>)
    ensures CountSome(s + [x]) == CountSome(s) + (if x.Some? then 1 else 0)
  {
    if s != [] {
      CountSomeAppend(s[1..], x);
      assert (s + [x])[1..] == s[1..] + [x];
    }
  }

  lemma {:induction false} CountSomeTake(s: seq<Option<Task>>, i: nat)
    requires i < |s| && s[i].Some?
    ensures CountSome(s[i := None]) == CountSome(s) - 1
  {
    if i > 0 {
      CountSomeTake(s[1..], i - 1);
      assert s[i := None][1..] == s[1..][i - 1 := None];
    }
  }

  /**
   * No task is stored exactly when the count is zero, and otherwise the scan
   * from the front finds one.
   */
  lemma {:induction false} CountSomeZero(s: seq<Option<Task>>)
    ensures CountSome(s) == 0 <==> FirstSome(s).None?
  {
    if s != [] && s[0].None? {
      CountSomeZero(s[1..]);
    }
  }

  /** What one iteration of worker_trampoline's loop does. */
  datatype Step =
    | Exit   // TASKS_REMAINING is 0: leave the loop
    | Ran    // a task was taken and finished
    | Spin   // no task to take: spin and retry
    | Panic  // a task returned Pending

  class TaskStorage {
    var storage: Option<seq<Option<Task>>>
    var remaining: nat

    /** The slots, with a storage not yet created read as empty. */
    function Contents(): seq<Option<Task>>
      reads this
    {
      if storage.Some? then storage.value else []
    }

    /** TASKS_REMAINING counts the stored tasks. */
    ghost predicate Valid()
      reads this
    {
      remaining == CountSome(Contents())
    }

    constructor ()
      ensures Valid() && storage.None? && remaining == 0
    {
      storage := None;
      remaining := 0;
    }

    /** storage_push: append the task and return its index, the old length. */
    method StoragePush(task: Task) returns (idx: nat)
      modifies this`storage
      ensures idx == |old(Contents())|
      ensures storage == Some(old(Contents()) + [Some(task)])
    {
      if storage.None? {
        storage := Some([]);
      }
      var s := storage.value;
      idx := |s|;
      storage := Some(s + [Some(task)]);
    }

    /**
     * storage_take_first: take the task in the lowest-index slot that has one,
     * leaving None there; the length and the other slots stay.
     */
    method StorageTakeFirst() returns (r: Option<Task>)
      modifies this`storage
      ensures FirstSome(old(Contents())).None? ==> r.None? && storage == old(storage)
      ensures FirstSome(old(Contents())).Some? ==>
        var i := FirstSome(old(Contents())).value;
        r == old(Contents())[i] && storage == Some(old(Contents())[i := None])
    {
      if storage.None? {
        return None;
      }
      var s := storage.value;
      var found := FindTask(s);
      if found.None? {
        return None;
      }
      var i := found.value;
      r := s[i];
      storage := Some(s[i := None]);
    }

    /** enqueue_task: push the task and count it. */
    method EnqueueTask(task: Task)
      requires Valid()
      modifies this
      ensures Valid()
      ensures Contents() == old(Contents()) + [Some(task)]
      ensures remaining == old(remaining) + 1
    {
      CountSomeAppend(Contents(), Some(task));
      var _ := StoragePush(task);
      remaining := remaining + 1;
    }

    /**
     * One iteration of worker_trampoline's loop, with `ready` what polling the
     * taken task returns: leave when the count is 0, else take the first task;
     * a finished task is uncounted.
     */
    method WorkerStep(ready: bool) returns (step: Step)
      requires Valid()
      modifies this
      ensures step == Exit <==> old(remaining) == 0
      ensures step == Exit || step == Spin ==> storage == old(storage) && remaining == old(remaining)
      ensures step == Spin ==> FirstSome(old(Contents())).None?
      ensures step == Ran || step == Panic ==>
        && FirstSome(old(Contents())).Some?
        && Contents() == old(Contents())[FirstSome(old(Contents())).value := None]
        && (step == Ran <==> ready)
      ensures step == Ran ==> Valid() && remaining == old(remaining) - 1
    {
      if remaining == 0 {
        return Exit;
      }
      ghost var s := Contents();
      var task := StorageTakeFirst();
      if task.None? {
        return Spin;
      }
      CountSomeTake(s, FirstSome(s).value);
      if ready {
        remaining := remaining - 1;
        return Ran;
      }
      return Panic;
    }
  }

  /** The scan of storage_take_first. */
  method FindTask(s: seq<Option<Task>>) returns (found: Option<nat>)
    ensures found == FirstSome(s)
  {
    var i := 0;
    while i < |s|
      invariant i <= |s|
      invariant forall j :: 0 <= j < i ==> s[j].None?
    {
      if s[i].Some? {
        return Some(i);
      }
      i := i + 1;
    }
    return None;
  }
}
