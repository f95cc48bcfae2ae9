/**
 * The sequential bookkeeping of crates/runtime/lib.rs: TASK_TABLE with handles
 * from NEXT_HANDLE, the schedule stack with EVENT_PENDING, the fd registry and
 * its dispatch after ppoll, and the argv number parser, whose copy in
 * src/runtime.rs behaves the same. The system calls themselves (ppoll, the
 * eventfd write) are outside the model; their results are parameters.
 */
module Runtime {
  import opened Bytes
  import opened Tasks
  import opened Syscall
  import opened IoRegistry
  import opened Scheduler

  // ---------------------------------------------------------------------------
  // TASK_TABLE
  // ---------------------------------------------------------------------------

  /** The table after register_task stores task at idx, padding with None up to it. */
  function Stored(t: seq<Option<Task>>, idx: nat, task: Task): (r: seq<Option<Task>>)
    ensures idx < |r| && r[idx] == Some(task) && |t| <= |r|
  {
    (if idx < |t| then t else t + seq(idx + 1 - |t|, _ => None))[idx := Some(task)]
  }

  /**
   * The task lands at idx; the table grows just enough to hold it, the new
   * cells before it are None and the old cells other than idx are unchanged.
   */
  lemma StoredSpec(t: seq<Option<Task>>, idx: nat, task: Task)
    ensures var r := Stored(t, idx, task);
      && |r| == (if idx < |t| then |t| else idx + 1)
      && r[idx] == Some(task)
      && (forall j :: 0 <= j < |t| && j != idx ==> r[j] == t[j])
      && (forall j :: |t| <= j < |r| && j != idx ==> r[j].None?)
  {
  }

  /** The `while idx >= t.len() { t.push(None) }` loop and the store. */
  method PadAndStore(t: seq<Option<Task>>, idx: nat, task: Task) returns (r: seq<Option<Task>>)
    ensures r == Stored(t, idx, task)
  {
    r := t;
    while idx >= |r|
      invariant |t| <= |r| <= (if idx < |t| then |t| else idx + 1)
      invariant r == t + seq(|r| - |t|, _ => None)
      decreases idx + 1 - |r|
    {
      r := r + [None];
    }
    r := r[idx := Some(task)];
  }

  datatype TablePoll = TablePoll(result: Poll, table: Option<seq<Option<Task>>>)

  /**
   * poll_task, with `ready` what polling the task would return. Handle 0 has
   * no index: `handle - 1` wraps to usize::MAX, which is out of range.
   */
  function PollTable(table: Option<seq<Option<Task>>>, handle: nat, ready: bool): (r: TablePoll)
    ensures r.table.Some? == table.Some?
    ensures r.result == Pending ==> r.table == table
  {
    if table.None? || handle == 0 || handle - 1 >= |table.value| || table.value[handle - 1].None? then
      TablePoll(Ready, table)
    else if ready then
      TablePoll(Ready, Some(table.value[handle - 1 := None]))
    else
      TablePoll(Pending, table)
  }

  /**
   * With no table, a handle past its end or an empty slot the answer is Ready
   * and nothing is polled. Otherwise a finished task leaves its slot None and
   * a pending one is back in the same slot. The table never changes length
   * and no other slot changes.
   */
  lemma PollTableSpec(table: Option<seq<Option<Task>>>, handle: nat, ready: bool)
    ensures var r := PollTable(table, handle, ready);
      && r.table.Some? == table.Some?
      && (table.None? || handle == 0 || handle > |table.value| || table.value[handle - 1].None? ==>
            r == TablePoll(Ready, table))
      && (table.Some? && 1 <= handle <= |table.value| && table.value[handle - 1].Some? ==>
            && r.result == (if ready then Ready else Pending)
            && |r.table.value| == |table.value|
            && r.table.value[handle - 1] == (if ready then None else table.value[handle - 1])
            && forall j :: 0 <= j < |table.value| && j != handle - 1 ==> r.table.value[j] == table.value[j])
  {
  }

  // ---------------------------------------------------------------------------
  // The runtime's state
  // ---------------------------------------------------------------------------

  class Runtime {
    var table: Option<seq<Option<Task>>>
    var nextHandle: nat
    var eventPending: nat
    const stack: TaskStack
    const registry: Registry

    ghost predicate Valid()
      reads this, stack, registry
    {
      && stack.Valid() && registry.Valid() && nextHandle >= 1
      && (table.Some? ==> |table.value| < nextHandle)
    }

    constructor ()
      ensures Valid() && fresh(stack) && fresh(registry)
      ensures table.None? && nextHandle == 1 && eventPending == 0
      ensures stack.scheduled == [] && registry.entries == []
    {
      table := None;
      nextHandle := 1;
      eventPending := 0;
      stack := new TaskStack();
      registry := new Registry();
    }

    /**
     * wake_handle: push the handle, then count it in EVENT_PENDING; `signal`
     * says the eventfd is written, which happens only when the count was 0.
     */
    method WakeHandle(handle: nat) returns (signal: bool)
      requires Valid()
      modifies this`eventPending, stack
      ensures Valid()
      ensures stack.scheduled == [handle] + old(stack.scheduled)
      ensures eventPending == old(eventPending) + 1
      ensures signal == (old(eventPending) == 0)
    {
      stack.WakeHandle(handle);
      var prev := eventPending;
      eventPending := prev + 1;
      signal := prev == 0;
    }

    /** take_scheduled_task: the most recently woken handle, if any. */
    method TakeScheduledTask() returns (r: Option<nat>)
      requires Valid()
      modifies stack
      ensures Valid()
      ensures old(stack.scheduled) == [] ==> r.None? && stack.scheduled == []
      ensures old(stack.scheduled) != [] ==>
        r == Some(old(stack.scheduled)[0]) && stack.scheduled == old(stack.scheduled)[1..]
    {
      r := stack.TakeScheduledTask();
    }

    /**
     * register_task: the handle is the next value of NEXT_HANDLE, the task is
     * stored at handle - 1, and the handle is woken.
     */
    method RegisterTask(task: Task) returns (handle: nat, signal: bool)
      requires Valid()
      modifies this`table, this`nextHandle, this`eventPending, stack
      ensures Valid()
      ensures handle == old(nextHandle) && nextHandle == handle + 1
      ensures table == Some(Stored(if old(table).Some? then old(table).value else [], handle - 1, task))
      ensures stack.scheduled == [handle] + old(stack.scheduled)
      ensures eventPending == old(eventPending) + 1 && signal == (old(eventPending) == 0)
    {
      if table.None? {
        table := Some([]);
      }
      var t := table.value;
      handle := nextHandle;
      nextHandle := nextHandle + 1;
      var idx := handle - 1;
      StoredSpec(t, idx, task);
      t := PadAndStore(t, idx, task);
      table := Some(t);
      signal := WakeHandle(handle);
    }

    /** poll_task: take the task out, poll it, and put it back if it is pending. */
    method PollTask(handle: nat, ready: bool) returns (r: Poll)
      requires Valid()
      modifies this`table
      ensures Valid()
      ensures r == PollTable(old(table), handle, ready).result
      ensures table == PollTable(old(table), handle, ready).table
    {
      if table.None? {
        return Ready;
      }
      var t := table.value;
      if handle == 0 || handle - 1 >= |t| || t[handle - 1].None? {
        return Ready;
      }
      var idx := handle - 1;
      var task := t[idx].value;
      table := Some(t[idx := None]);
      if ready {
        return Ready;
      }
      var back := table.value;
      if idx < |back| {
        table := Some(back[idx := Some(task)]);
      }
      assert t[idx := None][idx := Some(task)] == t;
      return Pending;
    }

    /** register_fd_waker of this file: the same code as the registry's. */
    method RegisterFdWaker(fd: int, events: int, waker: Waker)
      requires Valid()
      modifies registry`entries
      ensures Valid()
      ensures registry.entries == Registered(old(registry.entries), fd, events, waker)
    {
      registry.RegisterFdWaker(fd, events, waker);
    }

    /**
     * The dispatch part of ppoll_and_schedule, after ppoll reported events:
     * take the waiters of every ready fd, then wake each of them in turn.
     * The last woken is on top of the schedule stack.
     */
    method DispatchAndWake(evt: int, fds: seq<PollFd>) returns (woken: seq<Waker>)
      requires Valid()
      modifies registry`entries, this`eventPending, stack
      ensures Valid()
      ensures registry.entries == Dispatch(old(registry.entries), AfterEventfd(evt, fds)).0
      ensures woken == Dispatch(old(registry.entries), AfterEventfd(evt, fds)).1
      ensures stack.scheduled == Reverse(woken) + old(stack.scheduled)
      ensures eventPending == old(eventPending) + |woken|
    {
      woken := registry.DispatchReady(evt, fds);
      WakeAll(woken);
    }

    /** `for w in to_wake { w.wake(); }`: wake_handle for each waker in order. */
    method WakeAll(woken: seq<Waker>)
      requires Valid()
      modifies this`eventPending, stack
      ensures Valid()
      ensures stack.scheduled == Reverse(woken) + old(stack.scheduled)
      ensures eventPending == old(eventPending) + |woken|
    {
      var i := 0;
      while i < |woken|
        invariant i <= |woken| && Valid()
        invariant stack.scheduled == Reverse(woken[..i]) + old(stack.scheduled)
        invariant eventPending == old(eventPending) + i
      {
        ReverseSnoc(woken[..i], woken[i]);
        assert woken[..i + 1] == woken[..i] + [woken[i]];
        var _ := WakeHandle(woken[i]);
        i := i + 1;
      }
      assert woken[..i] == woken;
    }
  }

  lemma ReverseSnoc(s: seq<nat>, x: nat)
    ensures Reverse(s + [x]) == [x] + Reverse(s)
  {
    assert forall k :: 0 <= k < |s| + 1 ==> Reverse(s + [x])[k] == ([x] + Reverse(s))[k];
  }

  // ---------------------------------------------------------------------------
  // parse_cstring_usize
  // ---------------------------------------------------------------------------

  /** The parser reads at most this many bytes. */
  const SCAN_LIMIT: nat := 64

  /** The length of the run of digits at the start of mem, counting at most `limit` bytes. */
  function DigitRun(mem: seq<byte>, limit: nat): (r: nat)
    ensures r <= limit && r <= |mem|
    ensures forall i :: 0 <= i < r ==> IsDigit(mem[i])
    ensures r < limit && r < |mem| ==> !IsDigit(mem[r])
  {
    if limit == 0 || mem == [] || !IsDigit(mem[0]) then 0
    else
      var rest := DigitRun(mem[1..], limit - 1);
      assert forall i :: 1 <= i < |mem| ==> mem[i] == mem[1..][i - 1];
      1 + rest
  }

  /**
   * The bytes the parser reads exist: the digit run stops at a byte of mem
   * (a NUL-terminated string always has one) or fills the 64-byte limit.
   */
  predicate Readable(mem: seq<byte>) {
    DigitRun(mem, SCAN_LIMIT) < |mem| || DigitRun(mem, SCAN_LIMIT) == SCAN_LIMIT
  }

  /** parse_cstring_usize on a null pointer (None) or the bytes a pointer points to. */
  function ParsedUsize(s: Option<seq<byte>>): (r: Option<nat>)
    ensures r.Some? <==> s.Some? && |s.value| > 0 && IsDigit(s.value[0])
  {
    if s.None? then None
    else
      var n := DigitRun(s.value, SCAN_LIMIT);
      if n == 0 then None else Some(DigitsValue(s.value[..n]))
  }

  /**
   * parse_cstring_usize: accumulate digits until a NUL, a non-digit or the
   * 64-byte limit. The value is taken to fit in a usize.
   */
  method ParseCStringUsize(s: Option<seq<byte>>) returns (r: Option<nat>)
    requires s.Some? ==> Readable(s.value)
    requires s.Some? ==> DigitsValue(s.value[..DigitRun(s.value, SCAN_LIMIT)]) <= USIZE_MAX
    ensures r == ParsedUsize(s)
  {
    if s.None? {
      return None;
    }
    var mem := s.value;
    var run := DigitRun(mem, SCAN_LIMIT);
    var i, acc, any := 0, 0, false;
    while i < SCAN_LIMIT
      invariant i <= run
      invariant acc == DigitsValue(mem[..i]) && any == (i > 0)
    {
      var c := mem[i];
      if c == 0 || c < ZERO || c > ZERO + 9 {
        break;
      }
      assert mem[..i + 1][..i] == mem[..i];
      any := true;
      acc := acc * 10 + (c - ZERO);
      i := i + 1;
    }
    if any {
      return Some(acc);
    }
    return None;
  }

  /**
   * The parser reads back what format_usize writes: the decimal digits of a
   * usize followed by a NUL parse to the number.
   */
  lemma ParseDecimal(n: nat)
    requires n <= USIZE_MAX
    ensures Readable(Decimal(n) + [0])
    ensures ParsedUsize(Some(Decimal(n) + [0])) == Some(n)
  {
    var d := Decimal(n);
    var mem := d + [0];
    DecimalFitsUsize(n);
    DecimalValue(n);
    var run := DigitRun(mem, SCAN_LIMIT);
    assert mem[|d|] == 0 && !IsDigit(mem[|d|]);
    assert run == |d|;
    assert mem[..run] == d;
  }
}
