/**
 * The task bookkeeping of crates/runtime/scheduler.rs: MAX_TASK_SLOTS slots,
 * each a generation counter and an optional task; FREE_SLOTS, the stack of
 * slots emptied by a finished task; handles that pack a slot index above the
 * low 32 bits of a generation; and the stack of scheduled handles with its
 * bounded pool of spare nodes. Spinlocks, atomics and CAS retry loops are
 * single sequential steps here.
 */
module Scheduler {
  import opened Bytes
  import opened Tasks

  const MAX_TASK_SLOTS: nat := 1024
  const FREELIST_MAX: nat := 256
  /** 2^32: a handle keeps the generation's low 32 bits below the slot index. */
  const GEN_RANGE: nat := 0x1_0000_0000

  // ---------------------------------------------------------------------------
  // Handles
  // ---------------------------------------------------------------------------

  /** `(slot << 32) | (generation & 0xFFFFFFFF)`. */
  function Handle(slot: nat, gen: nat): (h: nat)
    ensures h / GEN_RANGE == slot && h % GEN_RANGE == gen % GEN_RANGE
  {
    var h := slot * GEN_RANGE + gen % GEN_RANGE;
    DivUnique(h, GEN_RANGE, slot);
    h
  }

  /** `(handle >> 32) & 0x3FF`. */
  function HandleSlot(h: nat): nat {
    (h / GEN_RANGE) % MAX_TASK_SLOTS
  }

  /** `handle & 0xFFFFFFFF`. */
  function HandleGen(h: nat): nat {
    h % GEN_RANGE
  }

  /**
   * A handle for one of the MAX_TASK_SLOTS slots fits in 64 bits, and
   * decoding it gives back the slot and the generation's low 32 bits.
   */
  lemma HandleRoundTrip(slot: nat, gen: nat)
    requires slot < MAX_TASK_SLOTS
    ensures Handle(slot, gen) < 0x1_0000_0000_0000_0000
    ensures HandleSlot(Handle(slot, gen)) == slot
    ensures HandleGen(Handle(slot, gen)) == gen % GEN_RANGE
  {
    var h := Handle(slot, gen);
    DivUnique(h, GEN_RANGE, slot);
    assert h == (h / GEN_RANGE) * GEN_RANGE + h % GEN_RANGE;
  }

  // ---------------------------------------------------------------------------
  // Slots
  // ---------------------------------------------------------------------------

  datatype Slot = Slot(generation: nat, task: Option<Task>)

  /** The table the first registration creates: every slot at generation 0 and empty. */
  function EmptySlots(): (r: seq<Slot>)
    ensures |r| == MAX_TASK_SLOTS && forall i :: 0 <= i < |r| ==> r[i] == Slot(0, None)
  {
    seq(MAX_TASK_SLOTS, _ => Slot(0, None))
  }

  predicate Distinct(s: seq<nat>) {
    forall i, j :: 0 <= i < j < |s| ==> s[i] != s[j]
  }

  /** FREE_SLOTS holds distinct indices of the table, each of an empty slot. */
  predicate TableInvariant(slots: seq<Slot>, free: seq<nat>) {
    && |slots| == MAX_TASK_SLOTS
    && Distinct(free)
    && forall k :: 0 <= k < |free| ==> free[k] < |slots| && slots[free[k]].task.None?
  }

  /** The lowest-index empty slot, if any. */
  function FirstEmpty(slots: seq<Slot>): (r: Option<nat>)
    ensures r.Some? ==> r.value < |slots| && slots[r.value].task.None?
    ensures forall j :: 0 <= j < |slots| && (r.None? || j < r.value) ==> slots[j].task.Some?
  {
    if slots == [] then None
    else if slots[0].task.None? then Some(0)
    else match FirstEmpty(slots[1..])
      case None =>
        assert forall j :: 1 <= j < |slots| ==> slots[j] == slots[1..][j - 1];
        None
      case Some(i) =>
        assert forall j :: 1 <= j < |slots| ==> slots[j] == slots[1..][j - 1];
        Some(i + 1)
  }

  /** The slot register_task takes: the top of FREE_SLOTS, else the lowest empty slot. */
  function ChooseSlot(slots: seq<Slot>, free: seq<nat>): Option<nat> {
    if free != [] then Some(free[|free| - 1]) else FirstEmpty(slots)
  }

  datatype Registration = Registration(handle: Option<nat>, slots: seq<Slot>, free: seq<nat>)

  /**
   * register_task on an initialised table. The generation is incremented and
   * its old value goes into the handle; no handle (None) is the panic
   * "No free task slots".
   */
  function Register(slots: seq<Slot>, free: seq<nat>, task: Task): (r: Registration)
    requires TableInvariant(slots, free)
    ensures |r.slots| == |slots| && |r.free| <= |free|
    ensures r.handle.None? ==> r.slots == slots && r.free == free
    ensures r.handle.Some? ==>
      HandleSlot(r.handle.value) < |slots| && r.slots[HandleSlot(r.handle.value)].task == Some(task)
  {
    match ChooseSlot(slots, free)
    case None => Registration(None, slots, free)
    case Some(i) =>
      Registration(
        Some(Handle(i, slots[i].generation)),
        slots[i := Slot(slots[i].generation + 1, Some(task))],
        if free != [] then free[..|free| - 1] else free)
  }

  /**
   * Registration fails only when FREE_SLOTS is empty and every slot holds a
   * task. Otherwise the slot taken is the top of FREE_SLOTS or, with
   * FREE_SLOTS empty, the lowest empty slot; it was empty and now holds the
   * task, its generation went up by one, the handle carries the old
   * generation, no other slot changed, and the invariant still holds.
   */
  lemma RegisterSpec(slots: seq<Slot>, free: seq<nat>, task: Task)
    requires TableInvariant(slots, free)
    ensures var r := Register(slots, free, task);
      && TableInvariant(r.slots, r.free)
      && (r.handle.None? <==> free == [] && forall j :: 0 <= j < |slots| ==> slots[j].task.Some?)
      && (r.handle.None? ==> r.slots == slots && r.free == free)
      && (r.handle.Some? ==>
            var i := ChooseSlot(slots, free).value;
            && i < |slots| && slots[i].task.None?
            && (free != [] ==> i == free[|free| - 1] && r.free == free[..|free| - 1])
            && (free == [] ==> forall j :: 0 <= j < i ==> slots[j].task.Some?)
            && r.handle.value == Handle(i, slots[i].generation)
            && r.slots[i] == Slot(slots[i].generation + 1, Some(task))
            && forall j :: 0 <= j < |slots| && j != i ==> r.slots[j] == slots[j])
  {
    var r := Register(slots, free, task);
    if free != [] {
      var i := free[|free| - 1];
      forall k | 0 <= k < |r.free| ensures r.free[k] != i {
        assert r.free[k] == free[k];
      }
    }
  }

  /** Whether a slot's current generation accepts a handle's: equal, or one ahead. */
  predicate Accepts(current: nat, handleGen: nat) {
    current == handleGen || current == handleGen + 1
  }

  datatype Polled = Polled(result: Poll, slots: seq<Slot>, free: seq<nat>)

  /**
   * poll_task_safe, with `ready` what polling the task would return. The
   * decoded slot is always below MAX_TASK_SLOTS, so the range check of the
   * source never fires.
   */
  function PollSafe(slots: seq<Slot>, free: seq<nat>, handle: nat, ready: bool): (r: Polled)
    requires |slots| == MAX_TASK_SLOTS
    ensures |r.slots| == |slots| && forall j :: 0 <= j < |slots| ==> r.slots[j].generation == slots[j].generation
    ensures r.result == Pending ==> r.slots == slots && r.free == free
  {
    var i := HandleSlot(handle);
    if !Accepts(slots[i].generation, HandleGen(handle)) || slots[i].task.None? then
      Polled(Ready, slots, free)
    else if ready then
      Polled(Ready, slots[i := slots[i].(task := None)], free + [i])
    else
      Polled(Pending, slots, free)
  }

  /**
   * A handle whose generation the slot does not accept, or whose slot is
   * empty, gives Ready without polling and changes nothing. A task that
   * finishes leaves its slot empty and the slot's index on top of
   * FREE_SLOTS; a pending task stays. Generations never change and the
   * invariant still holds.
   */
  lemma PollSafeSpec(slots: seq<Slot>, free: seq<nat>, handle: nat, ready: bool)
    requires TableInvariant(slots, free)
    ensures var r := PollSafe(slots, free, handle, ready);
      var i := HandleSlot(handle);
      && TableInvariant(r.slots, r.free)
      && (!Accepts(slots[i].generation, HandleGen(handle)) || slots[i].task.None? ==>
            r == Polled(Ready, slots, free))
      && (Accepts(slots[i].generation, HandleGen(handle)) && slots[i].task.Some? ==>
            if ready then
              && r.result == Ready && r.free == free + [i]
              && r.slots == slots[i := Slot(slots[i].generation, None)]
            else r == Polled(Pending, slots, free))
      && forall j :: 0 <= j < |slots| ==> r.slots[j].generation == slots[j].generation
  {
    var i := HandleSlot(handle);
    if Accepts(slots[i].generation, HandleGen(handle)) && slots[i].task.Some? && ready {
      var r := PollSafe(slots, free, handle, ready);
      forall k | 0 <= k < |free| ensures free[k] != i {
      }
      forall k | 0 <= k < |r.free| ensures r.free[k] < |r.slots| && r.slots[r.free[k]].task.None? {
        if k < |free| {
          assert r.free[k] == free[k];
        }
      }
    }
  }

  /**
   * A fresh handle reaches its task: right after registration the slot it
   * names holds the task and accepts its generation (while generations stay
   * below 2^32), so polling it polls the task.
   */
  lemma FreshHandleAccepted(slots: seq<Slot>, free: seq<nat>, task: Task, ready: bool)
    requires TableInvariant(slots, free)
    requires Register(slots, free, task).handle.Some?
    requires slots[ChooseSlot(slots, free).value].generation < GEN_RANGE
    ensures var r := Register(slots, free, task);
      var h := r.handle.value;
      && r.slots[HandleSlot(h)].task == Some(task)
      && PollSafe(r.slots, r.free, h, ready).result == (if ready then Ready else Pending)
  {
    RegisterSpec(slots, free, task);
    var i := ChooseSlot(slots, free).value;
    HandleRoundTrip(i, slots[i].generation);
  }

  /**
   * A stale handle is turned away: once the slot it names has been registered
   * again, its generation is two or more past the handle's, and polling the
   * old handle returns Ready without polling and changes nothing.
   */
  lemma StaleHandleRejected(slots: seq<Slot>, free: seq<nat>, task: Task,
                            later: seq<Slot>, laterFree: seq<nat>, ready: bool)
    requires TableInvariant(slots, free)
    requires Register(slots, free, task).handle.Some?
    requires slots[ChooseSlot(slots, free).value].generation < GEN_RANGE
    requires |later| == MAX_TASK_SLOTS
    requires var i := ChooseSlot(slots, free).value;
      later[i].generation >= Register(slots, free, task).slots[i].generation + 1
    ensures var h := Register(slots, free, task).handle.value;
      PollSafe(later, laterFree, h, ready) == Polled(Ready, later, laterFree)
  {
    RegisterSpec(slots, free, task);
    var i := ChooseSlot(slots, free).value;
    HandleRoundTrip(i, slots[i].generation);
  }

  /**
   * Once a slot's generation has reached 2^32, a fresh handle for it is turned
   * away: the handle keeps only the low 32 bits of the generation while the
   * slot's generation is compared in full, so polling the handle returns Ready
   * without polling, and the task stays in its slot, never polled and never
   * freed.
   */
  lemma WrappedGenerationRejected(slots: seq<Slot>, free: seq<nat>, task: Task, ready: bool)
    requires TableInvariant(slots, free)
    requires Register(slots, free, task).handle.Some?
    requires slots[ChooseSlot(slots, free).value].generation >= GEN_RANGE
    ensures var r := Register(slots, free, task);
      var h := r.handle.value;
      && r.slots[HandleSlot(h)].task == Some(task)
      && PollSafe(r.slots, r.free, h, ready) == Polled(Ready, r.slots, r.free)
  {
    RegisterSpec(slots, free, task);
    var i := ChooseSlot(slots, free).value;
    HandleRoundTrip(i, slots[i].generation);
  }

  // ---------------------------------------------------------------------------
  // SLOTS and FREE_SLOTS
  // ---------------------------------------------------------------------------

  class SlotScheduler {
    var slots: Option<seq<Slot>>
    var freeSlots: seq<nat>

    ghost predicate Valid()
      reads this
    {
      match slots
      case None => freeSlots == []
      case Some(t) => TableInvariant(t, freeSlots)
    }

    constructor ()
      ensures Valid() && slots.None? && freeSlots == []
    {
      slots := None;
      freeSlots := [];
    }

    /**
     * register_task: create the slots on first use, choose a slot, bump its
     * generation and store the task. A None handle is the panic.
     */
    method RegisterTask(task: Task) returns (handle: Option<nat>)
      requires Valid()
      modifies this
      ensures Valid() && slots.Some?
      ensures var r := Register(if old(slots).Some? then old(slots).value else EmptySlots(), old(freeSlots), task);
        handle == r.handle && slots.value == r.slots && freeSlots == r.free
    {
      if slots.None? {
        var created := NewSlots();
        slots := Some(created);
      }
      var t := slots.value;
      RegisterSpec(t, freeSlots, task);
      var idx: nat;
      if freeSlots != [] {
        idx := freeSlots[|freeSlots| - 1];
        freeSlots := freeSlots[..|freeSlots| - 1];
      } else {
        var found := FindEmptySlot(t);
        if found.None? {
          return None;
        }
        idx := found.value;
      }
      var gen := t[idx].generation;
      slots := Some(t[idx := Slot(gen + 1, Some(task))]);
      handle := Some(Handle(idx, gen));
    }

    /** poll_task_safe, with `ready` what polling the task would return. */
    method PollTaskSafe(handle: nat, ready: bool) returns (r: Poll)
      requires Valid() && slots.Some?
      modifies this
      ensures Valid() && slots.Some?
      ensures var p := PollSafe(old(slots).value, old(freeSlots), handle, ready);
        r == p.result && slots.value == p.slots && freeSlots == p.free
    {
      var t := slots.value;
      PollSafeSpec(t, freeSlots, handle, ready);
      var idx := (handle / GEN_RANGE) % MAX_TASK_SLOTS;
      var gen := handle % GEN_RANGE;
      var current := t[idx].generation;
      if current != gen && current != gen + 1 {
        return Ready;
      }
      if t[idx].task.None? {
        return Ready;
      }
      if ready {
        slots := Some(t[idx := t[idx].(task := None)]);
        freeSlots := freeSlots + [idx];
        return Ready;
      }
      return Pending;
    }
  }

  /** The loop that pushes MAX_TASK_SLOTS new slots. */
  method NewSlots() returns (v: seq<Slot>)
    ensures v == EmptySlots()
  {
    v := [];
    while |v| < MAX_TASK_SLOTS
      invariant |v| <= MAX_TASK_SLOTS
      invariant forall k :: 0 <= k < |v| ==> v[k] == Slot(0, None)
    {
      v := v + [Slot(0, None)];
    }
  }

  /** The scan for the lowest-index slot whose task is None. */
  method FindEmptySlot(slots: seq<Slot>) returns (found: Option<nat>)
    ensures found == FirstEmpty(slots)
  {
    var i := 0;
    while i < |slots|
      invariant i <= |slots|
      invariant forall j :: 0 <= j < i ==> slots[j].task.Some?
    {
      if slots[i].task.None? {
        return Some(i);
      }
      i := i + 1;
    }
    return None;
  }

  // ---------------------------------------------------------------------------
  // The schedule stack and the node free-list
  // ---------------------------------------------------------------------------

  /**
   * SCHEDULE_HEAD and FREELIST_HEAD/FREELIST_COUNT. The scheduled handles are
   * listed from the head; a node is known only by whether it is pooled, so the
   * free-list is its length.
   */
  class TaskStack {
    var scheduled: seq<nat>
    var pooled: nat

    ghost predicate Valid()
      reads this
    {
      pooled <= FREELIST_MAX
    }

    constructor ()
      ensures Valid() && scheduled == [] && pooled == 0
    {
      scheduled := [];
      pooled := 0;
    }

    /** alloc_node: reuse the head of the free-list, else allocate a new node. */
    method AllocNode()
      requires Valid()
      modifies this`pooled
      ensures Valid()
      ensures pooled == if old(pooled) > 0 then old(pooled) - 1 else 0
    {
      if pooled > 0 {
        pooled := pooled - 1;
      }
    }

    /** free_node: pool the node while fewer than FREELIST_MAX are pooled, else free it. */
    method FreeNode()
      requires Valid()
      modifies this`pooled
      ensures Valid()
      ensures pooled == if old(pooled) < FREELIST_MAX then old(pooled) + 1 else old(pooled)
    {
      if pooled < FREELIST_MAX {
        pooled := pooled + 1;
      }
    }

    /** wake_handle without its eventfd signal: push a node for the handle. */
    method WakeHandle(handle: nat)
      requires Valid()
      modifies this
      ensures Valid()
      ensures scheduled == [handle] + old(scheduled)
      ensures pooled == if old(pooled) > 0 then old(pooled) - 1 else 0
    {
      AllocNode();
      scheduled := [handle] + scheduled;
    }

    /** take_scheduled_task: pop the most recently woken handle and recycle its node. */
    method TakeScheduledTask() returns (r: Option<nat>)
      requires Valid()
      modifies this
      ensures Valid()
      ensures old(scheduled) == [] ==> r.None? && scheduled == [] && pooled == old(pooled)
      ensures old(scheduled) != [] ==>
        && r == Some(old(scheduled)[0]) && scheduled == old(scheduled)[1..]
        && pooled == if old(pooled) < FREELIST_MAX then old(pooled) + 1 else old(pooled)
    {
      if scheduled == [] {
        return None;
      }
      var handle := scheduled[0];
      scheduled := scheduled[1..];
      FreeNode();
      return Some(handle);
    }
  }
}
