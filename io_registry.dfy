/**
 * The fd-to-waiters table of crates/runtime/io_registry.rs (the same code is
 * repeated in crates/runtime/lib.rs): registration of a waker for an fd,
 * removal of an fd, the lazily created eventfd, and the dispatch that follows
 * a ppoll, which takes the waiter lists of the ready fds.
 */
module IoRegistry {
  import opened Bytes

  /** A waker, known by the task handle it schedules when woken. */
  type Waker = nat

  datatype IoEntry = IoEntry(fd: int, events: int, waiters: seq<Waker>)

  /** A pollfd as ppoll filled it in. */
  datatype PollFd = PollFd(fd: int, events: int, revents: int)

  predicate UniqueFds(entries: seq<IoEntry>) {
    forall i, j :: 0 <= i < j < |entries| ==> entries[i].fd != entries[j].fd
  }

  /** The index of the first entry for fd, if any. */
  function FindFd(entries: seq<IoEntry>, fd: int): (r: Option<nat>)
    ensures r.Some? ==> r.value < |entries| && entries[r.value].fd == fd
    ensures forall j :: 0 <= j < |entries| && (r.None? || j < r.value) ==> entries[j].fd != fd
  {
    if entries == [] then None
    else if entries[0].fd == fd then Some(0)
    else match FindFd(entries[1..], fd)
      case None =>
        assert forall j :: 1 <= j < |entries| ==> entries[j] == entries[1..][j - 1];
        None
      case Some(i) =>
        assert forall j :: 1 <= j < |entries| ==> entries[j] == entries[1..][j - 1];
        Some(i + 1)
  }

  /** The number of wakers waiting over the whole table. */
  function WaiterCount(entries: seq<IoEntry>): nat {
    if entries == [] then 0 else |entries[0].waiters| + WaiterCount(entries[1..])
  }

  lemma {:induction false} WaiterCountUpdate(entries: seq<IoEntry>, i: nat, ws: seq<Waker>)
    requires i < |entries|
    ensures WaiterCount(entries[i := entries[i].(waiters := ws)])
      == WaiterCount(entries) - |entries[i].waiters| + |ws|
  {
    if i > 0 {
      WaiterCountUpdate(entries[1..], i - 1, ws);
      assert entries[i := entries[i].(waiters := ws)][1..]
        == entries[1..][i - 1 := entries[1..][i - 1].(waiters := ws)];
    }
  }

  lemma {:induction false} WaiterCountAppend(entries: seq<IoEntry>, e: IoEntry)
    ensures WaiterCount(entries + [e]) == WaiterCount(entries) + |e.waiters|
  {
    if entries != [] {
      WaiterCountAppend(entries[1..], e);
      assert (entries + [e])[1..] == entries[1..] + [e];
    }
  }

  // ---------------------------------------------------------------------------
  // register_fd_waker / unregister_fd
  // ---------------------------------------------------------------------------

  /** The table after register_fd_waker(fd, events, w). */
  function Registered(entries: seq<IoEntry>, fd: int, events: int, w: Waker): (r: seq<IoEntry>)
    ensures |entries| <= |r| <= |entries| + 1
    ensures forall j :: 0 <= j < |entries| ==> r[j].fd == entries[j].fd && r[j].events == entries[j].events
    ensures exists j :: 0 <= j < |r| && r[j].fd == fd && r[j].waiters != [] && r[j].waiters[|r[j].waiters| - 1] == w
  {
    match FindFd(entries, fd)
    case Some(i) =>
      var r := entries[i := entries[i].(waiters := entries[i].waiters + [w])];
      assert r[i].waiters[|r[i].waiters| - 1] == w;
      r
    case None =>
      var r := entries + [IoEntry(fd, events, [w])];
      assert r[|entries|].fd == fd && r[|entries|].waiters == [w];
      r
  }

  /**
   * A waker for an fd already in the table joins the end of that entry's
   * waiters, whose events stay as they were; a new fd gets an entry of its own
   * at the end. Either way fds stay unique, exactly one waiter is added, and
   * every other entry is unchanged.
   */
  lemma RegisteredSpec(entries: seq<IoEntry>, fd: int, events: int, w: Waker)
    requires UniqueFds(entries)
    ensures var r := Registered(entries, fd, events, w);
      && UniqueFds(r)
      && WaiterCount(r) == WaiterCount(entries) + 1
      && (forall j :: 0 <= j < |entries| && entries[j].fd != fd ==> r[j] == entries[j])
      && (forall j :: 0 <= j < |entries| && entries[j].fd == fd ==>
            |r| == |entries| && r[j] == entries[j].(waiters := entries[j].waiters + [w]))
      && ((forall j :: 0 <= j < |entries| ==> entries[j].fd != fd) ==>
            r == entries + [IoEntry(fd, events, [w])])
  {
    match FindFd(entries, fd)
    case Some(i) =>
      WaiterCountUpdate(entries, i, entries[i].waiters + [w]);
    case None =>
      WaiterCountAppend(entries, IoEntry(fd, events, [w]));
  }

  /** The table with every entry for fd removed (Vec::retain). */
  function Without(entries: seq<IoEntry>, fd: int): (r: seq<IoEntry>)
    ensures |r| <= |entries| && (|r| == |entries| <==> forall j :: 0 <= j < |entries| ==> entries[j].fd != fd)
  {
    if entries == [] then []
    else (if entries[0].fd == fd then [] else [entries[0]]) + Without(entries[1..], fd)
  }

  lemma {:induction false} WithoutSnoc(entries: seq<IoEntry>, e: IoEntry, fd: int)
    ensures Without(entries + [e], fd) == Without(entries, fd) + (if e.fd == fd then [] else [e])
  {
    if entries != [] {
      WithoutSnoc(entries[1..], e, fd);
      assert (entries + [e])[1..] == entries[1..] + [e];
    }
  }

  /**
   * unregister_fd keeps exactly the entries for other fds, in their order:
   * an entry survives when it was in the table and is not for fd, the table
   * is untouched when fd had no entry, and fds stay unique. The order: the
   * i-th entry kept is the entry at the i-th position of the table whose fd
   * differs from fd.
   */
  lemma {:induction false} WithoutSpec(entries: seq<IoEntry>, fd: int)
    ensures forall e :: e in Without(entries, fd) <==> e in entries && e.fd != fd
    ensures UniqueFds(entries) ==> UniqueFds(Without(entries, fd))
    ensures (forall j :: 0 <= j < |entries| ==> entries[j].fd != fd) ==> Without(entries, fd) == entries
    ensures var r := Without(entries, fd);
      var at := KeptIndices(entries, fd);
      && |at| == |r|
      && (forall i :: 0 <= i < |at| ==> at[i] < |entries| && r[i] == entries[at[i]])
      && (forall i, k :: 0 <= i < k < |at| ==> at[i] < at[k])
      && (forall j :: 0 <= j < |entries| && entries[j].fd != fd ==> j in at)
  {
    WithoutMembers(entries, fd);
    if UniqueFds(entries) {
      WithoutUnique(entries, fd);
    }
    if forall j :: 0 <= j < |entries| ==> entries[j].fd != fd {
      WithoutNoMatch(entries, fd);
    }
    WithoutInOrder(entries, fd);
  }

  /** The positions of the entries for other fds, in increasing order. */
  function KeptIndices(entries: seq<IoEntry>, fd: int): seq<nat>
    decreases |entries|
  {
    if entries == [] then []
    else
      var n := |entries| - 1;
      KeptIndices(entries[..n], fd) + (if entries[n].fd == fd then [] else [n])
  }

  lemma WithoutInOrder(entries: seq<IoEntry>, fd: int)
    ensures var r := Without(entries, fd);
      var at := KeptIndices(entries, fd);
      && |at| == |r|
      && (forall i :: 0 <= i < |at| ==> at[i] < |entries| && r[i] == entries[at[i]])
      && (forall i, k :: 0 <= i < k < |at| ==> at[i] < at[k])
      && (forall j :: 0 <= j < |entries| && entries[j].fd != fd ==> j in at)
  {
    KeptIndicesSpec(entries, fd);
    WithoutAt(entries, fd);
  }

  /** The kept positions are in range, increasing, and exactly those of the other fds. */
  lemma KeptIndicesSpec(entries: seq<IoEntry>, fd: int)
    ensures var at := KeptIndices(entries, fd);
      && (forall i :: 0 <= i < |at| ==> at[i] < |entries| && entries[at[i]].fd != fd)
      && (forall i, k :: 0 <= i < k < |at| ==> at[i] < at[k])
      && (forall j :: 0 <= j < |entries| && entries[j].fd != fd ==> j in at)
  {
    KeptIndicesIncreasing(entries, fd);
    KeptIndicesComplete(entries, fd);
  }

  lemma {:induction false} KeptIndicesIncreasing(entries: seq<IoEntry>, fd: int)
    ensures forall i :: 0 <= i < |KeptIndices(entries, fd)| ==>
      KeptIndices(entries, fd)[i] < |entries| && entries[KeptIndices(entries, fd)[i]].fd != fd
    ensures forall i, k :: 0 <= i < k < |KeptIndices(entries, fd)| ==>
      KeptIndices(entries, fd)[i] < KeptIndices(entries, fd)[k]
    decreases |entries|
  {
    if entries != [] {
      var n := |entries| - 1;
      var front := entries[..n];
      KeptIndicesIncreasing(front, fd);
      var at, at' := KeptIndices(entries, fd), KeptIndices(front, fd);
      assert at == at' + (if entries[n].fd == fd then [] else [n]);
      forall i | 0 <= i < |at| ensures at[i] < |entries| && entries[at[i]].fd != fd {
        if i < |at'| {
          assert at[i] == at'[i] && front[at'[i]] == entries[at'[i]];
        }
      }
      forall i, k | 0 <= i < k < |at| ensures at[i] < at[k] {
        assert at[i] == at'[i];
        if k >= |at'| {
          assert at'[i] < n;
        }
      }
    }
  }

  lemma {:induction false} KeptIndicesComplete(entries: seq<IoEntry>, fd: int)
    ensures forall j :: 0 <= j < |entries| && entries[j].fd != fd ==> j in KeptIndices(entries, fd)
    decreases |entries|
  {
    if entries != [] {
      var n := |entries| - 1;
      var front := entries[..n];
      KeptIndicesComplete(front, fd);
      var at, at' := KeptIndices(entries, fd), KeptIndices(front, fd);
      assert at == at' + (if entries[n].fd == fd then [] else [n]);
      forall j | 0 <= j < |entries| && entries[j].fd != fd ensures j in at {
        if j < n {
          assert front[j] == entries[j] && j in at';
        }
      }
    }
  }

  /** The i-th entry kept is the entry at the i-th kept position. */
  lemma {:induction false} WithoutAt(entries: seq<IoEntry>, fd: int)
    ensures var r := Without(entries, fd);
      var at := KeptIndices(entries, fd);
      && |at| == |r|
      && (forall i :: 0 <= i < |at| ==> at[i] < |entries| && r[i] == entries[at[i]])
    decreases |entries|
  {
    if entries != [] {
      var n := |entries| - 1;
      var front := entries[..n];
      assert entries == front + [entries[n]];
      WithoutSnoc(front, entries[n], fd);
      WithoutAt(front, fd);
      var r, at := Without(entries, fd), KeptIndices(entries, fd);
      var r', at' := Without(front, fd), KeptIndices(front, fd);
      forall i | 0 <= i < |at| ensures at[i] < |entries| && r[i] == entries[at[i]] {
        if i < |at'| {
          assert at[i] == at'[i] && r[i] == r'[i] && front[at'[i]] == entries[at'[i]];
        }
      }
    }
  }

  lemma {:induction false} WithoutMembers(entries: seq<IoEntry>, fd: int)
    ensures forall e :: e in Without(entries, fd) <==> e in entries && e.fd != fd
  {
    if entries != [] {
      WithoutMembers(entries[1..], fd);
      assert forall e :: e in entries <==> e == entries[0] || e in entries[1..];
    }
  }

  lemma {:induction false} WithoutUnique(entries: seq<IoEntry>, fd: int)
    requires UniqueFds(entries)
    ensures UniqueFds(Without(entries, fd))
  {
    if entries != [] {
      assert UniqueFds(entries[1..]);
      WithoutUnique(entries[1..], fd);
      var tail := Without(entries[1..], fd);
      if entries[0].fd != fd {
        var r := Without(entries, fd);
        assert r == [entries[0]] + tail;
        WithoutMembers(entries[1..], fd);
        forall e | e in tail ensures e.fd != entries[0].fd {
          var j :| 0 <= j < |entries[1..]| && entries[1..][j] == e;
          assert entries[j + 1] == e;
        }
        forall i, j | 0 <= i < j < |r| ensures r[i].fd != r[j].fd {
          assert r[j] == tail[j - 1] && r[j] in tail;
          if i > 0 {
            assert r[i] == tail[i - 1];
          }
        }
      }
    }
  }

  lemma {:induction false} WithoutNoMatch(entries: seq<IoEntry>, fd: int)
    requires forall j :: 0 <= j < |entries| ==> entries[j].fd != fd
    ensures Without(entries, fd) == entries
  {
    if entries != [] {
      assert forall j :: 0 <= j < |entries[1..]| ==> entries[1..][j] == entries[j + 1];
      WithoutNoMatch(entries[1..], fd);
    }
  }

  // ---------------------------------------------------------------------------
  // Dispatch after ppoll
  // ---------------------------------------------------------------------------

  /**
   * One ready fd: the waiter list of its first entry is swapped out for an
   * empty one and returned; with no entry, nothing is taken.
   */
  function Drain(entries: seq<IoEntry>, fd: int): (r: (seq<IoEntry>, seq<Waker>))
    ensures |r.0| == |entries|
    ensures forall j :: 0 <= j < |entries| ==> r.0[j].fd == entries[j].fd && r.0[j].events == entries[j].events
    ensures WaiterCount(r.0) + |r.1| == WaiterCount(entries)
  {
    match FindFd(entries, fd)
    case Some(i) =>
      WaiterCountUpdate(entries, i, []);
      (entries[i := entries[i].(waiters := [])], entries[i].waiters)
    case None => (entries, [])
  }

  /** The table and the wakers to wake after going through the polled fds in order. */
  function Dispatch(entries: seq<IoEntry>, fds: seq<PollFd>): (r: (seq<IoEntry>, seq<Waker>))
    ensures |r.0| == |entries|
    ensures forall j :: 0 <= j < |entries| ==> r.0[j].fd == entries[j].fd && r.0[j].events == entries[j].events
    decreases |fds|
  {
    if fds == [] then (entries, [])
    else
      var first := if fds[0].revents != 0 then Drain(entries, fds[0].fd) else (entries, []);
      var rest := Dispatch(first.0, fds[1..]);
      (rest.0, first.1 + rest.1)
  }

  /**
   * Dispatch never adds or removes an entry and never changes an fd or its
   * events; each entry keeps its waiters or has them all taken, those of every
   * ready fd are taken, and every waiter taken is woken exactly once: the
   * waiters left plus the wakers returned are the waiters there were. More
   * exactly, an entry is emptied when its fd was reported ready and is left
   * as it was otherwise, and the wakers returned are the waiters the ready
   * fds held, in the order ppoll listed the fds.
   */
  lemma {:induction false} DispatchSpec(entries: seq<IoEntry>, fds: seq<PollFd>)
    requires UniqueFds(entries)
    ensures var r := Dispatch(entries, fds);
      && |r.0| == |entries|
      && (forall j :: 0 <= j < |entries| ==>
            r.0[j].fd == entries[j].fd && r.0[j].events == entries[j].events
            && (r.0[j].waiters == entries[j].waiters || r.0[j].waiters == []))
      && (forall k, j ::
            0 <= k < |fds| && 0 <= j < |entries| && fds[k].revents != 0 && entries[j].fd == fds[k].fd
            ==> r.0[j].waiters == [])
      && WaiterCount(r.0) + |r.1| == WaiterCount(entries)
    ensures var r := Dispatch(entries, fds);
      && (forall j :: 0 <= j < |entries| && entries[j].fd !in ReadyFds(fds) ==> r.0[j] == entries[j])
      && r.1 == ReadyWaiters(entries, fds, {})
  {
    DispatchCounts(entries, fds);
    DispatchEmpties(entries, entries, fds, {});
    assert {} + ReadyFds(fds) == ReadyFds(fds);
  }

  lemma {:induction false} DispatchCounts(entries: seq<IoEntry>, fds: seq<PollFd>)
    requires UniqueFds(entries)
    ensures var r := Dispatch(entries, fds);
      && (forall j :: 0 <= j < |entries| ==> r.0[j].waiters == entries[j].waiters || r.0[j].waiters == [])
      && (forall k, j ::
            0 <= k < |fds| && 0 <= j < |entries| && fds[k].revents != 0 && entries[j].fd == fds[k].fd
            ==> r.0[j].waiters == [])
      && WaiterCount(r.0) + |r.1| == WaiterCount(entries)
    decreases |fds|
  {
    if fds != [] {
      var first := if fds[0].revents != 0 then Drain(entries, fds[0].fd) else (entries, []);
      DrainSpec(entries, fds[0].fd, fds[0].revents != 0);
      DispatchCounts(first.0, fds[1..]);
      assert forall k :: 1 <= k < |fds| ==> fds[k] == fds[1..][k - 1];
    }
  }

  /**
   * One polled fd: when it is ready, its entry's waiter list is taken whole and
   * left empty; every other entry, and the whole table when the fd is not
   * ready or has no entry, stays as it was.
   */
  lemma DrainSpec(entries: seq<IoEntry>, fd: int, ready: bool)
    requires UniqueFds(entries)
    ensures var r := if ready then Drain(entries, fd) else (entries, []);
      && |r.0| == |entries| && UniqueFds(r.0)
      && (forall j :: 0 <= j < |entries| ==>
            r.0[j].fd == entries[j].fd && r.0[j].events == entries[j].events
            && (r.0[j].waiters == entries[j].waiters || r.0[j].waiters == []))
      && (ready ==> forall j :: 0 <= j < |entries| && entries[j].fd == fd ==> r.0[j].waiters == [])
      && WaiterCount(r.0) + |r.1| == WaiterCount(entries)
    ensures var r := if ready then Drain(entries, fd) else (entries, []);
      && (forall j :: 0 <= j < |entries| && (!ready || entries[j].fd != fd) ==> r.0[j] == entries[j])
      && (forall j :: 0 <= j < |entries| && ready && entries[j].fd == fd ==> r.1 == entries[j].waiters)
      && ((forall j :: 0 <= j < |entries| ==> entries[j].fd != fd) ==> r == (entries, []))
  {
    if ready {
      match FindFd(entries, fd)
      case Some(i) =>
        WaiterCountUpdate(entries, i, []);
      case None =>
    }
  }

  /** The fds ppoll reported ready. */
  function ReadyFds(fds: seq<PollFd>): set<int> {
    set k | 0 <= k < |fds| && fds[k].revents != 0 :: fds[k].fd
  }

  lemma ReadyFdsCons(fds: seq<PollFd>)
    requires fds != []
    ensures ReadyFds(fds) == (if fds[0].revents != 0 then {fds[0].fd} else {}) + ReadyFds(fds[1..])
  {
    var tail := fds[1..];
    forall fd | fd in ReadyFds(fds)
      ensures fd in (if fds[0].revents != 0 then {fds[0].fd} else {}) + ReadyFds(tail)
    {
      var k :| 0 <= k < |fds| && fds[k].revents != 0 && fds[k].fd == fd;
      if k > 0 {
        assert tail[k - 1] == fds[k];
      }
    }
    forall fd | fd in ReadyFds(tail) ensures fd in ReadyFds(fds) {
      var k :| 0 <= k < |tail| && tail[k].revents != 0 && tail[k].fd == fd;
      assert fds[k + 1] == tail[k];
    }
  }

  /** The waiters of the first entry for fd, or none when fd has no entry. */
  function Held(entries: seq<IoEntry>, fd: int): seq<Waker> {
    match FindFd(entries, fd)
    case Some(i) => entries[i].waiters
    case None => []
  }

  /**
   * The wakers a dispatch should return, read off the table as it was before:
   * the waiters each ready fd held, in the order of `fds`, an fd that is in
   * `taken` or was listed earlier contributing nothing more.
   */
  function ReadyWaiters(entries: seq<IoEntry>, fds: seq<PollFd>, taken: set<int>): seq<Waker>
    decreases |fds|
  {
    if fds == [] then []
    else if fds[0].revents != 0 && fds[0].fd !in taken then
      Held(entries, fds[0].fd) + ReadyWaiters(entries, fds[1..], taken + {fds[0].fd})
    else ReadyWaiters(entries, fds[1..], taken)
  }

  /** `now` is `entries` with the waiters of every fd in `gone` taken. */
  predicate EmptiedFor(entries: seq<IoEntry>, now: seq<IoEntry>, gone: set<int>) {
    |now| == |entries|
    && forall j :: 0 <= j < |entries| ==>
         now[j] == if entries[j].fd in gone then entries[j].(waiters := []) else entries[j]
  }

  /** Tables with the same fds at the same places find an fd at the same index. */
  lemma FindFdSameFds(a: seq<IoEntry>, b: seq<IoEntry>, fd: int)
    requires |a| == |b| && forall j :: 0 <= j < |a| ==> a[j].fd == b[j].fd
    ensures FindFd(a, fd) == FindFd(b, fd)
  {
    var ra, rb := FindFd(a, fd), FindFd(b, fd);
    if ra.Some? && rb.Some? {
      assert !(ra.value < rb.value) && !(rb.value < ra.value);
    }
  }

  /**
   * Dispatching over a table whose fds in `taken` are already emptied empties
   * the ready fds too and returns what they held before.
   */
  lemma {:induction false} DispatchEmpties(entries: seq<IoEntry>, now: seq<IoEntry>, fds: seq<PollFd>, taken: set<int>)
    requires UniqueFds(entries) && EmptiedFor(entries, now, taken)
    ensures EmptiedFor(entries, Dispatch(now, fds).0, taken + ReadyFds(fds))
    ensures Dispatch(now, fds).1 == ReadyWaiters(entries, fds, taken)
    decreases |fds|
  {
    if fds == [] {
      assert taken + ReadyFds(fds) == taken;
    } else {
      var fd := fds[0].fd;
      ReadyFdsCons(fds);
      FindFdSameFds(entries, now, fd);
      if fds[0].revents != 0 {
        var d := Drain(now, fd);
        assert EmptiedFor(entries, d.0, taken + {fd});
        assert d.1 == if fd in taken then [] else Held(entries, fd);
        DispatchEmpties(entries, d.0, fds[1..], taken + {fd});
        assert taken + {fd} + ReadyFds(fds[1..]) == taken + ReadyFds(fds);
        if fd in taken {
          assert taken + {fd} == taken;
          assert Dispatch(now, fds).1 == [] + Dispatch(d.0, fds[1..]).1;
        }
      } else {
        DispatchEmpties(entries, now, fds[1..], taken);
        assert Dispatch(now, fds).1 == [] + Dispatch(now, fds[1..]).1;
      }
    }
  }

  lemma DispatchAt(entries: seq<IoEntry>, fds: seq<PollFd>, i: nat)
    requires i < |fds|
    ensures var first := if fds[i].revents != 0 then Drain(entries, fds[i].fd) else (entries, []);
      var rest := Dispatch(first.0, fds[i + 1..]);
      Dispatch(entries, fds[i..]).0 == rest.0 && Dispatch(entries, fds[i..]).1 == first.1 + rest.1
  {
    assert fds[i..][0] == fds[i] && fds[i..][1..] == fds[i + 1..];
  }

  /** The pollfds after the eventfd's own slot, which ppoll_and_schedule skips. */
  function AfterEventfd(evt: int, fds: seq<PollFd>): seq<PollFd> {
    if evt >= 0 && fds != [] then fds[1..] else fds
  }

  // ---------------------------------------------------------------------------
  // The registry
  // ---------------------------------------------------------------------------

  /** IO_REG and EVENTFD. */
  class Registry {
    var entries: seq<IoEntry>
    var eventfd: int

    ghost predicate Valid()
      reads this
    {
      UniqueFds(entries) && eventfd >= -1
    }

    constructor ()
      ensures Valid() && entries == [] && eventfd == -1
    {
      entries := [];
      eventfd := -1;
    }

    /**
     * ensure_eventfd, with `created` the result the eventfd system call would
     * give: the stored fd once there is one, otherwise the new fd is stored
     * and returned, and -1 when creation fails.
     */
    method EnsureEventfd(created: int) returns (r: int)
      requires Valid()
      modifies this`eventfd
      ensures Valid()
      ensures old(eventfd) >= 0 ==> r == old(eventfd) && eventfd == old(eventfd)
      ensures old(eventfd) < 0 && created >= 0 ==> r == created && eventfd == created
      ensures old(eventfd) < 0 && created < 0 ==> r == -1 && eventfd == old(eventfd)
    {
      var cur := eventfd;
      if cur >= 0 {
        return cur;
      }
      if created >= 0 {
        if eventfd == -1 {
          eventfd := created;
        }
        return eventfd;
      }
      return -1;
    }

    /** close_eventfd: the stored fd is closed and forgotten. */
    method CloseEventfd()
      requires Valid()
      modifies this`eventfd
      ensures Valid() && eventfd == -1
    {
      eventfd := -1;
    }

    /** register_fd_waker: a linear search for the fd, then push onto its waiters or push a new entry. */
    method RegisterFdWaker(fd: int, events: int, waker: Waker)
      requires Valid()
      modifies this`entries
      ensures Valid()
      ensures entries == Registered(old(entries), fd, events, waker)
    {
      RegisteredSpec(entries, fd, events, waker);
      var found := FindEntry(entries, fd);
      match found
      case Some(i) =>
        entries := entries[i := entries[i].(waiters := entries[i].waiters + [waker])];
      case None =>
        entries := entries + [IoEntry(fd, events, [waker])];
    }

    /**
     * unregister_fd: retain the entries for other fds, then signal the eventfd
     * (created on demand from `created`) so that a blocked ppoll sees the new table.
     */
    method UnregisterFd(fd: int, created: int)
      requires Valid()
      modifies this
      ensures Valid()
      ensures entries == Without(old(entries), fd)
      ensures old(eventfd) >= 0 ==> eventfd == old(eventfd)
      ensures old(eventfd) < 0 ==> eventfd == if created >= 0 then created else old(eventfd)
    {
      WithoutUnique(entries, fd);
      entries := Retain(entries, fd);
      var _ := EnsureEventfd(created);
    }

    /**
     * The dispatch part of ppoll_and_schedule: for each polled fd after the
     * eventfd's slot whose revents is nonzero, the waiters of its entry are
     * swapped out for an empty list; the wakers taken are returned, in order,
     * to be woken.
     */
    method DispatchReady(evt: int, fds: seq<PollFd>) returns (woken: seq<Waker>)
      requires Valid()
      modifies this`entries
      ensures Valid()
      ensures entries == Dispatch(old(entries), AfterEventfd(evt, fds)).0
      ensures woken == Dispatch(old(entries), AfterEventfd(evt, fds)).1
    {
      DispatchSpec(entries, AfterEventfd(evt, fds));
      var table;
      table, woken := DispatchFrom(entries, evt, fds);
      entries := table;
    }
  }

  /** The loop of register_fd_waker and of the dispatch: the first entry for fd. */
  method FindEntry(entries: seq<IoEntry>, fd: int) returns (found: Option<nat>)
    ensures found == FindFd(entries, fd)
  {
    var i := 0;
    while i < |entries|
      invariant i <= |entries|
      invariant forall j :: 0 <= j < i ==> entries[j].fd != fd
    {
      if entries[i].fd == fd {
        return Some(i);
      }
      i := i + 1;
    }
    return None;
  }

  /** Vec::retain with the predicate `e.fd != fd`. */
  method Retain(entries: seq<IoEntry>, fd: int) returns (kept: seq<IoEntry>)
    ensures kept == Without(entries, fd)
  {
    kept := [];
    var i := 0;
    while i < |entries|
      invariant i <= |entries|
      invariant kept == Without(entries[..i], fd)
    {
      WithoutSnoc(entries[..i], entries[i], fd);
      assert entries[..i + 1] == entries[..i] + [entries[i]];
      if entries[i].fd != fd {
        kept := kept + [entries[i]];
      }
      i := i + 1;
    }
    assert entries[..i] == entries;
  }

  /** The dispatch loop over the pollfds, each ready fd's waiters swapped out in turn. */
  /** One ready fd in the dispatch loop: find its entry and swap its waiter list out. */
  method TakeWaiters(table: seq<IoEntry>, fd: int) returns (table': seq<IoEntry>, taken: seq<Waker>)
    ensures (table', taken) == Drain(table, fd)
  {
    var found := FindEntry(table, fd);
    table', taken := table, [];
    if found.Some? {
      var k := found.value;
      taken := table[k].waiters;
      table' := table[k := table[k].(waiters := [])];
    }
  }

  lemma WakersAppend(a: seq<Waker>, b: seq<Waker>, c: seq<Waker>)
    ensures a + (b + c) == (a + b) + c
  {
  }

  method DispatchFrom(entries: seq<IoEntry>, evt: int, fds: seq<PollFd>)
    returns (table: seq<IoEntry>, woken: seq<Waker>)
    ensures table == Dispatch(entries, AfterEventfd(evt, fds)).0
    ensures woken == Dispatch(entries, AfterEventfd(evt, fds)).1
  {
    var start := if evt >= 0 && fds != [] then 1 else 0;
    assert fds[start..] == AfterEventfd(evt, fds);
    table, woken := entries, [];
    var i := start;
    while i < |fds|
      invariant start <= i <= |fds|
      invariant Dispatch(entries, fds[start..]).0 == Dispatch(table, fds[i..]).0
      invariant Dispatch(entries, fds[start..]).1 == woken + Dispatch(table, fds[i..]).1
    {
      ghost var t0 := table;
      DispatchAt(t0, fds, i);
      if fds[i].revents != 0 {
        var taken;
        table, taken := TakeWaiters(table, fds[i].fd);
        WakersAppend(woken, taken, Dispatch(table, fds[i + 1..]).1);
        woken := woken + taken;
      } else {
        WakersAppend(woken, [], Dispatch(table, fds[i + 1..]).1);
      }
      i := i + 1;
    }
    assert fds[i..] == [] && woken + [] == woken;
  }
}
