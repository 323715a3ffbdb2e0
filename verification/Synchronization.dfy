/** The synchronization manager: epoll event queues and futex waiters. */
module Synchronization {
  import opened Common
  import opened Errors
  import opened IntrusiveQueues

  const LINUX_EPOLL_CTL_ADD := 1
  const LINUX_EPOLL_CTL_DEL := 2
  const LINUX_EPOLL_CTL_MOD := 3
  const INVALID_PROCESS_ID := 0xFF

  datatype Watch = Watch(fd: nat, events: nat, userData: nat)

  datatype EventQueue = EventQueue(processId: nat, fd: nat, flags: nat, watches: seq<Watch>)

  datatype FutexWaiter = FutexWaiter(processId: nat, address: nat)

  // ---- event queues as values ----

  ghost predicate UniqueWatches(ws: seq<Watch>) {
    forall i, j | 0 <= i < j < |ws| :: ws[i].fd != ws[j].fd
  }

  ghost predicate SameKey(q: EventQueue, r: EventQueue) {
    q.processId == r.processId && q.fd == r.fd
  }

  /** One queue for each process and descriptor, one watch for each descriptor in a queue. */
  ghost predicate WellKeyed(qs: seq<EventQueue>) {
    && (forall i, j | 0 <= i < j < |qs| :: !SameKey(qs[i], qs[j]))
    && (forall i | 0 <= i < |qs| :: UniqueWatches(qs[i].watches))
  }

  ghost predicate OwnsNone(qs: seq<EventQueue>, processId: nat) {
    forall i | 0 <= i < |qs| :: qs[i].processId != processId
  }

  /** A copy of each queue of the source process, in order, for the destination process. */
  function Copies(qs: seq<EventQueue>, source: nat, dest: nat): seq<EventQueue> {
    if qs == [] then []
    else
      var last := qs[|qs| - 1];
      Copies(qs[..|qs| - 1], source, dest) + (if last.processId == source then [last.(processId := dest)] else [])
  }

  /** Every copy stems from a queue of the source process. */
  lemma {:induction false} CopiesOrigin(qs: seq<EventQueue>, source: nat, dest: nat, c: nat) returns (k: nat)
    requires c < |Copies(qs, source, dest)|
    ensures k < |qs| && qs[k].processId == source && Copies(qs, source, dest)[c] == qs[k].(processId := dest)
    decreases |qs|
  {
    var last := |qs| - 1;
    if c < |Copies(qs[..last], source, dest)| {
      k := CopiesOrigin(qs[..last], source, dest, c);
    } else {
      k := last;
    }
  }

  /** Every queue of the source process has its copy. */
  lemma {:induction false} CopiesComplete(qs: seq<EventQueue>, source: nat, dest: nat, k: nat) returns (c: nat)
    requires k < |qs| && qs[k].processId == source
    ensures c < |Copies(qs, source, dest)| && Copies(qs, source, dest)[c] == qs[k].(processId := dest)
    decreases |qs|
  {
    var last := |qs| - 1;
    if k == last {
      c := |Copies(qs[..last], source, dest)|;
    } else {
      c := CopiesComplete(qs[..last], source, dest, k);
    }
  }

  /** The copies of two stretches of queues follow each other as the stretches do. */
  lemma {:induction false} CopiesSplit(a: seq<EventQueue>, b: seq<EventQueue>, source: nat, dest: nat)
    ensures Copies(a + b, source, dest) == Copies(a, source, dest) + Copies(b, source, dest)
    decreases |b|
  {
    if b == [] {
      assert a + b == a;
    } else {
      assert (a + b)[..|a + b| - 1] == a + b[..|b| - 1];
      CopiesSplit(a, b[..|b| - 1], source, dest);
    }
  }

  lemma {:induction false} CopiesWellKeyed(qs: seq<EventQueue>, source: nat, dest: nat)
    requires WellKeyed(qs)
    ensures WellKeyed(Copies(qs, source, dest))
    decreases |qs|
  {
    if qs != [] {
      var last := |qs| - 1;
      var front := qs[..last];
      CopiesWellKeyed(front, source, dest);
      var cs := Copies(front, source, dest);
      forall c: nat | c < |cs|
        ensures qs[last].processId == source ==> cs[c].fd != qs[last].fd
      {
        var k := CopiesOrigin(front, source, dest, c);
        assert front[k] == qs[k] && !SameKey(qs[k], qs[last]);
      }
    }
  }

  /** Appending the copies keeps the keys unique when the destination owned no queue. */
  lemma DuplicateWellKeyed(qs: seq<EventQueue>, source: nat, dest: nat)
    requires WellKeyed(qs) && OwnsNone(qs, dest)
    ensures WellKeyed(qs + Copies(qs, source, dest))
    ensures forall c | 0 <= c < |Copies(qs, source, dest)| :: Copies(qs, source, dest)[c].processId == dest
  {
    var cs := Copies(qs, source, dest);
    CopiesWellKeyed(qs, source, dest);
    forall c: nat | c < |cs|
      ensures cs[c].processId == dest
    {
      var _ := CopiesOrigin(qs, source, dest, c);
    }
  }

  /** The store after the walk has passed its first i entries, appended copies included. */
  ghost predicate Walked(qs: seq<EventQueue>, vals: seq<EventQueue>, i: nat, source: nat, dest: nat) {
    vals == qs + Copies(qs[..if i < |qs| then i else |qs|], source, dest)
  }

  /** Passing entry i: an entry of the source is one of the first ones and gets its copy appended. */
  lemma WalkStep(qs: seq<EventQueue>, vals: seq<EventQueue>, i: nat, source: nat, dest: nat)
    requires source != dest && Walked(qs, vals, i, source, dest) && i < |vals|
    ensures vals[i].processId == source ==>
      i < |qs| && Walked(qs, vals + [vals[i].(processId := dest)], i + 1, source, dest)
    ensures vals[i].processId != source ==> Walked(qs, vals, i + 1, source, dest)
  {
    if i < |qs| {
      assert qs[..i + 1][..i] == qs[..i];
    } else {
      assert qs[..|qs|] == qs;
      var _ := CopiesOrigin(qs, source, dest, i - |qs|);
    }
  }

  lemma WalkEnds(qs: seq<EventQueue>, vals: seq<EventQueue>, i: nat, source: nat, dest: nat)
    ensures Walked(qs, qs, 0, source, dest)
    ensures i >= |qs| && Walked(qs, vals, i, source, dest) ==> vals == qs + Copies(qs, source, dest)
  {
    assert qs[..|qs|] == qs;
  }

  // ---- watch lists ----

  /** The position of the watch for a descriptor, or the length. */
  function WatchAt(ws: seq<Watch>, fd: nat): (k: nat)
    ensures k <= |ws| && (k < |ws| ==> ws[k].fd == fd)
    ensures forall j | 0 <= j < k :: ws[j].fd != fd
  {
    if ws == [] || ws[0].fd == fd then 0 else 1 + WatchAt(ws[1..], fd)
  }

  function Watched(ws: seq<Watch>, fd: nat): Option<Watch> {
    var k := WatchAt(ws, fd);
    if k < |ws| then Some(ws[k]) else None
  }

  datatype Controlled = Controlled(code: int, watches: seq<Watch>)

  function Control(ws: seq<Watch>, operation: int, fd: nat, events: nat, userData: nat): Controlled {
    var k := WatchAt(ws, fd);
    if operation == LINUX_EPOLL_CTL_ADD then
      if k < |ws| then Controlled(EEXIST, ws) else Controlled(0, ws + [Watch(fd, events, userData)])
    else if operation == LINUX_EPOLL_CTL_DEL then
      if k == |ws| then Controlled(ENOENT, ws) else Controlled(0, ws[..k] + ws[k + 1..])
    else if operation == LINUX_EPOLL_CTL_MOD then
      if k == |ws| then Controlled(ENOENT, ws) else Controlled(0, ws[k := Watch(fd, events, userData)])
    else Controlled(EINVAL, ws)
  }

  lemma WatchUnique(ws: seq<Watch>, k: nat)
    requires UniqueWatches(ws) && k < |ws|
    ensures WatchAt(ws, ws[k].fd) == k
  {
  }

  lemma AddedWatch(ws: seq<Watch>, w: Watch, other: nat)
    requires UniqueWatches(ws) && WatchAt(ws, w.fd) == |ws|
    ensures UniqueWatches(ws + [w]) && Watched(ws + [w], w.fd) == Some(w)
    ensures other != w.fd ==> Watched(ws + [w], other) == Watched(ws, other)
  {
    WatchUnique(ws + [w], |ws|);
    var o := WatchAt(ws, other);
    if o < |ws| { WatchUnique(ws + [w], o); }
  }

  lemma DeletedWatch(ws: seq<Watch>, k: nat, other: nat)
    requires UniqueWatches(ws) && k < |ws|
    ensures UniqueWatches(ws[..k] + ws[k + 1..]) && Watched(ws[..k] + ws[k + 1..], ws[k].fd) == None
    ensures other != ws[k].fd ==> Watched(ws[..k] + ws[k + 1..], other) == Watched(ws, other)
  {
    var r := ws[..k] + ws[k + 1..];
    assert forall j | 0 <= j < |r| :: r[j] == if j < k then ws[j] else ws[j + 1];
    var o := WatchAt(ws, other);
    if other != ws[k].fd && o < |ws| {
      WatchUnique(r, if o < k then o else o - 1);
    }
  }

  lemma ChangedWatch(ws: seq<Watch>, k: nat, w: Watch, other: nat)
    requires UniqueWatches(ws) && k < |ws| && w.fd == ws[k].fd
    ensures UniqueWatches(ws[k := w]) && Watched(ws[k := w], w.fd) == Some(w)
    ensures other != w.fd ==> Watched(ws[k := w], other) == Watched(ws, other)
  {
    WatchUnique(ws[k := w], k);
    var o := WatchAt(ws, other);
    if other != w.fd && o < |ws| { WatchUnique(ws[k := w], o); }
  }

  /** A control operation changes the watch of its own descriptor only, and keeps descriptors unique. */
  lemma ControlMeaning(ws: seq<Watch>, operation: int, fd: nat, events: nat, userData: nat, other: nat)
    requires UniqueWatches(ws)
    ensures var r := Control(ws, operation, fd, events, userData);
      && UniqueWatches(r.watches)
      && (other != fd ==> Watched(r.watches, other) == Watched(ws, other))
      && (r.code == 0 <==>
            if Watched(ws, fd).None? then operation == LINUX_EPOLL_CTL_ADD
            else operation in {LINUX_EPOLL_CTL_DEL, LINUX_EPOLL_CTL_MOD})
      && Watched(r.watches, fd) ==
         (if r.code != 0 then Watched(ws, fd)
          else if operation == LINUX_EPOLL_CTL_DEL then None
          else Some(Watch(fd, events, userData)))
      // which error it is otherwise
      && (r.code == EEXIST <==> operation == LINUX_EPOLL_CTL_ADD && Watched(ws, fd).Some?)
      && (r.code == ENOENT <==> operation in {LINUX_EPOLL_CTL_DEL, LINUX_EPOLL_CTL_MOD} && Watched(ws, fd).None?)
      && (r.code == EINVAL <==> operation !in {LINUX_EPOLL_CTL_ADD, LINUX_EPOLL_CTL_DEL, LINUX_EPOLL_CTL_MOD})
      // a new watch is the last, a changed one keeps its place, and the others keep their order
      && (r.code != 0 ==> r.watches == ws)
      && (r.code == 0 && operation == LINUX_EPOLL_CTL_ADD ==> r.watches == ws + [Watch(fd, events, userData)])
      && (r.code == 0 && operation == LINUX_EPOLL_CTL_DEL ==>
          exists k: nat | k < |ws| :: ws[k].fd == fd && r.watches == ws[..k] + ws[k + 1..])
      && (r.code == 0 && operation == LINUX_EPOLL_CTL_MOD ==>
          exists k: nat | k < |ws| :: ws[k].fd == fd && r.watches == ws[k := Watch(fd, events, userData)])
  {
    var k := WatchAt(ws, fd);
    if k == |ws| {
      AddedWatch(ws, Watch(fd, events, userData), other);
    } else {
      DeletedWatch(ws, k, other);
      ChangedWatch(ws, k, Watch(fd, events, userData), other);
    }
    hide UniqueWatches, WatchAt;
  }

  lemma Rewatched(qs: seq<EventQueue>, k: nat, operation: int, fd: nat, events: nat, userData: nat)
    requires WellKeyed(qs) && k < |qs|
    ensures var r := Control(qs[k].watches, operation, fd, events, userData);
      WellKeyed(qs[k := qs[k].(watches := r.watches)])
  {
    hide Control, UniqueWatches;
    ControlMeaning(qs[k].watches, operation, fd, events, userData, fd);
    var r := Control(qs[k].watches, operation, fd, events, userData);
    var qs' := qs[k := qs[k].(watches := r.watches)];
    forall i, j | 0 <= i < j < |qs'|
      ensures !SameKey(qs'[i], qs'[j])
    {
      assert !SameKey(qs[i], qs[j]);
    }
  }

  // ---- futex waiters ----

  /** The waiters of all other processes, in order. */
  function Others(ws: seq<FutexWaiter>, processId: nat): seq<FutexWaiter> {
    if ws == [] then []
    else
      var last := ws[|ws| - 1];
      Others(ws[..|ws| - 1], processId) + (if last.processId == processId then [] else [last])
  }

  /** What is kept of two stretches of waiters follows each other as the stretches do; of one, all or nothing. */
  lemma {:induction false} OthersSplit(a: seq<FutexWaiter>, b: seq<FutexWaiter>, processId: nat)
    ensures Others(a + b, processId) == Others(a, processId) + Others(b, processId)
    ensures |a| == 1 ==> Others(a, processId) == if a[0].processId == processId then [] else a
    decreases |b|
  {
    if b == [] {
      assert a + b == a;
    } else {
      assert (a + b)[..|a + b| - 1] == a + b[..|b| - 1];
      OthersSplit(a, b[..|b| - 1], processId);
    }
  }

  /** A process waits on one address at a time. */
  ghost predicate OneWaitEach(ws: seq<FutexWaiter>) {
    forall i, j | 0 <= i < j < |ws| :: ws[i].processId != ws[j].processId
  }

  lemma {:induction false} OthersKeep(ws: seq<FutexWaiter>, processId: nat)
    requires OneWaitEach(ws)
    ensures OneWaitEach(Others(ws, processId))
    ensures forall w :: w in Others(ws, processId) <==> w in ws && w.processId != processId
    decreases |ws|
  {
    if ws != [] {
      var last := |ws| - 1;
      OthersKeep(ws[..last], processId);
      assert ws == ws[..last] + [ws[last]];
      var os := Others(ws[..last], processId);
      forall i | 0 <= i < |os|
        ensures os[i].processId != ws[last].processId
      {
        assert os[i] in os;
      }
    }
  }

  lemma WaitsOnce(ws: seq<FutexWaiter>, processId: nat, address: nat)
    requires OneWaitEach(ws)
    ensures OneWaitEach(Others(ws, processId) + [FutexWaiter(processId, address)])
  {
    OthersKeep(ws, processId);
    assert forall i | 0 <= i < |Others(ws, processId)| :: Others(ws, processId)[i] in Others(ws, processId);
  }

  /** The walk has dealt with the first j of ws; the first i of vs are what it kept of them. */
  ghost predicate Filtering(ws: seq<FutexWaiter>, vs: seq<FutexWaiter>, i: nat, j: nat, processId: nat) {
    i <= |vs| && j <= |ws| && vs[..i] == Others(ws[..j], processId) && vs[i..] == ws[j..]
  }

  lemma FilterStep(ws: seq<FutexWaiter>, vs: seq<FutexWaiter>, i: nat, j: nat, processId: nat)
    requires Filtering(ws, vs, i, j, processId) && i < |vs|
    ensures j < |ws| && vs[i] == ws[j]
    ensures if vs[i].processId == processId then Filtering(ws, vs[..i] + vs[i + 1..], i, j + 1, processId)
            else Filtering(ws, vs, i + 1, j + 1, processId)
  {
    assert vs[i] == vs[i..][0] == ws[j..][0];
    assert ws[..j + 1][..j] == ws[..j];
    assert vs[i + 1..] == vs[i..][1..] == ws[j..][1..] == ws[j + 1..];
    var cut := vs[..i] + vs[i + 1..];
    assert cut[..i] == vs[..i] && cut[i..] == vs[i + 1..];
    assert vs[..i + 1] == vs[..i] + [vs[i]];
  }

  lemma FilterEnds(ws: seq<FutexWaiter>, vs: seq<FutexWaiter>, i: nat, j: nat, processId: nat)
    ensures Filtering(ws, ws, 0, 0, processId)
    ensures Filtering(ws, vs, i, j, processId) && i >= |vs| ==> vs == Others(ws, processId)
  {
    if Filtering(ws, vs, i, j, processId) && i >= |vs| {
      assert vs[i..] == [] && ws[j..] == [];
      assert vs[..i] == vs && ws[..j] == ws;
    }
  }

  class SynchronizationManager {
    const eventQueues: IntrusiveQueue<EventQueue>
    const futexWaiters: IntrusiveQueue<FutexWaiter>

    ghost predicate Valid()
      reads eventQueues, eventQueues.Nodes(), futexWaiters, futexWaiters.Nodes()
    {
      && eventQueues.Valid() && WellKeyed(eventQueues.Values())
      && futexWaiters.Valid() && OneWaitEach(futexWaiters.Values())
    }

    constructor ()
      ensures Valid() && eventQueues.Values() == [] && futexWaiters.Values() == []
    {
      eventQueues := new IntrusiveQueue();
      futexWaiters := new IntrusiveQueue();
    }

    /** Give the destination process a copy of every event queue of the source process. */
    method DuplicateEventQueuesForProcess(source: nat, dest: nat)
      requires eventQueues.Valid() && WellKeyed(eventQueues.Values())
      requires source != dest && OwnsNone(eventQueues.Values(), dest)
      modifies eventQueues, eventQueues.Nodes()`next
      ensures eventQueues.Valid() && WellKeyed(eventQueues.Values())
      ensures old(eventQueues.nodes) <= eventQueues.nodes
      ensures eventQueues.Values() == old(eventQueues.Values()) + Copies(old(eventQueues.Values()), source, dest)
    {
      hide WellKeyed, OwnsNone, NoDuplicates, Walked, Copies, IntrusiveQueue.Valid, IntrusiveQueue.Values;
      ghost var qs := eventQueues.Values();
      DuplicateWellKeyed(qs, source, dest);
      WalkEnds(qs, qs, 0, source, dest);
      var cursor := eventQueues.Head();
      ghost var i := 0;
      while cursor != null
        invariant eventQueues.Valid() && fresh(eventQueues.Nodes() - old(eventQueues.Nodes()))
        invariant old(eventQueues.nodes) <= eventQueues.nodes
        invariant if cursor == null then i >= |qs| else i < |eventQueues.nodes| && cursor == eventQueues.nodes[i]
        invariant Walked(qs, eventQueues.Values(), i, source, dest)
        invariant i <= |eventQueues.nodes| && |qs| <= |eventQueues.nodes|
        decreases if i < |qs| then |qs| - i else 0, |eventQueues.nodes| - i
      {
        cursor := DuplicateOne(cursor, qs, i, source, dest);
        i := i + 1;
      }
      WalkEnds(qs, eventQueues.Values(), i, source, dest);
    }

    /** One step of the walk: read the link first, then append the copy if the entry is the source's. */
    method DuplicateOne(queue: Node<EventQueue>, ghost qs: seq<EventQueue>, ghost i: nat, source: nat, dest: nat)
      returns (next: Node?<EventQueue>)
      requires eventQueues.Valid() && i < |eventQueues.nodes| && queue == eventQueues.nodes[i]
      requires source != dest && |qs| <= |eventQueues.nodes| && Walked(qs, eventQueues.Values(), i, source, dest)
      modifies eventQueues, eventQueues.Nodes()`next
      ensures eventQueues.Valid() && fresh(eventQueues.Nodes() - old(eventQueues.Nodes()))
      ensures old(eventQueues.nodes) <= eventQueues.nodes
      ensures Walked(qs, eventQueues.Values(), i + 1, source, dest)
      ensures i >= |qs| ==> eventQueues.nodes == old(eventQueues.nodes)
      ensures next == EntryAt(old(eventQueues.nodes), i + 1)
    {
      hide NoDuplicates, Walked, IntrusiveQueue.Valid, IntrusiveQueue.Values;
      WalkStep(qs, eventQueues.Values(), i, source, dest);
      next := eventQueues.Next(queue, i);
      var q := queue.value;
      assert q == eventQueues.Values()[i];
      if q.processId == source {
        var watches := CopyWatches(q.watches);
        var _ := eventQueues.Append(EventQueue(dest, q.fd, q.flags, watches));
      }
    }

    /** Copy a watch list watch by watch. */
    static method CopyWatches(watches: seq<Watch>) returns (copy: seq<Watch>)
      ensures copy == watches
    {
      copy := [];
      for i := 0 to |watches|
        invariant copy == watches[..i]
      {
        copy := copy + [Watch(watches[i].fd, watches[i].events, watches[i].userData)];
      }
    }

    /** A new empty event queue, unless the process already has one with this descriptor. */
    method CreateEventQueue(processId: nat, fd: nat, flags: nat) returns (ok: bool)
      requires eventQueues.Valid() && WellKeyed(eventQueues.Values())
      modifies eventQueues, eventQueues.Nodes()`next
      ensures eventQueues.Valid() && WellKeyed(eventQueues.Values())
      ensures ok <==> forall q | q in old(eventQueues.Values()) :: !(q.processId == processId && q.fd == fd)
      ensures eventQueues.Values() ==
        old(eventQueues.Values()) + if ok then [EventQueue(processId, fd, flags, [])] else []
    {
      hide IntrusiveQueue.Valid, IntrusiveQueue.Values;
      var found, _ := eventQueues.FindFirst((q: EventQueue) => (q.processId, q.fd), (processId, fd));
      if found != null {
        return false;
      }
      var _ := eventQueues.Append(EventQueue(processId, fd, flags, []));
      return true;
    }

    /** Add, remove or change the watch of a descriptor in an event queue. */
    method ControlEventQueue(processId: nat, epollFd: nat, operation: int, fd: nat, events: nat, userData: nat)
      returns (code: int, ghost k: nat)
      requires eventQueues.Valid() && WellKeyed(eventQueues.Values())
      modifies eventQueues.Nodes()`value
      ensures eventQueues.Valid() && WellKeyed(eventQueues.Values())
      ensures fd == epollFd ==> code == EINVAL && eventQueues.Values() == old(eventQueues.Values())
      ensures fd != epollFd && k == |old(eventQueues.Values())| ==>
        && code == ENOENT && eventQueues.Values() == old(eventQueues.Values())
        && forall q | q in old(eventQueues.Values()) :: !(q.processId == processId && q.fd == epollFd)
      ensures fd != epollFd && k != |old(eventQueues.Values())| ==>
        var qs := old(eventQueues.Values());
        && k < |qs| && qs[k].processId == processId && qs[k].fd == epollFd
        && var r := Control(qs[k].watches, operation, fd, events, userData);
           code == r.code && eventQueues.Values() == qs[k := qs[k].(watches := r.watches)]
    {
      hide IntrusiveQueue.Valid, IntrusiveQueue.Values, Control, WellKeyed;
      ghost var qs := eventQueues.Values();
      k := |qs|;
      if fd == epollFd {
        return EINVAL, k;
      }
      var node;
      node, k := eventQueues.FindFirst((q: EventQueue) => (q.processId, q.fd), (processId, epollFd));
      if node == null {
        return ENOENT, k;
      }
      var r := Control(node.value.watches, operation, fd, events, userData);
      Rewatched(qs, k, operation, fd, events, userData);
      SetValue(node, k, node.value.(watches := r.watches));
      return r.code, k;
    }

    method SetValue(node: Node<EventQueue>, ghost k: nat, value: EventQueue)
      requires eventQueues.Valid() && k < |eventQueues.nodes| && node == eventQueues.nodes[k]
      modifies node`value
      ensures eventQueues.Valid() && eventQueues.Values() == old(eventQueues.Values())[k := value]
    {
      OthersDiffer(eventQueues.nodes, k);
      node.value := value;
    }

    /** Remove every waiter of a process while walking the queue. */
    method RemoveFutexWaitersForProcess(processId: nat)
      requires futexWaiters.Valid()
      modifies futexWaiters, futexWaiters.Nodes()`next
      ensures futexWaiters.Valid() && fresh(futexWaiters.Nodes() - old(futexWaiters.Nodes()))
      ensures futexWaiters.Values() == Others(old(futexWaiters.Values()), processId)
    {
      hide IntrusiveQueue.Valid, IntrusiveQueue.Values, Others;
      ghost var ws := futexWaiters.Values();
      FilterEnds(ws, ws, 0, 0, processId);
      var cursor := futexWaiters.Head();
      ghost var i, j := 0, 0;
      while cursor != null
        invariant futexWaiters.Valid() && fresh(futexWaiters.Nodes() - old(futexWaiters.Nodes()))
        invariant j <= |ws| && cursor == EntryAt(futexWaiters.nodes, i)
        invariant Filtering(ws, futexWaiters.Values(), i, j, processId)
        decreases |ws| - j
      {
        ghost var removed;
        cursor, removed := FilterOne(cursor, ws, i, j, processId);
        i := if removed then i else i + 1;
        j := j + 1;
      }
      FilterEnds(ws, futexWaiters.Values(), i, j, processId);
    }

    method FilterOne(node: Node<FutexWaiter>, ghost ws: seq<FutexWaiter>, ghost i: nat, ghost j: nat, processId: nat)
      returns (next: Node?<FutexWaiter>, ghost removed: bool)
      requires futexWaiters.Valid() && i < |futexWaiters.nodes| && node == futexWaiters.nodes[i]
      requires Filtering(ws, futexWaiters.Values(), i, j, processId)
      modifies futexWaiters, futexWaiters.Nodes()`next
      ensures futexWaiters.Valid() && fresh(futexWaiters.Nodes() - old(futexWaiters.Nodes()))
      ensures j < |ws| && Filtering(ws, futexWaiters.Values(), if removed then i else i + 1, j + 1, processId)
      ensures next == EntryAt(futexWaiters.nodes, if removed then i else i + 1)
    {
      hide Filtering, Others, IntrusiveQueue.Valid, IntrusiveQueue.Values;
      FilterStep(ws, futexWaiters.Values(), i, j, processId);
      removed := false;
      next := futexWaiters.Next(node, i);
      if node.value.processId == processId {
        next := futexWaiters.RemoveEntry(node, i);
        removed := true;
      }
    }

    /** Queue a process for an address, in place of any earlier wait of it. */
    method AddFutexWaiter(processId: nat, address: nat)
      requires futexWaiters.Valid() && OneWaitEach(futexWaiters.Values())
      modifies futexWaiters, futexWaiters.Nodes()`next
      ensures futexWaiters.Valid() && OneWaitEach(futexWaiters.Values())
      ensures futexWaiters.Values() ==
        Others(old(futexWaiters.Values()), processId) + [FutexWaiter(processId, address)]
    {
      hide IntrusiveQueue.Valid, IntrusiveQueue.Values, OneWaitEach;
      WaitsOnce(futexWaiters.Values(), processId, address);
      RemoveFutexWaitersForProcess(processId);
      var _ := futexWaiters.Append(FutexWaiter(processId, address));
    }

    /** Take the longest waiter of an address off the queue and return its process. */
    method WakeSingleFutexWaiter(address: nat) returns (processId: nat, ghost k: nat)
      requires futexWaiters.Valid() && OneWaitEach(futexWaiters.Values())
      modifies futexWaiters, futexWaiters.Nodes()`next
      ensures futexWaiters.Valid() && OneWaitEach(futexWaiters.Values())
      ensures k <= |old(futexWaiters.Values())|
      ensures forall j | 0 <= j < k :: old(futexWaiters.Values())[j].address != address
      ensures var ws := old(futexWaiters.Values());
        if k == |ws| then processId == INVALID_PROCESS_ID && futexWaiters.Values() == ws
        else ws[k] == FutexWaiter(processId, address) && futexWaiters.Values() == ws[..k] + ws[k + 1..]
    {
      hide IntrusiveQueue.Valid, IntrusiveQueue.Values;
      var node;
      node, k := futexWaiters.FindFirst((w: FutexWaiter) => w.address, address);
      if node == null {
        return INVALID_PROCESS_ID, k;
      }
      processId := node.value.processId;
      var _ := futexWaiters.RemoveEntry(node, k);
    }
  }
}
