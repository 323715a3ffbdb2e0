/** The round-robin scheduler: a ready queue and a pointer to the process that runs. */
module Scheduling {
  import opened IntrusiveQueues

  const PROCESS_ID_INVALID := 0xFF

  // ---- the scheduler as a value ----

  /** The ready entries in order, and whether the first of them is the current one. */
  datatype Schedule<E> = Schedule(queue: seq<E>, running: bool)

  function Select<E>(s: Schedule<E>): Schedule<E> {
    if s.queue == [] then s
    else if !s.running then s.(running := true)
    else Schedule(s.queue[1..] + [s.queue[0]], true)
  }

  function RemoveAt<E>(s: Schedule<E>, k: nat): Schedule<E>
    requires k < |s.queue|
  {
    Schedule(s.queue[..k] + s.queue[k + 1..], s.running && k != 0)
  }

  /** Position k is the first that holds the process. */
  ghost predicate FirstAt(s: seq<Node<nat>>, k: nat, id: nat)
    reads set n | n in s
  {
    k < |s| && s[k].value == id && forall j | 0 <= j < k :: s[j].value != id
  }

  class Scheduler {
    const readyQueue: IntrusiveQueue<nat>
    var currentProcess: Node?<nat>

    ghost predicate Valid()
      reads this, readyQueue, readyQueue.Nodes()
    {
      readyQueue.Valid() && (currentProcess == null || currentProcess == EntryAt(readyQueue.nodes, 0))
    }

    ghost function State(): Schedule<Node<nat>>
      reads this, readyQueue
    {
      Schedule(readyQueue.nodes, currentProcess != null)
    }

    constructor ()
      ensures Valid() && State() == Schedule([], false) && fresh(readyQueue)
    {
      readyQueue := new IntrusiveQueue();
      currentProcess := null;
    }

    method AddToReadyQueue(id: nat) returns (ghost tag: Node<nat>)
      requires Valid()
      modifies readyQueue, readyQueue.Nodes()`next
      ensures Valid()
      ensures fresh(tag) && tag.value == id
      ensures State() == old(State()).(queue := old(readyQueue.nodes) + [tag])
    {
      var newTag := readyQueue.Append(id);
      tag := newTag;
    }

    method RemoveFromReadyQueue(id: nat) returns (removed: bool, ghost k: nat)
      requires Valid()
      modifies this, readyQueue, readyQueue.Nodes()`next
      ensures Valid()
      ensures !removed ==> State() == old(State()) && forall n | n in readyQueue.nodes :: n.value != id
      ensures removed ==> FirstAt(old(readyQueue.nodes), k, id) && State() == RemoveAt(old(State()), k)
      // just that entry is gone, and none is current any more if it was
      ensures removed ==>
        && readyQueue.nodes == old(readyQueue.nodes)[..k] + old(readyQueue.nodes)[k + 1..]
        && currentProcess == (if k == 0 then null else old(currentProcess))
    {
      var node;
      node, k := readyQueue.FindFirst(x => x, id);
      if node == null {
        assert forall i | 0 <= i < |readyQueue.nodes| :: readyQueue.Values()[i] == readyQueue.nodes[i].value;
        return false, 0;
      }
      Discard(node, k);
      return true, k;
    }

    /** Take a queued entry out; if it was the current one, none is current any more. */
    method Discard(node: Node<nat>, ghost k: nat)
      requires Valid() && k < |readyQueue.nodes| && readyQueue.nodes[k] == node
      modifies this, readyQueue, readyQueue.Nodes()`next
      ensures Valid() && State() == RemoveAt(old(State()), k)
      ensures currentProcess == if k == 0 then null else old(currentProcess)
    {
      hide IntrusiveQueue.Valid;
      OnlyPosition(readyQueue, k);
      var next := readyQueue.RemoveEntry(node, k);
      Forget(node, next, k);
    }

    /** Clear the current pointer if it points at the removed entry. */
    method Forget(node: Node<nat>, next: Node?<nat>, ghost k: nat)
      requires readyQueue.Valid() && (next == null ==> k == |readyQueue.nodes|)
      requires currentProcess == node ==> k == 0
      requires currentProcess != node ==>
        currentProcess == null || (k > 0 && currentProcess == EntryAt(readyQueue.nodes, 0))
      modifies this`currentProcess
      ensures Valid() && (currentProcess != null <==> old(currentProcess) != null && k != 0)
      ensures currentProcess == if k == 0 then null else old(currentProcess)
    {
      if currentProcess == node {
        currentProcess := if next != null then null else readyQueue.head;
      }
      var empty := readyQueue.IsEmpty();
      if empty {
        currentProcess := null;
      }
    }

    lemma OnlyPosition(q: IntrusiveQueue<nat>, k: nat)
      requires q.Valid() && k < |q.nodes|
      ensures q.nodes[k] == q.nodes[0] ==> k == 0
    {
    }

    method SelectNextProcess() returns (id: nat)
      requires Valid()
      modifies this, readyQueue, readyQueue.Nodes()`next
      ensures Valid() && State() == Select(old(State()))
      ensures id == if old(readyQueue.nodes) == [] then PROCESS_ID_INVALID else currentProcess.value
      ensures old(readyQueue.nodes) != [] ==> currentProcess == readyQueue.nodes[0]
      // the entry that was current moves behind all others, and none is lost
      ensures old(readyQueue.nodes) == [] || old(currentProcess) == null ==> readyQueue.nodes == old(readyQueue.nodes)
      ensures old(readyQueue.nodes) != [] && old(currentProcess) != null ==>
        readyQueue.nodes == old(readyQueue.nodes)[1..] + [old(currentProcess)]
      ensures multiset(readyQueue.nodes) == multiset(old(readyQueue.nodes))
    {
      SelectKeeps(State());

      var empty := readyQueue.IsEmpty();
      if empty {
        return PROCESS_ID_INVALID;
      }
      if currentProcess == null {
        currentProcess := readyQueue.head;
        return currentProcess.value;
      }
      assert readyQueue.nodes[0].next == EntryAt(readyQueue.nodes, 1);
      if readyQueue.head == currentProcess && currentProcess.next == null {
        return currentProcess.value;
      }
      readyQueue.RotateFrontToBack();
      currentProcess := readyQueue.head;
      return currentProcess.value;
    }
  }

  // ---- runs ----

  datatype Event<E> = Added(entry: E) | Removed(position: nat) | Selected

  function Step<E>(s: Schedule<E>, ev: Event<E>): Schedule<E> {
    match ev
    case Added(e) => s.(queue := s.queue + [e])
    case Removed(k) => if k < |s.queue| then RemoveAt(s, k) else s
    case Selected => Select(s)
  }

  function Run<E>(s: Schedule<E>, events: seq<Event<E>>): Schedule<E>
    decreases |events|
  {
    if events == [] then s else Run(Step(s, events[0]), events[1..])
  }

  function Selections<E>(events: seq<Event<E>>): nat {
    if events == [] then 0 else (if events[0].Selected? then 1 else 0) + Selections(events[1..])
  }

  /** Every removal along the run takes out some other entry than t. */
  predicate Spares<E(==)>(s: Schedule<E>, events: seq<Event<E>>, t: E)
    decreases |events|
  {
    events == [] ||
    ((events[0].Removed? && events[0].position < |s.queue| ==> s.queue[events[0].position] != t)
     && Spares(Step(s, events[0]), events[1..], t))
  }

  function Position<E(==)>(s: seq<E>, t: E): (k: nat)
    requires t in s
    ensures k < |s| && s[k] == t && t !in s[..k]
  {
    if s[0] == t then 0 else 1 + Position(s[1..], t)
  }

  /** How many selections t can still be made to wait. */
  function Wait<E(==)>(s: Schedule<E>, t: E): nat
    requires t in s.queue
  {
    Position(s.queue, t) + if s.running then 0 else 1
  }

  // ---- no entry is lost ----

  /** A selection keeps every entry as often as it was queued. */
  lemma SelectKeeps<E>(s: Schedule<E>)
    ensures multiset(Select(s).queue) == multiset(s.queue)
  {
    if s.queue != [] {
      assert s.queue == [s.queue[0]] + s.queue[1..];
    }
  }

  /** A removal takes the entry at its position once, and nothing else. */
  lemma RemoveAtTakesOne<E>(s: Schedule<E>, k: nat)
    requires k < |s.queue|
    ensures multiset(RemoveAt(s, k).queue) + multiset{s.queue[k]} == multiset(s.queue)
  {
    assert s.queue == s.queue[..k] + [s.queue[k]] + s.queue[k + 1..];
  }

  /** The entries a run adds. */
  function Joined<E>(events: seq<Event<E>>): multiset<E> {
    if events == [] then multiset{}
    else (if events[0].Added? then multiset{events[0].entry} else multiset{}) + Joined(events[1..])
  }

  /** The entries a run removes. */
  function Left<E>(s: Schedule<E>, events: seq<Event<E>>): multiset<E>
    decreases |events|
  {
    if events == [] then multiset{}
    else
      var ev := events[0];
      (if ev.Removed? && ev.position < |s.queue| then multiset{s.queue[ev.position]} else multiset{})
      + Left(Step(s, ev), events[1..])
  }

  /** Over any run, what is queued in the end and what was removed is what was queued at first and what was added. */
  lemma {:induction false} EntriesConserved<E>(s: Schedule<E>, events: seq<Event<E>>, t: E)
    ensures multiset(Run(s, events).queue)[t] + Left(s, events)[t] == multiset(s.queue)[t] + Joined(events)[t]
    decreases |events|
  {
    if events != [] {
      var ev := events[0];
      EntriesConserved(Step(s, ev), events[1..], t);
      match ev {
        case Added(e) => assert multiset(s.queue + [e]) == multiset(s.queue) + multiset{e};
        case Removed(k) => if k < |s.queue| { RemoveAtTakesOne(s, k); }
        case Selected => SelectKeeps(s);
      }
    }
  }

  /** So an entry that no removal takes stays queued, as often as it was and was added. */
  lemma SparedStays<E>(s: Schedule<E>, events: seq<Event<E>>, t: E)
    requires Spares(s, events, t)
    ensures multiset(Run(s, events).queue)[t] == multiset(s.queue)[t] + Joined(events)[t]
  {
    EntriesConserved(s, events, t);
    NotLeft(s, events, t);
  }

  lemma {:induction false} NotLeft<E>(s: Schedule<E>, events: seq<Event<E>>, t: E)
    requires Spares(s, events, t)
    ensures t !in Left(s, events)
    decreases |events|
  {
    if events != [] {
      NotLeft(Step(s, events[0]), events[1..], t);
    }
  }

  // ---- rounds ----

  /** That many selections, with no other event in between. */
  function Turns<E>(n: nat): seq<Event<E>> {
    seq(n, _ => Selected)
  }

  /** After n turns the first n entries are behind the others, in order. */
  lemma {:induction false} TurnsRotate<E>(s: Schedule<E>, n: nat)
    requires n <= |s.queue| && s.queue != [] && s.running
    ensures Run(s, Turns(n)) == Schedule(s.queue[n..] + s.queue[..n], true)
    decreases n
  {
    if n == 0 {
      assert s.queue[0..] + s.queue[..0] == s.queue;
    } else {
      var s' := Select(s);
      assert Turns<E>(n)[1..] == Turns<E>(n - 1);
      TurnsRotate(s', n - 1);
      assert s'.queue[n - 1..] + s'.queue[..n - 1] == s.queue[n..] + s.queue[..n];
    }
  }

  /**
   A round of as many turns as there are entries makes the entry at each place current
   exactly at its own turn, and restores the queue.
   */
  lemma RoundRobin<E>(s: Schedule<E>)
    requires s.queue != [] && s.running
    ensures Run(s, Turns(|s.queue|)) == s
    ensures forall n | 0 <= n < |s.queue| :: IsCurrent(Run(s, Turns(n)), s.queue[n])
  {
    hide Run;
    var size := |s.queue|;
    TurnsRotate(s, size);
    assert s.queue[size..] + s.queue[..size] == s.queue;
    forall n | 0 <= n < size
      ensures IsCurrent(Run(s, Turns(n)), s.queue[n])
    {
      TurnsRotate(s, n);
    }
  }

  // ---- waiting ----

  predicate IsCurrent<E(==)>(s: Schedule<E>, t: E) {
    s.queue != [] && s.running && s.queue[0] == t
  }

  lemma {:induction false} PositionUnique<E>(s: seq<E>, t: E, k: nat)
    requires k < |s| && s[k] == t && t !in s[..k]
    ensures t in s && Position(s, t) == k
    decreases k
  {
    if k > 0 {
      assert s[0] in s[..k];
      assert s[1..][..k - 1] == s[..k][1..];
      PositionUnique(s[1..], t, k - 1);
    }
  }

  /** No event that spares t makes it wait longer, and a selection brings it one place nearer. */
  lemma StepShortensWait<E>(s: Schedule<E>, ev: Event<E>, t: E)
    requires t in s.queue && !IsCurrent(s, t)
    requires ev.Removed? && ev.position < |s.queue| ==> s.queue[ev.position] != t
    ensures t in Step(s, ev).queue
    ensures Wait(Step(s, ev), t) + (if ev.Selected? then 1 else 0) <= Wait(s, t)
  {
    var p := Position(s.queue, t);
    var s' := Step(s, ev);
    match ev {
      case Added(e) =>
        assert s'.queue[..p] == s.queue[..p];
        PositionUnique(s'.queue, t, p);
      case Removed(k) =>
        if k < |s.queue| {
          var p' := if k < p then p - 1 else p;
          assert forall j | 0 <= j < p' :: s'.queue[j] in s.queue[..p];
          PositionUnique(s'.queue, t, p');
        }
      case Selected =>
        if s.running {
          assert forall j | 0 <= j < p - 1 :: s'.queue[j] == s.queue[..p][j + 1];
          PositionUnique(s'.queue, t, p - 1);
        }
    }
  }

  /**
   An entry at position k becomes current within k selections (k + 1 if none is
   current), whatever additions, and removals of other entries, come in between.
   */
  lemma {:induction false} BoundedWaiting<E>(s: Schedule<E>, events: seq<Event<E>>, t: E) returns (n: nat)
    requires t in s.queue && Spares(s, events, t) && Selections(events) >= Wait(s, t)
    ensures n <= |events| && IsCurrent(Run(s, events[..n]), t)
    ensures Selections(events[..n]) <= Wait(s, t)
    decreases |events|
  {
    if IsCurrent(s, t) {
      n := 0;
    } else {
      StepShortensWait(s, events[0], t);
      n := BoundedWaiting(Step(s, events[0]), events[1..], t);
      n := n + 1;
      assert events[..n][1..] == events[1..][..n - 1];
    }
  }
}
