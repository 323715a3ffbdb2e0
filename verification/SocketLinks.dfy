/**
 Peer links and pending queues of UNIX sockets as a step system over values. S is
 the type of socket identities.
 */
module SocketLinks {
  import opened Common

  datatype Link<+S> = Link(unix: bool, listening: bool, capacity: nat, pending: seq<S>, peer: Option<S>)

  type Links<S> = map<S, Link<S>>

  /** s has been contacted by x. */
  ghost predicate PeerOf<S>(L: Links<S>, x: S, s: S) {
    x in L && L[x].peer == Some(s)
  }

  /** A peer is tracked, and it is a listening socket or linked back. */
  ghost predicate GoodPeer<S>(L: Links<S>, s: S)
    requires s in L
  {
    L[s].peer.Some? ==>
      var p := L[s].peer.value;
      L[s].unix && p in L && L[p].unix && (L[p].listening || L[p].peer == Some(s))
  }

  /** A pending entry is tracked, waits for this queue's owner, and is itself contacted only if it listens. */
  ghost predicate GoodPending<S>(L: Links<S>, s: S, c: S) {
    PeerOf(L, c, s) && L[c].unix && forall x | x in L && PeerOf(L, x, c) :: L[c].listening
  }

  ghost predicate GoodQueue<S>(L: Links<S>, s: S)
    requires s in L
  {
    && |L[s].pending| <= L[s].capacity && NoDuplicates(L[s].pending)
    && (L[s].pending != [] ==> L[s].unix && L[s].listening)
    && forall c | c in L[s].pending :: GoodPending(L, s, c)
  }

  ghost predicate Linked<S>(L: Links<S>) {
    forall s | s in L :: GoodPeer(L, s) && GoodQueue(L, s)
  }

  // ---- what the invariant gives ----

  /** A socket that does not listen has at most one possible writer. */
  lemma OneWriter<S>(L: Links<S>, t: S, x: S, y: S)
    requires Linked(L) && t in L && !L[t].listening && PeerOf(L, x, t) && PeerOf(L, y, t)
    ensures x == y && L[t].peer == Some(x)
  {
  }

  /** A pending entry occupies one queue position overall. */
  lemma PendingOnce<S>(L: Links<S>, s: S, i: nat, t: S, j: nat)
    requires Linked(L) && s in L && t in L
    requires i < |L[s].pending| && j < |L[t].pending| && L[s].pending[i] == L[t].pending[j]
    ensures s == t && i == j
  {
    var c := L[s].pending[i];
    assert c in L[s].pending && c in L[t].pending;
    assert GoodPending(L, s, c) && GoodPending(L, t, c);
  }

  // ---- the steps ----

  function Create<S>(L: Links<S>, s: S, unix: bool): Links<S> {
    L[s := Link(unix, false, 0, [], None)]
  }

  function Listen<S>(L: Links<S>, s: S, backlog: nat): Links<S>
    requires s in L
  {
    var x := L[s];
    if !x.unix then L[s := x.(listening := true)]
    else L[s := x.(listening := true, capacity := backlog,
                   pending := if |x.pending| <= backlog then x.pending else x.pending[..backlog])]
  }

  function Connect<S>(L: Links<S>, client: S, listener: S): Links<S>
    requires client in L && listener in L
  {
    var L1 := L[listener := L[listener].(pending := L[listener].pending + [client])];
    L1[client := L1[client].(peer := Some(listener))]
  }

  /** Drop the first pending entry; what a failed accept leaves behind. */
  function Dequeue<S>(L: Links<S>, listener: S): Links<S>
    requires listener in L && L[listener].pending != []
  {
    L[listener := L[listener].(pending := L[listener].pending[1..])]
  }

  function Accept<S>(L: Links<S>, listener: S, accepted: S): Links<S>
    requires listener in L && L[listener].pending != [] && L[listener].pending[0] in L && accepted !in L
  {
    var client := L[listener].pending[0];
    var L1 := Dequeue(L, listener);
    var L2 := L1[accepted := Link(true, false, 0, [], Some(client))];
    L2[client := L2[client].(peer := Some(accepted))]
  }

  function Strike<S(==)>(s: seq<S>, x: S): seq<S> {
    if s == [] then []
    else Strike(s[..|s| - 1], x) + if s[|s| - 1] == x then [] else [s[|s| - 1]]
  }

  /** Another socket once s is closed: it forgets s as a peer and as a pending client. */
  function Forget<S(==)>(x: Link<S>, s: S): Link<S> {
    if !x.unix then x
    else x.(peer := if x.peer == Some(s) then None else x.peer, pending := Strike(x.pending, s))
  }

  function Close<S>(L: Links<S>, s: S): Links<S> {
    map x | x in L && x != s :: Forget(L[x], s)
  }

  // ---- the steps keep the invariant ----

  lemma CreateLinked<S>(L: Links<S>, s: S, unix: bool)
    requires Linked(L) && s !in L
    ensures Linked(Create(L, s, unix))
  {
    var L' := Create(L, s, unix);
    assert forall x, y :: PeerOf(L', x, y) <==> PeerOf(L, x, y);
    assert forall x | x in L :: GoodPeer(L, x) && GoodQueue(L, x);
    forall x, c | x in L && c in L[x].pending
      ensures GoodPending(L', x, c)
    {
      assert GoodPending(L, x, c);
    }
  }

  lemma ListenLinked<S>(L: Links<S>, s: S, backlog: nat)
    requires Linked(L) && s in L
    ensures Linked(Listen(L, s, backlog))
  {
    var L' := Listen(L, s, backlog);
    assert forall x, y :: PeerOf(L', x, y) <==> PeerOf(L, x, y);
    forall x, c | x in L' && c in L'[x].pending
      ensures GoodPending(L', x, c)
    {
      assert c in L[x].pending;
      assert GoodPending(L, x, c);
    }
  }

  lemma ConnectLinked<S>(L: Links<S>, client: S, listener: S)
    requires Linked(L) && client in L && listener in L
    requires L[client].unix && L[client].peer == None
    requires L[listener].unix && L[listener].listening && |L[listener].pending| < L[listener].capacity
    ensures Linked(Connect(L, client, listener))
  {
    var L' := Connect(L, client, listener);
    forall x, y
      ensures PeerOf(L', x, y) <==> if x == client then y == listener else PeerOf(L, x, y)
    {
    }
    assert client in L[listener].pending ==> GoodPending(L, listener, client);
    forall x, c | x in L' && c in L'[x].pending
      ensures GoodPending(L', x, c)
    {
      if c == client && x == listener {
        forall y | PeerOf(L', y, c)
          ensures L'[c].listening
        {
          if y != client { assert GoodPeer(L, y); }
        }
      } else {
        assert c in L[x].pending;
        assert GoodPending(L, x, c);
        assert c != client;
        assert PeerOf(L', client, c) ==> c == listener;
      }
    }
    forall x | x in L'
      ensures GoodPeer(L', x)
    {
      assert GoodPeer(L, x);
    }
  }

  lemma DequeueLinked<S>(L: Links<S>, listener: S)
    requires Linked(L) && listener in L && L[listener].pending != []
    ensures Linked(Dequeue(L, listener))
  {
    var L' := Dequeue(L, listener);
    assert forall x, y :: PeerOf(L', x, y) <==> PeerOf(L, x, y);
    forall x, c | x in L' && c in L'[x].pending
      ensures GoodPending(L', x, c)
    {
      assert c in L[x].pending;
      assert GoodPending(L, x, c);
    }
  }

  /** Accepting is dequeueing, creating, and writing the two peers. */
  lemma AcceptInSteps<S>(L: Links<S>, listener: S, accepted: S)
    requires listener in L && L[listener].pending != [] && L[listener].pending[0] in L && accepted !in L
    ensures var client, C := L[listener].pending[0], Create(Dequeue(L, listener), accepted, true);
      && client in C && accepted in C && client != accepted
      && var C1 := C[accepted := C[accepted].(peer := Some(client))];
        client in C1 && Accept(L, listener, accepted) == C1[client := C1[client].(peer := Some(accepted))]
  {
  }

  lemma PeersAfterAccept<S>(L: Links<S>, listener: S, accepted: S, x: S, y: S)
    requires listener in L && L[listener].pending != [] && L[listener].pending[0] in L && accepted !in L
    ensures var client := L[listener].pending[0];
      PeerOf(Accept(L, listener, accepted), x, y) <==>
      if x == accepted then y == client else if x == client then y == accepted else PeerOf(L, x, y)
  {
  }

  lemma AcceptLinked<S>(L: Links<S>, listener: S, accepted: S)
    requires Linked(L) && listener in L && L[listener].pending != [] && accepted !in L
    ensures L[listener].pending[0] in L && L[L[listener].pending[0]].unix
    ensures Linked(Accept(L, listener, accepted))
  {
    var client := L[listener].pending[0];
    assert client in L[listener].pending;
    assert GoodPending(L, listener, client);
    var L' := Accept(L, listener, accepted);
    forall x, y
      ensures PeerOf(L', x, y) <==>
        if x == accepted then y == client else if x == client then y == accepted else PeerOf(L, x, y)
    {
      PeersAfterAccept(L, listener, accepted, x, y);
    }
    forall x, c | x in L' && c in L'[x].pending
      ensures GoodPending(L', x, c)
    {
      assert c in L[x].pending;
      assert GoodPending(L, x, c);
      assert c != accepted;
      assert c != client;
    }
    forall x | x in L'
      ensures GoodPeer(L', x)
    {
      if x != accepted { assert GoodPeer(L, x); }
      assert PeerOf(L, x, client) ==> L[client].listening;
    }
  }

  lemma {:induction false} StrikeElements<S>(s: seq<S>, x: S)
    requires NoDuplicates(s)
    ensures NoDuplicates(Strike(s, x)) && |Strike(s, x)| <= |s|
    ensures forall y | y in Strike(s, x) :: y in s && y != x
    ensures forall y | y in s && y != x :: y in Strike(s, x)
    decreases |s|
  {
    if s != [] {
      var front, last := s[..|s| - 1], s[|s| - 1];
      StrikeElements(front, x);
      assert s == front + [last];
      assert forall i | 0 <= i < |Strike(front, x)| :: Strike(front, x)[i] in Strike(front, x);
    }
  }

  lemma {:induction false} StrikeAbsent<S>(s: seq<S>, x: S)
    requires x !in s
    ensures Strike(s, x) == s
  {
    if s != [] {
      StrikeAbsent(s[..|s| - 1], x);
      assert s == s[..|s| - 1] + [s[|s| - 1]];
    }
  }

  lemma {:induction false} StrikeOne<S>(s: seq<S>, k: nat)
    requires NoDuplicates(s) && k < |s|
    ensures Strike(s, s[k]) == s[..k] + s[k + 1..]
    decreases |s|
  {
    var front := s[..|s| - 1];
    if k == |s| - 1 {
      StrikeAbsent(front, s[k]);
    } else {
      StrikeOne(front, k);
      assert s[k + 1..] == front[k + 1..] + [s[|s| - 1]];
    }
  }

  lemma CloseLinked<S>(L: Links<S>, s: S)
    requires Linked(L)
    ensures var L' := Close(L, s);
      && Linked(L') && s !in L'
      // nothing refers to the closed socket
      && forall x | x in L' :: L'[x].peer != Some(s) && s !in L'[x].pending
  {
    var L' := Close(L, s);
    forall x, y
      ensures PeerOf(L', x, y) <==> PeerOf(L, x, y) && x != s && y != s
    {
      if x in L && x != s { assert GoodPeer(L, x); }
    }
    forall x | x in L'
      ensures GoodPeer(L', x) && GoodQueue(L', x) && L'[x].peer != Some(s) && s !in L'[x].pending
    {
      assert GoodPeer(L, x) && GoodQueue(L, x);
      StrikeElements(L[x].pending, s);
      assert L'[x].pending == if L[x].unix then Strike(L[x].pending, s) else L[x].pending;
      forall c | c in L'[x].pending
        ensures GoodPending(L', x, c)
      {
        assert c in Strike(L[x].pending, s) || !L[x].unix;
        assert c in L[x].pending;
        assert GoodPending(L, x, c);
      }
    }
  }

  /** Closing a socket changes no link between others, and no place of theirs in a queue. */
  lemma CloseKeeps<S>(L: Links<S>, s: S)
    requires Linked(L)
    ensures var L' := Close(L, s);
      && L'.Keys == L.Keys - {s}
      && forall x | x in L' ::
           && L'[x].peer == (if L[x].peer == Some(s) then None else L[x].peer)
           && L'[x].pending == Strike(L[x].pending, s)
           && L'[x].unix == L[x].unix && L'[x].listening == L[x].listening && L'[x].capacity == L[x].capacity
  {
    forall x | x in L
      ensures L[x].peer.Some? || L[x].pending != [] ==> L[x].unix
    {
      assert GoodPeer(L, x) && GoodQueue(L, x);
    }
  }

  // ---- whole runs ----

  datatype Step<S> =
    | CreateStep(s: S, unix: bool)
    | ListenStep(s: S, backlog: nat)
    | ConnectStep(client: S, listener: S)
    | DequeueStep(listener: S)
    | AcceptStep(listener: S, accepted: S)
    | CloseStep(s: S)

  /** The manager takes this step: its checks let it through. */
  predicate Enabled<S(==)>(L: Links<S>, step: Step<S>) {
    match step
    case CreateStep(s, _) => s !in L
    case ListenStep(s, _) => s in L
    case ConnectStep(c, l) =>
      && c in L && l in L && L[c].unix && L[c].peer == None
      && L[l].unix && L[l].listening && |L[l].pending| < L[l].capacity
    case DequeueStep(l) => l in L && L[l].pending != []
    case AcceptStep(l, a) => l in L && L[l].pending != [] && a !in L
    case CloseStep(s) => s in L
  }

  /** The next state; a step that is not enabled changes nothing. */
  ghost function Next<S>(L: Links<S>, step: Step<S>): Links<S> {
    if !Enabled(L, step) then L
    else match step
      case CreateStep(s, unix) => Create(L, s, unix)
      case ListenStep(s, backlog) => Listen(L, s, backlog)
      case ConnectStep(c, l) => Connect(L, c, l)
      case DequeueStep(l) => Dequeue(L, l)
      case AcceptStep(l, a) => if L[l].pending[0] in L then Accept(L, l, a) else L
      case CloseStep(s) => Close(L, s)
  }

  ghost function Execute<S>(L: Links<S>, steps: seq<Step<S>>): Links<S>
    decreases |steps|
  {
    if steps == [] then L else Execute(Next(L, steps[0]), steps[1..])
  }

  /** In every reachable state links are sound and nothing refers to a socket that is not tracked. */
  lemma {:induction false} RunLinked<S>(L: Links<S>, steps: seq<Step<S>>)
    requires Linked(L)
    ensures var E := Execute(L, steps);
      Linked(E) && forall x, s | x in E && (E[x].peer == Some(s) || s in E[x].pending) :: s in E
    decreases |steps|
  {
    if steps == [] {
      forall x, s | x in L && (L[x].peer == Some(s) || s in L[x].pending)
        ensures s in L
      {
        assert GoodPeer(L, x) && GoodQueue(L, x);
        if s in L[x].pending { assert GoodPending(L, x, s); }
      }
    } else {
      NextLinked(L, steps[0]);
      RunLinked(Next(L, steps[0]), steps[1..]);
    }
  }

  lemma NextLinked<S>(L: Links<S>, step: Step<S>)
    requires Linked(L)
    ensures Linked(Next(L, step))
  {
    hide Linked;
    if Enabled(L, step) {
      match step {
        case CreateStep(s, unix) => CreateLinked(L, s, unix);
        case ListenStep(s, backlog) => ListenLinked(L, s, backlog);
        case ConnectStep(c, l) => ConnectLinked(L, c, l);
        case DequeueStep(l) => DequeueLinked(L, l);
        case AcceptStep(l, a) => AcceptLinked(L, l, a);
        case CloseStep(s) => CloseLinked(L, s);
      }
    }
  }

  /** The tracked sockets a step may write, besides one it closes. */
  function Touched<S(==)>(L: Links<S>, step: Step<S>): set<S> {
    match step
    case CreateStep(_, _) => {}
    case ListenStep(s, _) => {s}
    case ConnectStep(c, l) => {c, l}
    case DequeueStep(l) => {l}
    case AcceptStep(l, _) => if l in L && L[l].pending != [] then {l, L[l].pending[0]} else {}
    case CloseStep(_) => {}
  }

  /** Which sockets are tracked after a step, and which of them are as they were. */
  lemma NextFrame<S>(L: Links<S>, step: Step<S>)
    requires Linked(L) && Enabled(L, step)
    ensures Next(L, step).Keys ==
      if step.CreateStep? then L.Keys + {step.s}
      else if step.AcceptStep? then L.Keys + {step.accepted}
      else if step.CloseStep? then L.Keys - {step.s}
      else L.Keys
    ensures forall x | x in L && x !in Touched(L, step) && !step.CloseStep? ::
      x in Next(L, step) && Next(L, step)[x] == L[x]
  {
    if step.AcceptStep? {
      var c := L[step.listener].pending[0];
      assert c in L[step.listener].pending && GoodPending(L, step.listener, c);
    }
  }

  // ---- first come, first served ----

  /** c and d wait in the queue, and c is nearer to its front. */
  ghost predicate Ahead<S>(q: seq<S>, c: S, d: S) {
    exists i: nat, j: nat :: i < j < |q| && q[i] == c && q[j] == d
  }

  ghost predicate Waits<S>(L: Links<S>, s: S, c: S) {
    s in L && c in L[s].pending
  }

  lemma AheadIn<S>(q: seq<S>, i: nat, j: nat)
    requires i < j < |q|
    ensures Ahead(q, q[i], q[j])
  {
  }

  /** Striking entries of a queue keeps the order of the others. */
  lemma {:induction false} StrikeSplit<S>(a: seq<S>, b: seq<S>, x: S)
    ensures Strike(a + b, x) == Strike(a, x) + Strike(b, x)
    decreases |b|
  {
    if b == [] {
      assert a + b == a;
    } else {
      assert (a + b)[..|a + b| - 1] == a + b[..|b| - 1];
      StrikeSplit(a, b[..|b| - 1], x);
    }
  }

  lemma {:induction false} StrikeKeeps<S>(q: seq<S>, x: S, c: S)
    requires c in q && c != x
    ensures c in Strike(q, x)
    decreases |q|
  {
    var front, last := q[..|q| - 1], q[|q| - 1];
    assert q == front + [last];
    if c != last {
      StrikeKeeps(front, x, c);
    }
  }

  lemma AheadAcross<S>(a: seq<S>, b: seq<S>, c: S, d: S)
    requires c in a && d in b
    ensures Ahead(a + b, c, d)
  {
    var i: nat :| i < |a| && a[i] == c;
    var j: nat :| j < |b| && b[j] == d;
    AheadIn(a + b, i, |a| + j);
  }

  lemma StrikeAhead<S>(q: seq<S>, x: S, c: S, d: S)
    requires Ahead(q, c, d) && c != x && d != x
    ensures Ahead(Strike(q, x), c, d)
  {
    hide Strike;
    var i: nat, j: nat :| i < j < |q| && q[i] == c && q[j] == d;
    var a, b := q[..j], q[j..];
    assert q == a + b && a[i] == c && b[0] == d;
    StrikeSplit(a, b, x);
    StrikeKeeps(a, x, c);
    StrikeKeeps(b, x, d);
    AheadAcross(Strike(a, x), Strike(b, x), c, d);
  }

  /** A client that connects waits behind every earlier one; a queue that only grew or got shorter keeps its order. */
  lemma NextAhead<S>(L: Links<S>, step: Step<S>, s: S, c: S, d: S)
    requires Linked(L) && Waits(L, s, c) && (Waits(L, s, d) ==> Ahead(L[s].pending, c, d))
    requires Waits(Next(L, step), s, c) && Waits(Next(L, step), s, d)
    ensures Ahead(Next(L, step)[s].pending, c, d)
  {
    var q := L[s].pending;
    assert GoodQueue(L, s);
    if Enabled(L, step) {
      match step {
        case CreateStep(_, _) =>
        case ListenStep(_, backlog) =>
          AheadFront(q, Next(L, step)[s].pending, c, d);
        case ConnectStep(x, l) =>
          if l == s && d !in q {
            assert d in q + [x];
            AheadAcross(q, [x], c, d);
          } else {
            AheadLonger(q, Next(L, step)[s].pending, c, d);
          }
        case DequeueStep(l) =>
          if l == s { AheadRest(q, c, d); }
        case AcceptStep(l, _) =>
          assert L[l].pending[0] in L[l].pending && GoodPending(L, l, L[l].pending[0]);
          if l == s { AheadRest(q, c, d); }
        case CloseStep(x) =>
          StrikeElements(q, x);
          StrikeAhead(q, x, c, d);
      }
    }
  }

  lemma AheadFront<S>(q: seq<S>, p: seq<S>, c: S, d: S)
    requires p <= q && NoDuplicates(q) && c in p && d in p && Ahead(q, c, d)
    ensures Ahead(p, c, d)
  {
    var i: nat, j: nat :| i < j < |q| && q[i] == c && q[j] == d;
    var k: nat :| k < |p| && p[k] == d;
    assert q[k] == q[j];
    AheadIn(p, i, j);
  }

  lemma AheadLonger<S>(q: seq<S>, p: seq<S>, c: S, d: S)
    requires q <= p && Ahead(q, c, d)
    ensures Ahead(p, c, d)
  {
    var i: nat, j: nat :| i < j < |q| && q[i] == c && q[j] == d;
    AheadIn(p, i, j);
  }

  lemma AheadRest<S>(q: seq<S>, c: S, d: S)
    requires q != [] && NoDuplicates(q) && c in q[1..] && Ahead(q, c, d)
    ensures Ahead(q[1..], c, d)
  {
    var i: nat, j: nat :| i < j < |q| && q[i] == c && q[j] == d;
    var k: nat :| k < |q[1..]| && q[1..][k] == c;
    assert q[k + 1] == q[i];
    AheadIn(q[1..], i - 1, j - 1);
  }

  /** An accept links the new socket with the first pending client, and with no other socket. */
  lemma AcceptTakesFirst<S>(L: Links<S>, s: S, accepted: S, x: S)
    requires Linked(L) && Enabled(L, AcceptStep(s, accepted))
    ensures var L' := Next(L, AcceptStep(s, accepted));
      PeerOf(L', x, accepted) <==> x == L[s].pending[0]
  {
    assert L[s].pending[0] in L[s].pending && GoodPending(L, s, L[s].pending[0]);
    PeersAfterAccept(L, s, accepted, x, accepted);
    assert x in L ==> GoodPeer(L, x);
  }

  /**
   First come, first served: as long as a client waits for a listener, whoever connected
   to it later stays behind, and no accept links a socket with the later client.
   */
  lemma {:induction false} FirstComeFirstServed<S>(L: Links<S>, steps: seq<Step<S>>, s: S, c: S, d: S)
    requires Linked(L) && c != d && (Waits(L, s, d) ==> Ahead(L[s].pending, c, d))
    requires forall k | 0 <= k <= |steps| :: Waits(Execute(L, steps[..k]), s, c)
    ensures var E := Execute(L, steps);
      && (Waits(E, s, d) ==> Ahead(E[s].pending, c, d))
      && forall a | a !in E :: !PeerOf(Next(E, AcceptStep(s, a)), d, a)
    decreases |steps|
  {
    hide Linked, Next;
    assert Waits(Execute(L, steps[..0]), s, c);
    if steps == [] {
      NotFirst(L, s, c, d);
    } else {
      var N := Next(L, steps[0]);
      assert steps[..1] == [steps[0]] && steps[..1][1..] == [];
      assert Execute(L, steps[..1]) == N;
      assert Waits(N, s, c);
      if Waits(N, s, d) { NextAhead(L, steps[0], s, c, d); }
      NextLinked(L, steps[0]);
      forall k | 0 <= k <= |steps[1..]|
        ensures Waits(Execute(N, steps[1..][..k]), s, c)
      {
        assert steps[..k + 1][1..] == steps[1..][..k];
        assert Waits(Execute(L, steps[..k + 1]), s, c);
      }
      FirstComeFirstServed(N, steps[1..], s, c, d);
    }
  }

  lemma NotFirst<S>(L: Links<S>, s: S, c: S, d: S)
    requires Linked(L) && c != d && Waits(L, s, c) && (Waits(L, s, d) ==> Ahead(L[s].pending, c, d))
    ensures forall a | a !in L :: !PeerOf(Next(L, AcceptStep(s, a)), d, a)
  {
    assert GoodQueue(L, s);
    forall a | a !in L
      ensures !PeerOf(Next(L, AcceptStep(s, a)), d, a)
    {
      AcceptTakesFirst(L, s, a, d);
    }
  }

  // ---- clients that are dropped ----

  /** A client whose peer is a listener in whose queue it does not wait. */
  ghost predicate Stranded<S>(L: Links<S>, s: S, c: S) {
    s in L && L[s].unix && L[s].listening && PeerOf(L, c, s) && c !in L[s].pending
  }

  /** Of the pending clients exactly those beyond the new backlog are dropped, and they keep the listener as peer. */
  lemma ListenStrands<S>(L: Links<S>, s: S, backlog: nat, c: S)
    requires Linked(L) && s in L && c in L[s].pending
    ensures var L' := Listen(L, s, backlog);
      && (c in L'[s].pending <==> exists i: nat :: i < backlog && i < |L[s].pending| && L[s].pending[i] == c)
      && (c !in L'[s].pending <==> Stranded(L', s, c))
  {
    assert GoodPending(L, s, c);
    var L' := Listen(L, s, backlog);
    if c in L'[s].pending {
      var i: nat :| i < |L'[s].pending| && L'[s].pending[i] == c;
      assert i < backlog && L[s].pending[i] == c;
    }
    if i: nat :| i < backlog && i < |L[s].pending| && L[s].pending[i] == c {
      assert L'[s].pending[i] == c;
    }
  }

  /**
   The steps that strand a pending client are these two and no others: a listen whose
   backlog does not reach its place, and a dequeue that leaves it without a socket.
   */
  lemma NextStrands<S>(L: Links<S>, step: Step<S>, s: S, c: S)
    requires Linked(L) && s in L && c in L[s].pending
    ensures Stranded(Next(L, step), s, c) <==>
      || (step.ListenStep? && step.s == s && c !in Listen(L, s, step.backlog)[s].pending)
      || (step == DequeueStep(s) && L[s].pending[0] == c)
  {
    assert GoodQueue(L, s) && GoodPending(L, s, c);
    if Enabled(L, step) {
      match step {
        case CreateStep(_, _) =>
        case ListenStep(_, _) =>
        case ConnectStep(_, l) =>
          if l == s { assert c in L[s].pending + [step.client]; }
        case DequeueStep(l) =>
          if l == s { FirstOrRest(L[s].pending, c); }
        case AcceptStep(l, a) =>
          assert L[l].pending[0] in L[l].pending && GoodPending(L, l, L[l].pending[0]);
          AcceptStrandsNone(L, l, a, s, c);
        case CloseStep(x) =>
          StrikeElements(L[s].pending, x);
      }
    }
  }

  lemma FirstOrRest<S>(q: seq<S>, c: S)
    requires NoDuplicates(q) && c in q
    ensures c in q[1..] <==> c != q[0]
  {
    assert q == [q[0]] + q[1..];
    if c == q[0] {
      assert forall i | 0 <= i < |q[1..]| :: q[1..][i] == q[i + 1] && q[i + 1] != q[0];
    }
  }

  /** An accepted client gets its own peer. */
  lemma AcceptStrandsNone<S>(L: Links<S>, l: S, accepted: S, s: S, c: S)
    requires l in L && L[l].pending != [] && L[l].pending[0] in L && accepted !in L
    requires s in L && c in L[s].pending && NoDuplicates(L[s].pending)
    ensures !Stranded(Accept(L, l, accepted), s, c)
  {
    var L' := Accept(L, l, accepted);
    PeersAfterAccept(L, l, accepted, c, s);
    if l == s { FirstOrRest(L[s].pending, c); }
    assert s != accepted && L'[s].pending == if l == s then L[s].pending[1..] else L[s].pending;
  }

  lemma NextStranded<S>(L: Links<S>, step: Step<S>, s: S, c: S)
    requires Linked(L) && Stranded(L, s, c) && step != CloseStep(s) && step != CloseStep(c)
    ensures Stranded(Next(L, step), s, c)
  {
    assert GoodPeer(L, c);
    if Enabled(L, step) {
      match step {
        case CreateStep(_, _) =>
        case ListenStep(_, _) =>
        case ConnectStep(_, _) =>
        case DequeueStep(_) =>
        case AcceptStep(l, _) =>
          var first := L[l].pending[0];
          assert first in L[l].pending && GoodPending(L, l, first);
        case CloseStep(x) =>
          StrikeElements(L[s].pending, x);
      }
    }
  }

  /** No run brings a stranded client back; only closing it or the listener does. */
  lemma {:induction false} StrandedStays<S>(L: Links<S>, steps: seq<Step<S>>, s: S, c: S)
    requires Linked(L) && Stranded(L, s, c) && CloseStep(s) !in steps && CloseStep(c) !in steps
    ensures Stranded(Execute(L, steps), s, c)
    decreases |steps|
  {
    if steps != [] {
      NextLinked(L, steps[0]);
      NextStranded(L, steps[0], s, c);
      StrandedStays(Next(L, steps[0]), steps[1..], s, c);
    }
  }
}
