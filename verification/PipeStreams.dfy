/**
 Pipes as a step system over values: the tracked descriptors, what went into and came
 out of each pipe, and the pipes that were freed. P is the type of pipe identities.
 */
module PipeStreams {
  import opened RingBuffers

  const PIPE_BUFFER_CAPACITY := 4096
  const MAX_TRACKED_PIPES := 32 * 256

  datatype End<+P> = End(pipe: P, read: bool)

  datatype Row<+P> = Row(owner: nat, fd: int, end: End<P>)

  /** The bytes a pipe has accepted and those that were read from it, oldest first. */
  datatype Stream = Stream(accepted: seq<Byte>, taken: seq<Byte>)

  datatype State<P> = State(rows: seq<Row<P>>, streams: map<P, Stream>, freed: seq<P>)

  /** How many tracked descriptors lead to an end. */
  function Count<P(==)>(rows: seq<Row<P>>, e: End<P>): nat {
    if rows == [] then 0
    else Count(rows[..|rows| - 1], e) + if rows[|rows| - 1].end == e then 1 else 0
  }

  predicate InUse<P(==)>(rows: seq<Row<P>>, p: P) {
    Count(rows, End(p, true)) > 0 || Count(rows, End(p, false)) > 0
  }

  ghost predicate Tracked<P>(rows: seq<Row<P>>, e: End<P>) {
    exists k: nat | k < |rows| :: rows[k].end == e
  }

  /** The bytes that can be read next. */
  function Unread(s: Stream): (rest: seq<Byte>)
    ensures s.taken <= s.accepted ==> s.taken + rest == s.accepted
  {
    if |s.taken| <= |s.accepted| then s.accepted[|s.taken|..] else []
  }

  ghost predicate GoodStream(s: Stream) {
    s.taken <= s.accepted && |s.accepted| - |s.taken| <= PIPE_BUFFER_CAPACITY
  }

  ghost predicate Sound<P>(S: State<P>) {
    && |S.rows| <= MAX_TRACKED_PIPES
    && (forall k: nat | k < |S.rows| :: S.rows[k].end.pipe in S.streams)
    && (forall p | p in S.streams :: GoodStream(S.streams[p]))
    // exactly the pipes without descriptors are freed, each once
    && (forall p | p in S.streams && !InUse(S.rows, p) :: p in S.freed)
    && (forall p | p in S.freed :: p in S.streams && !InUse(S.rows, p))
    && forall i, j | 0 <= i < j < |S.freed| :: S.freed[i] != S.freed[j]
  }

  // ---- counting ----

  lemma {:induction false} CountTracked<P>(rows: seq<Row<P>>, e: End<P>)
    ensures Count(rows, e) > 0 <==> Tracked(rows, e)
    decreases |rows|
  {
    if rows != [] {
      var front, n := rows[..|rows| - 1], |rows| - 1;
      CountTracked(front, e);
      assert forall k: nat | k < n :: rows[k] == front[k];
      if Tracked(rows, e) && rows[n].end != e {
        var k: nat :| k < |rows| && rows[k].end == e;
        assert front[k].end == e;
      }
    }
  }

  lemma CountPush<P>(rows: seq<Row<P>>, r: Row<P>, e: End<P>)
    ensures Count(rows + [r], e) == Count(rows, e) + if r.end == e then 1 else 0
  {
    assert (rows + [r])[..|rows|] == rows;
  }

  lemma {:induction false} CountRemove<P>(rows: seq<Row<P>>, k: nat, e: End<P>)
    requires k < |rows|
    ensures Count(rows[..k] + rows[k + 1..], e) == Count(rows, e) - if rows[k].end == e then 1 else 0
    decreases |rows|
  {
    var front, n := rows[..|rows| - 1], |rows| - 1;
    if k == n {
      assert rows[..k] + rows[k + 1..] == front;
    } else {
      CountRemove(front, k, e);
      assert (rows[..k] + rows[k + 1..])[..n - 1] == front[..k] + front[k + 1..];
    }
  }

  // ---- the steps ----

  datatype Step<P> =
    | Open(owner: nat, readFd: int, writeFd: int, pipe: P)
    | Duplicate(owner: nat, fd: int, end: End<P>)
    | Close(k: nat)
    | Read(pipe: P, n: nat)
    | Write(pipe: P, bytes: seq<Byte>)

  /** A step needs room for its rows, a descriptor for the end it uses, and the bytes or the space. */
  ghost predicate Enabled<P>(S: State<P>, step: Step<P>) {
    match step
    case Open(_, _, _, p) => p !in S.streams && |S.rows| + 2 <= MAX_TRACKED_PIPES
    case Duplicate(_, _, e) => Tracked(S.rows, e) && |S.rows| < MAX_TRACKED_PIPES
    case Close(k) => k < |S.rows|
    case Read(p, n) =>
      Tracked(S.rows, End(p, true)) && p in S.streams && |S.streams[p].taken| + n <= |S.streams[p].accepted|
    case Write(p, bytes) =>
      && Tracked(S.rows, End(p, false)) && p in S.streams
      && |S.streams[p].accepted| - |S.streams[p].taken| + |bytes| <= PIPE_BUFFER_CAPACITY
  }

  function Opened<P>(S: State<P>, owner: nat, readFd: int, writeFd: int, p: P): State<P> {
    S.(rows := S.rows + [Row(owner, readFd, End(p, true)), Row(owner, writeFd, End(p, false))],
       streams := S.streams[p := Stream([], [])])
  }

  function Duplicated<P>(S: State<P>, owner: nat, fd: int, e: End<P>): State<P> {
    S.(rows := S.rows + [Row(owner, fd, e)])
  }

  function Closed<P(==)>(S: State<P>, k: nat): State<P>
    requires k < |S.rows|
  {
    var p := S.rows[k].end.pipe;
    var rest := S.rows[..k] + S.rows[k + 1..];
    S.(rows := rest, freed := if InUse(rest, p) then S.freed else S.freed + [p])
  }

  function Taken<P>(S: State<P>, p: P, n: nat): State<P>
    requires p in S.streams && |S.streams[p].taken| + n <= |S.streams[p].accepted|
  {
    var s := S.streams[p];
    S.(streams := S.streams[p := s.(taken := s.accepted[..|s.taken| + n])])
  }

  function Accepted<P>(S: State<P>, p: P, bytes: seq<Byte>): State<P>
    requires p in S.streams
  {
    var s := S.streams[p];
    S.(streams := S.streams[p := s.(accepted := s.accepted + bytes)])
  }

  /** The next state; a step that is not enabled changes nothing. */
  ghost function Next<P>(S: State<P>, step: Step<P>): State<P> {
    if !Enabled(S, step) then S
    else match step
      case Open(owner, r, w, p) => Opened(S, owner, r, w, p)
      case Duplicate(owner, fd, e) => Duplicated(S, owner, fd, e)
      case Close(k) => Closed(S, k)
      case Read(p, n) => Taken(S, p, n)
      case Write(p, bytes) => Accepted(S, p, bytes)
  }

  ghost function Execute<P>(S: State<P>, steps: seq<Step<P>>): State<P>
    decreases |steps|
  {
    if steps == [] then S else Execute(Next(S, steps[0]), steps[1..])
  }

  // ---- what the steps keep ----

  lemma OpenedSound<P>(S: State<P>, owner: nat, readFd: int, writeFd: int, p: P)
    requires Sound(S) && Enabled(S, Open(owner, readFd, writeFd, p))
    ensures Sound(Opened(S, owner, readFd, writeFd, p))
    ensures forall e :: Count(Opened(S, owner, readFd, writeFd, p).rows, e) ==
                        Count(S.rows, e) + if e.pipe == p then 1 else 0
  {
    var a, b := Row(owner, readFd, End(p, true)), Row(owner, writeFd, End(p, false));
    var S' := Opened(S, owner, readFd, writeFd, p);
    assert S'.rows == S.rows + [a] + [b];
    forall e
      ensures Count(S'.rows, e) == Count(S.rows, e) + if e.pipe == p then 1 else 0
    {
      CountPush(S.rows, a, e);
      CountPush(S.rows + [a], b, e);
    }
    forall k: nat | k < |S'.rows|
      ensures S'.rows[k].end.pipe in S'.streams
    {
      if k < |S.rows| { assert S.rows[k].end.pipe in S.streams; }
    }
  }

  lemma DuplicatedSound<P>(S: State<P>, owner: nat, fd: int, e: End<P>)
    requires Sound(S) && Enabled(S, Duplicate(owner, fd, e))
    ensures Sound(Duplicated(S, owner, fd, e))
    ensures forall f :: Count(Duplicated(S, owner, fd, e).rows, f) == Count(S.rows, f) + if f == e then 1 else 0
  {
    var S' := Duplicated(S, owner, fd, e);
    forall f
      ensures Count(S'.rows, f) == Count(S.rows, f) + if f == e then 1 else 0
    {
      CountPush(S.rows, Row(owner, fd, e), f);
    }
    CountTracked(S.rows, e);
    forall k: nat | k < |S'.rows|
      ensures S'.rows[k].end.pipe in S'.streams
    {
      if k == |S.rows| {
        var j: nat :| j < |S.rows| && S.rows[j].end == e;
        assert S.rows[j].end.pipe in S.streams;
      }
    }
    assert e == End(e.pipe, true) || e == End(e.pipe, false);
    assert forall p :: InUse(S'.rows, p) <==> InUse(S.rows, p);
  }

  /** Closing the last descriptor of a pipe, and no other, frees it. */
  lemma ClosedSound<P>(S: State<P>, k: nat)
    requires Sound(S) && k < |S.rows|
    ensures Sound(Closed(S, k))
    ensures forall e :: Count(Closed(S, k).rows, e) == Count(S.rows, e) - if e == S.rows[k].end then 1 else 0
  {
    var S' := Closed(S, k);
    var c := S.rows[k].end;
    forall e
      ensures Count(S'.rows, e) == Count(S.rows, e) - if e == c then 1 else 0
    {
      CountRemove(S.rows, k, e);
    }
    CountTracked(S.rows, c);
    assert c == End(c.pipe, true) || c == End(c.pipe, false);
    assert InUse(S.rows, c.pipe);
    assert forall p | p != c.pipe :: InUse(S'.rows, p) <==> InUse(S.rows, p);
    forall j: nat | j < |S'.rows|
      ensures S'.rows[j].end.pipe in S'.streams
    {
      assert S'.rows[j] == S.rows[if j < k then j else j + 1];
    }
    assert S.rows[k].end.pipe in S.streams;
  }

  lemma StreamSound<P>(S: State<P>, p: P, s: Stream)
    requires Sound(S) && p in S.streams && GoodStream(s)
    ensures Sound(S.(streams := S.streams[p := s]))
  {
  }

  lemma NextSound<P>(S: State<P>, step: Step<P>)
    requires Sound(S)
    ensures Sound(Next(S, step))
  {
    if Enabled(S, step) {
      match step {
        case Open(owner, r, w, p) => OpenedSound(S, owner, r, w, p);
        case Duplicate(owner, fd, e) => DuplicatedSound(S, owner, fd, e);
        case Close(k) => ClosedSound(S, k);
        case Read(p, n) => StreamSound(S, p, Taken(S, p, n).streams[p]);
        case Write(p, bytes) => StreamSound(S, p, Accepted(S, p, bytes).streams[p]);
      }
    }
  }

  /** Over any run: bytes come out in the order written, and a pipe is freed once, with its last descriptor. */
  lemma {:induction false} RunSound<P>(S: State<P>, steps: seq<Step<P>>)
    requires Sound(S)
    ensures Sound(Execute(S, steps))
    decreases |steps|
  {
    if steps != [] {
      NextSound(S, steps[0]);
      RunSound(Next(S, steps[0]), steps[1..]);
    }
  }

  // ---- the end of a stream is final ----

  /** What a read that returns 0 saw: no writer and nothing left. */
  ghost predicate Ended<P>(S: State<P>, p: P) {
    p in S.streams && Count(S.rows, End(p, false)) == 0 && S.streams[p].taken == S.streams[p].accepted
  }

  lemma NextEnded<P>(S: State<P>, step: Step<P>, p: P)
    requires Sound(S) && Ended(S, p)
    ensures Ended(Next(S, step), p) && Next(S, step).streams[p] == S.streams[p]
  {
    var w := End(p, false);
    CountTracked(S.rows, w);
    if Enabled(S, step) {
      match step {
        case Open(owner, r, v, q) => OpenedSound(S, owner, r, v, q);
        case Duplicate(owner, fd, e) => DuplicatedSound(S, owner, fd, e);
        case Close(k) => ClosedSound(S, k);
        case Read(q, n) => assert q == p ==> S.streams[p].accepted[..|S.streams[p].taken| + n] == S.streams[p].taken;
        case Write(q, bytes) => assert q != p;
      }
    }
  }

  /** Once a pipe has ended no run adds a byte to it: it stays ended, so every later read returns 0 again. */
  lemma {:induction false} EndIsFinal<P>(S: State<P>, steps: seq<Step<P>>, p: P)
    requires Sound(S) && Ended(S, p)
    ensures var E := Execute(S, steps); Ended(E, p) && E.streams[p] == S.streams[p]
    decreases |steps|
  {
    if steps != [] {
      NextSound(S, steps[0]);
      NextEnded(S, steps[0], p);
      EndIsFinal(Next(S, steps[0]), steps[1..], p);
    }
  }

  // ---- a pipe without readers ----

  lemma NextUnread<P>(S: State<P>, step: Step<P>, p: P)
    requires Sound(S) && p in S.streams && Count(S.rows, End(p, true)) == 0
    ensures var N := Next(S, step);
      p in N.streams && Count(N.rows, End(p, true)) == 0 && N.streams[p].taken == S.streams[p].taken
  {
    CountTracked(S.rows, End(p, true));
    if Enabled(S, step) {
      match step {
        case Open(owner, r, v, q) => OpenedSound(S, owner, r, v, q);
        case Duplicate(owner, fd, e) => DuplicatedSound(S, owner, fd, e);
        case Close(k) => ClosedSound(S, k);
        case Read(q, n) => assert q != p;
        case Write(q, bytes) =>
      }
    }
  }

  /** Once a pipe has no reader, nothing is ever read from it again, whatever is still written. */
  lemma {:induction false} UnreadForGood<P>(S: State<P>, steps: seq<Step<P>>, p: P)
    requires Sound(S) && p in S.streams && Count(S.rows, End(p, true)) == 0
    ensures var E := Execute(S, steps);
      p in E.streams && Count(E.rows, End(p, true)) == 0 && E.streams[p].taken == S.streams[p].taken
    decreases |steps|
  {
    if steps != [] {
      NextSound(S, steps[0]);
      NextUnread(S, steps[0], p);
      UnreadForGood(Next(S, steps[0]), steps[1..], p);
    }
  }
}
