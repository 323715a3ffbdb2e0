/** The pipe half of the inter-process communication manager. */
module Pipes {
  import opened Common
  import opened Errors
  import opened RingBuffers
  import opened PipeStreams

  /** What an open file leads to, as far as pipes go. */
  datatype File = PipeFile(end: End<Pipe>) | OtherFile

  /** How a process comes to a call: anew, woken after it slept in it, or woken by a signal. */
  datatype Entry = Anew | Woken | Interrupted

  /** A call finishes with a result, or its process goes to sleep and goes on with the call later. */
  datatype Outcome = Done(code: int) | Asleep

  class Pipe {
    const ring: RingBuffer
    var readerReferenceCount: nat
    var writerReferenceCount: nat

    constructor ()
      ensures readerReferenceCount == 1 && writerReferenceCount == 1
      ensures fresh(ring) && fresh(ring.data) && ring.Valid() && ring.data.Length == PIPE_BUFFER_CAPACITY
      ensures ring.accepted == [] && ring.taken == []
    {
      ring := new RingBuffer(PIPE_BUFFER_CAPACITY);
      readerReferenceCount, writerReferenceCount := 1, 1;
    }
  }

  /** Every pipe has a sound buffer of its own. */
  ghost predicate Buffers(pipes: set<Pipe>)
    reads set p | p in pipes :: p.ring
    reads set p | p in pipes :: p.ring.data
  {
    && (forall p | p in pipes :: p.ring.Valid() && p.ring.data.Length == PIPE_BUFFER_CAPACITY)
    && (forall p, q | p in pipes && q in pipes && p != q :: p.ring != q.ring && p.ring.data != q.ring.data)
  }

  /** The reference counts are the numbers of tracked descriptors. */
  ghost predicate Counted(rows: seq<Row<Pipe>>, pipes: set<Pipe>)
    reads pipes
  {
    forall p | p in pipes ::
      && p.readerReferenceCount == Count(rows, End(p, true))
      && p.writerReferenceCount == Count(rows, End(p, false))
  }

  class PipeManager {
    var rows: seq<Row<Pipe>>
    ghost var pipes: set<Pipe>        // every pipe ever created
    ghost var freed: seq<Pipe>        // the pipes deleted so far, in order

    ghost function Streams(): map<Pipe, Stream>
      reads this, set p | p in pipes :: p.ring
    {
      map p | p in pipes :: Stream(p.ring.accepted, p.ring.taken)
    }

    ghost function State(): State<Pipe>
      reads this, set p | p in pipes :: p.ring
    {
      PipeStreams.State(rows, Streams(), freed)
    }

    ghost predicate Valid()
      reads this, pipes
      reads set p | p in pipes :: p.ring
      reads set p | p in pipes :: p.ring.data
    {
      Sound(State()) && Counted(rows, pipes) && Buffers(pipes)
    }

    constructor ()
      ensures Valid() && State() == PipeStreams.State([], map[], [])
    {
      rows, pipes, freed := [], {}, [];
    }

    /** Create a pipe with one descriptor at each end. */
    method CreatePipe(owner: Option<nat>, readFd: int, writeFd: int) returns (code: int, pipe: Pipe?)
      requires Valid()
      modifies this
      ensures Valid()
      ensures code == if owner.None? || readFd < 0 || writeFd < 0 then EINVAL
                      else if |old(rows)| + 2 > MAX_TRACKED_PIPES then EMFILE else 0
      ensures code != 0 ==> pipe == null && State() == old(State())
      ensures code == 0 ==> pipe != null && fresh(pipe) && fresh(pipe.ring) && fresh(pipe.ring.data)
                            && pipe !in old(State()).streams
                            && State() == Opened<Pipe>(old(State()), owner.value, readFd, writeFd, pipe)
      // the first descriptor reads from the pipe, the second one writes to it, and it is empty
      ensures code == 0 ==>
        && rows == old(rows) + [Row(owner.value, readFd, End(pipe, true)), Row(owner.value, writeFd, End(pipe, false))]
        && pipe.ring.accepted == pipe.ring.taken == []
    {
      hide Sound, Counted, Buffers, Count;
      if owner.None? || readFd < 0 || writeFd < 0 {
        return EINVAL, null;
      }
      if |rows| + 2 > MAX_TRACKED_PIPES {
        return EMFILE, null;
      }
      var p := new Pipe();
      ghost var S := Opened<Pipe>(State(), owner.value, readFd, writeFd, p);
      OpenedSound<Pipe>(State(), owner.value, readFd, writeFd, p);
      Unlisted(p);
      rows := rows + [Row(owner.value, readFd, End(p, true))];
      rows := rows + [Row(owner.value, writeFd, End(p, false))];
      pipes := pipes + {p};
      assert rows == S.rows;
      OneCreated(p);
      assert State() == S;
      return 0, p;
    }

    lemma Unlisted(p: Pipe)
      requires Sound(State()) && p !in pipes
      ensures Count(rows, End(p, true)) == 0 && Count(rows, End(p, false)) == 0
    {
      CountTracked(rows, End(p, true));
      CountTracked(rows, End(p, false));
    }

    twostate lemma OneCreated(new p: Pipe)
      requires old(Counted(rows, pipes)) && old(Buffers(pipes)) && fresh(p) && fresh(p.ring) && fresh(p.ring.data)
      requires pipes == old(pipes) + {p} && p.ring.Valid() && p.ring.data.Length == PIPE_BUFFER_CAPACITY
      requires p.readerReferenceCount == 1 && p.writerReferenceCount == 1
      requires forall e :: Count(rows, e) == Count(old(rows), e) + if e.pipe == p then 1 else 0
      requires Count(old(rows), End(p, true)) == 0 && Count(old(rows), End(p, false)) == 0
      requires forall q | q in old(pipes) :: unchanged(q) && unchanged(q.ring) && unchanged(q.ring.data)
      ensures Counted(rows, pipes) && Buffers(pipes)
    {
      hide Count;
      forall q | q in old(pipes)
        ensures q.ring.Valid()
      {
        assert old(q.ring.Valid());
      }
    }

    /** Track one more descriptor for the end an open file leads to; other files are left alone. */
    method DuplicatePipeDescriptor(owner: Option<nat>, fd: int, file: Option<File>) returns (code: int)
      requires Valid()
      modifies this, pipes
      ensures Valid()
      ensures code == if owner.None? || file.None? || fd < 0 then EINVAL
                      else if file.value.OtherFile? || !Tracked(old(rows), file.value.end) then 0
                      else if |old(rows)| >= MAX_TRACKED_PIPES then EMFILE else 0
      ensures State() ==
        if code == 0 && file.value.PipeFile? && Tracked(old(rows), file.value.end) then
          Duplicated(old(State()), owner.value, fd, file.value.end)
        else old(State())
      // the new descriptor leads to the end that was duplicated
      ensures rows ==
        if code == 0 && file.value.PipeFile? && Tracked(old(rows), file.value.end)
        then old(rows) + [Row(owner.value, fd, file.value.end)] else old(rows)
    {
      hide Sound, Counted, Buffers, Count;
      if owner.None? || file.None? || fd < 0 {
        return EINVAL;
      }
      if file.value.OtherFile? {
        return 0;
      }
      var e := file.value.end;
      var k := FindEnd(e);
      if k == |rows| {
        return 0;
      }
      if |rows| >= MAX_TRACKED_PIPES {
        return EMFILE;
      }
      AddRow(owner.value, fd, e);
      return 0;
    }

    method AddRow(owner: nat, fd: int, e: End<Pipe>)
      requires Valid() && Tracked(rows, e) && |rows| < MAX_TRACKED_PIPES
      modifies this, pipes
      ensures Valid() && State() == Duplicated(old(State()), owner, fd, e)
    {
      hide Sound, Buffers, Count, Tracked;
      var pipe := e.pipe;
      PipeOf(e);
      DuplicatedSound(State(), owner, fd, e);
      if e.read {
        pipe.readerReferenceCount := pipe.readerReferenceCount + 1;
      } else {
        pipe.writerReferenceCount := pipe.writerReferenceCount + 1;
      }
      rows := rows + [Row(owner, fd, e)];
      OneCounted(pipe);
      assert State() == Duplicated(old(State()), owner, fd, e);
    }

    /** The first row of an end, or the number of rows. */
    method FindEnd(e: End<Pipe>) returns (k: nat)
      ensures k <= |rows| && (k < |rows| <==> Tracked(rows, e))
      ensures k < |rows| ==> rows[k].end == e
    {
      k := 0;
      while k < |rows| && rows[k].end != e
        invariant k <= |rows| && forall j: nat | j < k :: rows[j].end != e
      {
        k := k + 1;
      }
    }

    lemma TrackedCreated(k: nat)
      requires Sound(State()) && k < |rows|
      ensures rows[k].end.pipe in pipes
    {
    }

    /** The rows lost or gained descriptors of one pipe, and its reference counts followed. */
    twostate lemma OneCounted(p: Pipe)
      requires old(Counted(rows, pipes)) && pipes == old(pipes)
      requires forall q | q in pipes && q != p :: unchanged(q)
      requires forall e: End<Pipe> | e.pipe != p :: Count(rows, e) == Count(old(rows), e)
      requires p.readerReferenceCount == Count(rows, End(p, true))
      requires p.writerReferenceCount == Count(rows, End(p, false))
      ensures Counted(rows, pipes)
    {
      hide Count;
    }

    /** Give up one descriptor; the pipe is deleted with its last one. */
    method ClosePipe(owner: Option<nat>, fd: int, end: Option<End<Pipe>>) returns (closed: bool, ghost k: nat)
      requires Valid()
      modifies this, pipes
      ensures Valid()
      ensures closed ==>
        && k < |old(rows)| && end.Some? && owner.Some? && fd >= 0
        && old(rows)[k] == Row(owner.value, fd, end.value) && old(rows)[k] !in old(rows)[..k]
        && State() == Closed(old(State()), k)
      // that descriptor is gone, and the pipe with it exactly if no other one leads to it
      ensures closed ==>
        && rows == old(rows)[..k] + old(rows)[k + 1..]
        && freed == old(freed) + if exists j: nat | j < |rows| :: rows[j].end.pipe == end.value.pipe
                                 then [] else [end.value.pipe]
      ensures !closed ==>
        && State() == old(State())
        && (end.Some? && owner.Some? && fd >= 0 ==> Row(owner.value, fd, end.value) !in rows)
    {
      hide Sound, Counted, Buffers, Count;
      k := 0;
      if owner.None? || fd < 0 || end.None? {
        return false, k;
      }
      var row := Row(owner.value, fd, end.value);
      var i := 0;
      while i < |rows|
        invariant 0 <= i <= |rows| && row !in rows[..i]
      {
        if rows[i].owner != row.owner || rows[i].fd != row.fd || rows[i].end != row.end {
          assert rows[..i + 1] == rows[..i] + [rows[i]];
          i := i + 1;
          continue;
        }
        k := i;
        DropRow(i);
        InUseTracked(rows, row.end.pipe);
        return true, k;
      }
      assert rows[..i] == rows;
      return false, k;
    }

    method DropRow(i: nat)
      requires Valid() && i < |rows|
      modifies this, pipes
      ensures Valid() && State() == Closed(old(State()), i)
      ensures rows == old(rows)[..i] + old(rows)[i + 1..]
      ensures freed == old(freed) + if InUse(rows, old(rows)[i].end.pipe) then [] else [old(rows)[i].end.pipe]
    {
      hide Sound, Counted, Buffers, Count, InUse;
      var pipe := rows[i].end.pipe;
      TrackedCreated(i);
      ClosedSound(State(), i);
      DropReference(i);
      InUseCounts(pipe);
      if pipe.readerReferenceCount == 0 && pipe.writerReferenceCount == 0 {
        freed := freed + [pipe];
      }
      assert State() == Closed(old(State()), i);
    }

    method DropReference(i: nat)
      requires Valid() && i < |rows| && rows[i].end.pipe in pipes
      requires forall e :: Count(Closed(State(), i).rows, e) == Count(rows, e) - if e == rows[i].end then 1 else 0
      modifies this`rows, rows[i].end.pipe
      ensures Counted(rows, pipes) && Buffers(pipes) && rows == old(rows)[..i] + old(rows)[i + 1..]
      ensures Streams() == old(Streams())
    {
      hide Sound, Buffers, Count, InUse;
      var e := rows[i].end;
      var pipe := e.pipe;
      Counts(e);
      assert e == End(pipe, e.read);
      if e.read {
        if pipe.readerReferenceCount > 0 {
          pipe.readerReferenceCount := pipe.readerReferenceCount - 1;
        }
      } else {
        if pipe.writerReferenceCount > 0 {
          pipe.writerReferenceCount := pipe.writerReferenceCount - 1;
        }
      }
      rows := rows[..i] + rows[i + 1..];
      OneCounted(pipe);
    }

    lemma Counts(e: End<Pipe>)
      requires Valid() && e.pipe in pipes && Tracked(rows, e)
      ensures if e.read then e.pipe.readerReferenceCount > 0 else e.pipe.writerReferenceCount > 0
    {
      hide Sound, Buffers;
      CountTracked(rows, e);
      assert e == End(e.pipe, e.read);
    }

    lemma InUseCounts(p: Pipe)
      requires Counted(rows, pipes) && p in pipes
      ensures InUse(rows, p) <==> p.readerReferenceCount > 0 || p.writerReferenceCount > 0
    {
    }

    // ---- reading and writing ----

    lemma PipeOf(e: End<Pipe>)
      requires Valid() && Tracked(rows, e)
      ensures e.pipe in pipes && e.pipe in State().streams && State().rows == rows
      ensures e.pipe.ring.Valid() && e.pipe.ring.data.Length == PIPE_BUFFER_CAPACITY
      ensures e.pipe.readerReferenceCount == 0 <==> !Tracked(rows, End(e.pipe, true))
      ensures e.pipe.writerReferenceCount == 0 <==> !Tracked(rows, End(e.pipe, false))
      ensures var s := State().streams[e.pipe];
        && s == Stream(e.pipe.ring.accepted, e.pipe.ring.taken) && s.taken <= s.accepted
        && |Unread(s)| == |s.accepted| - |s.taken| == e.pipe.ring.buffered && Unread(s) == e.pipe.ring.Contents()
        && (Unread(s) == [] <==> s.taken == s.accepted)
    {
      hide Count;
      var k: nat :| k < |rows| && rows[k].end == e;
      TrackedCreated(k);
      CountTracked(rows, End(e.pipe, true));
      CountTracked(rows, End(e.pipe, false));
    }

    lemma OwnRing(p: Pipe)
      requires Valid() && p in pipes
      ensures forall q | q in pipes && q != p :: q.ring != p.ring && q.ring.data != p.ring.data
    {
      hide Sound, Counted;
    }

    /** Only the ring of p was written, and it is sound. */
    twostate lemma RingWritten(p: Pipe)
      requires old(Valid()) && unchanged(this) && p in pipes && p.ring.Valid()
      requires p.ring.data.Length == PIPE_BUFFER_CAPACITY
      requires forall q | q in pipes :: unchanged(q)
      requires forall q | q in pipes && q != p :: unchanged(q.ring) && unchanged(q.ring.data)
      ensures State() == old(State()).(streams := old(Streams())[p := Stream(p.ring.accepted, p.ring.taken)])
      ensures Valid()
    {
      hide Sound, Counted, RingBuffer.Valid;
      assert State() == old(State()).(streams := old(Streams())[p := Stream(p.ring.accepted, p.ring.taken)]);
      GoodRing(p);
      StreamSound(old(State()), p, Stream(p.ring.accepted, p.ring.taken));
      assert old(Counted(rows, pipes)) && old(Buffers(pipes));
      forall q | q in pipes
        ensures q.ring.Valid()
      {
        if q != p {
          assert old(q.ring.Valid());
          assert unchanged(q.ring) && unchanged(q.ring.data);
        }
      }
    }

    lemma GoodRing(p: Pipe)
      requires p.ring.Valid() && p.ring.data.Length == PIPE_BUFFER_CAPACITY
      ensures GoodStream(Stream(p.ring.accepted, p.ring.taken))
    {
    }

    /** Read from a pipe; an empty pipe ends the stream if it has no writer, else the reader waits. */
    method PipeRead(e: End<Pipe>, count: nat, nonblocking: bool, entry: Entry)
      returns (outcome: Outcome, bytes: seq<Byte>)
      requires Valid() && Tracked(rows, e)
      modifies e.pipe.ring
      ensures Valid() && e.pipe in old(State()).streams
      ensures entry.Interrupted? ==> outcome == Done(EINTR) && bytes == [] && State() == old(State())
      ensures !entry.Interrupted? ==> bytes == if !e.read then [] else
                         var unread := Unread(old(State()).streams[e.pipe]); unread[..Smaller(count, |unread|)]
      ensures bytes != [] ==>
        && Enabled(old(State()), Read(e.pipe, |bytes|)) && State() == Taken(old(State()), e.pipe, |bytes|)
        && outcome == Done(|bytes|)
      ensures bytes == [] && !entry.Interrupted? ==>
        && State() == old(State())
        && outcome == if count == 0 then Done(0) else if !e.read then Done(EBADF)
                      else if !Tracked(rows, End(e.pipe, false)) then Done(0)
                      else if nonblocking then Done(EAGAIN) else Asleep
      ensures e.pipe.ring.taken == old(e.pipe.ring.taken) + bytes && e.pipe.ring.accepted == old(e.pipe.ring.accepted)
      // a read for at least one byte returns 0 exactly at the end of the stream
      ensures e.read && count > 0 && !entry.Interrupted? ==> (outcome == Done(0) <==> Ended(old(State()), e.pipe))
    {
      hide Sound, Counted, Buffers, Count, GoodStream, RingBuffer.Valid, RingBuffer.Contents, Tracked, Unread;
      hide PipeManager.State;
      PipeOf(e);
      CountTracked(rows, End(e.pipe, false));
      bytes := [];
      if entry.Interrupted? {
        return Done(EINTR), bytes;
      }
      if count == 0 {
        return Done(0), bytes;
      }
      if !e.read {
        return Done(EBADF), bytes;
      }
      var pipe := e.pipe;
      if pipe.ring.buffered == 0 {
        if pipe.writerReferenceCount == 0 {
          return Done(0), bytes;
        }
        if nonblocking {
          return Done(EAGAIN), bytes;
        }
        return Asleep, bytes;
      }
      bytes := TakeBytes(pipe, count);
      return Done(|bytes|), bytes;
    }

    method TakeBytes(p: Pipe, count: nat) returns (bytes: seq<Byte>)
      requires Valid() && p in pipes && Tracked(rows, End(p, true)) && p.ring.buffered > 0 && count > 0
      modifies p.ring
      ensures Valid() && p in old(State()).streams && bytes != []
      ensures var unread := Unread(old(State()).streams[p]); bytes == unread[..Smaller(count, |unread|)]
      ensures Enabled(old(State()), Read(p, |bytes|)) && State() == Taken(old(State()), p, |bytes|)
      ensures p.ring.taken == old(p.ring.taken) + bytes && p.ring.accepted == old(p.ring.accepted)
    {
      hide Sound, Counted, Buffers, Count, RingBuffer.Valid, RingBuffer.Contents, Tracked, Unread;
      PipeOf(End(p, true));
      OwnRing(p);
      ghost var s := State().streams[p];
      bytes := p.ring.Read(count);
      RingWritten(p);
      TakenFrom(s, bytes);
    }

    lemma TakenFrom(s: Stream, bytes: seq<Byte>)
      requires s.taken <= s.accepted && bytes <= Unread(s)
      ensures s.taken + bytes == s.accepted[..|s.taken| + |bytes|]
    {
    }

    /**
     Write to a pipe. A writer that slept and finds room does not look again whether
     there is a reader left.
     */
    method PipeWrite(e: End<Pipe>, bytes: seq<Byte>, nonblocking: bool, entry: Entry) returns (outcome: Outcome)
      requires Valid() && Tracked(rows, e)
      modifies e.pipe.ring, e.pipe.ring.data
      ensures Valid() && e.pipe in old(State()).streams
      ensures var room := PIPE_BUFFER_CAPACITY - |Unread(old(State()).streams[e.pipe])|;
        var broken := !Tracked(rows, End(e.pipe, true)) && (entry.Anew? || room == 0);
        if entry.Interrupted? then outcome == Done(EINTR) && State() == old(State())
        else if bytes != [] && !e.read && !broken && room > 0 then
          && outcome == Done(Smaller(|bytes|, room)) && outcome.code > 0
          && Enabled(old(State()), Write(e.pipe, bytes[..outcome.code]))
          && State() == Accepted(old(State()), e.pipe, bytes[..outcome.code])
        else
          && State() == old(State())
          && outcome == if bytes == [] then Done(0) else if e.read then Done(EBADF)
                        else if broken then Done(EPIPE) else if nonblocking then Done(EAGAIN) else Asleep
      ensures e.pipe.ring.taken == old(e.pipe.ring.taken)
      ensures e.pipe.ring.accepted ==
        old(e.pipe.ring.accepted) + if outcome.Done? && 0 < outcome.code <= |bytes| then bytes[..outcome.code] else []
    {
      hide Sound, Counted, Buffers, Count, GoodStream, RingBuffer.Valid, RingBuffer.Contents, Tracked, Unread;
      hide PipeManager.State;
      PipeOf(e);
      if entry.Interrupted? {
        return Done(EINTR);
      }
      if |bytes| == 0 {
        return Done(0);
      }
      if e.read {
        return Done(EBADF);
      }
      var pipe := e.pipe;
      if entry.Anew? && pipe.readerReferenceCount == 0 {
        return Done(EPIPE);
      }
      RoomOf(pipe);
      if pipe.ring.buffered == PIPE_BUFFER_CAPACITY {
        if pipe.readerReferenceCount == 0 {
          return Done(EPIPE);
        }
        if nonblocking {
          return Done(EAGAIN);
        }
        return Asleep;
      }
      var n := PutBytes(pipe, bytes);
      return Done(n);
    }

    lemma RoomOf(p: Pipe)
      requires p.ring.Valid() && p.ring.data.Length == PIPE_BUFFER_CAPACITY
      ensures p.ring.buffered <= PIPE_BUFFER_CAPACITY
    {
    }

    method PutBytes(p: Pipe, bytes: seq<Byte>) returns (n: nat)
      requires Valid() && p in pipes && Tracked(rows, End(p, false)) && bytes != []
      requires p.ring.buffered < PIPE_BUFFER_CAPACITY
      modifies p.ring, p.ring.data
      ensures Valid() && p in old(State()).streams && 0 < n <= |bytes|
      ensures n == Smaller(|bytes|, PIPE_BUFFER_CAPACITY - |Unread(old(State()).streams[p])|)
      ensures Enabled(old(State()), Write(p, bytes[..n])) && State() == Accepted(old(State()), p, bytes[..n])
      ensures p.ring.taken == old(p.ring.taken) && p.ring.accepted == old(p.ring.accepted) + bytes[..n]
    {
      hide Sound, Counted, Buffers, Count, RingBuffer.Valid, RingBuffer.Contents, Tracked, Unread;
      PipeOf(End(p, false));
      OwnRing(p);
      n := p.ring.Write(bytes);
      RingWritten(p);
    }
  }

  /** A pipe is in use exactly if some row leads to it. */
  lemma InUseTracked(rows: seq<Row<Pipe>>, p: Pipe)
    ensures InUse(rows, p) <==> exists j: nat | j < |rows| :: rows[j].end.pipe == p
  {
    hide Count;
    CountTracked(rows, End(p, true));
    CountTracked(rows, End(p, false));
    if j: nat :| j < |rows| && rows[j].end.pipe == p {
      assert rows[j].end == End(p, true) || rows[j].end == End(p, false);
    }
  }

  lemma ValidSound(m: PipeManager)
    requires m.Valid()
    ensures Sound(m.State()) && m.State().rows == m.rows && m.State().streams.Keys == m.pipes
  {
  }

  /** A new pipe has one descriptor at each end. */
  lemma FreshEnds(S: State<Pipe>, owner: nat, readFd: int, writeFd: int, p: Pipe)
    requires Sound(S) && p !in S.streams && |S.rows| + 2 <= MAX_TRACKED_PIPES
    ensures var rows := Opened(S, owner, readFd, writeFd, p).rows;
      && Tracked(rows, End(p, true)) && Tracked(rows, End(p, false))
      && OneReader(rows, p)
  {
    var T := Opened(S, owner, readFd, writeFd, p);
    OpenedSound(S, owner, readFd, writeFd, p);
    CountTracked(S.rows, End(p, true));
    CountTracked(S.rows, End(p, false));
    CountTracked(T.rows, End(p, true));
    CountTracked(T.rows, End(p, false));
    forall k: nat | k < |T.rows| && T.rows[k].end == End(p, true)
      ensures !Tracked(T.rows[..k] + T.rows[k + 1..], End(p, true))
      ensures Tracked(T.rows[..k] + T.rows[k + 1..], End(p, false))
    {
      ClosedSound(T, k);
      CountTracked(T.rows[..k] + T.rows[k + 1..], End(p, true));
      CountTracked(T.rows[..k] + T.rows[k + 1..], End(p, false));
    }
  }

  /**
   A run in which a byte goes into a pipe that nobody can read any more: the writer
   sleeps at the full pipe, the reader takes a byte and closes its end, and the
   writer goes on.
   */
  method WriteAfterLastReader(m: PipeManager, owner: nat, bytes: seq<Byte>)
    returns (asleep: Outcome, late: Outcome, pipe: Pipe)
    requires m.Valid() && |m.rows| + 2 <= MAX_TRACKED_PIPES && |bytes| == PIPE_BUFFER_CAPACITY
    modifies m, m.pipes
    ensures m.Valid() && pipe in m.State().streams
    ensures asleep == Asleep && late == Done(1) && !Tracked(m.rows, End(pipe, true))
    ensures m.State().streams[pipe].accepted == bytes + bytes[..1]
  {
    hide Sound, Counted, Buffers, Count, Tracked, PipeManager.Valid, PipeManager.State;
    ghost var S := m.State();
    ValidSound(m);
    var _, created := m.CreatePipe(Some(owner), 0, 1);
    pipe := created;
    FreshEnds(S, owner, 0, 1, pipe);
    ValidSound(m);
    assert m.rows[|S.rows|] == Row(owner, 0, End(pipe, true));
    asleep := FillAndSleep(m, pipe, bytes);
    ValidSound(m);
    ReadAndClose(m, owner, pipe, bytes);
    assert bytes[..1][..1] == bytes[..1];
    late := m.PipeWrite(End(pipe, false), bytes[..1], false, Woken);
    ValidSound(m);
  }

  /** Only one descriptor leads to the end of a pipe that is read, and its other end is tracked. */
  ghost predicate OneReader(rows: seq<Row<Pipe>>, p: Pipe) {
    forall k: nat | k < |rows| && rows[k].end == End(p, true) ::
      !Tracked(rows[..k] + rows[k + 1..], End(p, true)) && Tracked(rows[..k] + rows[k + 1..], End(p, false))
  }

  /** Take one byte out of a full pipe and close its only reading descriptor. */
  method ReadAndClose(m: PipeManager, owner: nat, pipe: Pipe, ghost bytes: seq<Byte>)
    requires m.Valid() && |bytes| == PIPE_BUFFER_CAPACITY && Row(owner, 0, End(pipe, true)) in m.rows
    requires Tracked(m.rows, End(pipe, true)) && OneReader(m.rows, pipe)
    requires pipe in m.State().streams && m.State().streams[pipe] == Stream(bytes, [])
    modifies m, m.pipes, pipe.ring
    ensures m.Valid() && !Tracked(m.rows, End(pipe, true)) && Tracked(m.rows, End(pipe, false))
    ensures pipe in m.State().streams && m.State().streams[pipe] == Stream(bytes, bytes[..1])
  {
    hide Sound, Counted, Buffers, Count, Tracked, PipeManager.Valid, PipeManager.State;
    ValidSound(m);
    var _, _ := m.PipeRead(End(pipe, true), 1, false, Anew);
    ValidSound(m);
    var _, k := m.ClosePipe(Some(owner), 0, Some(End(pipe, true)));
    ValidSound(m);
  }

  /** Fill an empty pipe and try to write one byte more. */
  method FillAndSleep(m: PipeManager, pipe: Pipe, bytes: seq<Byte>) returns (asleep: Outcome)
    requires m.Valid() && |bytes| == PIPE_BUFFER_CAPACITY
    requires Tracked(m.rows, End(pipe, false)) && Tracked(m.rows, End(pipe, true))
    requires pipe in m.State().streams && m.State().streams[pipe] == Stream([], [])
    modifies pipe.ring, pipe.ring.data
    ensures m.Valid() && asleep == Asleep
    ensures m.State() == old(m.State()).(streams := old(m.State()).streams[pipe := Stream(bytes, [])])
  {
    hide Sound, Counted, Buffers, Count, Tracked, PipeManager.Valid, PipeManager.State;
    var _ := m.PipeWrite(End(pipe, false), bytes, false, Anew);
    assert bytes[..|bytes|] == bytes && [] + bytes == bytes;
    ValidSound(m);
    asleep := m.PipeWrite(End(pipe, false), bytes[..1], false, Anew);
  }
}
