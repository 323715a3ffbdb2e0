/**
 Whole runs of the allocator. A run takes blocks and gives blocks back in any order;
 what is given back need not be what was handed out, only pages that are owned: a
 block may come back in pieces, and several blocks as one.
 */
module AllocatorRuns {
  import opened Common
  import opened Powers
  import opened FreeLists
  import opened PhysicalMemory

  datatype Range = Range(total: nat, top: nat)

  /** The free lists, the free pages, and the pages that were handed out and not given back. */
  datatype State = State(lists: Lists, free: set<nat>, owned: set<nat>)

  datatype Request = Take(pages: nat) | GiveBack(start: nat, pages: nat)

  /** A block that can be given back: it has an order the lists know, is aligned, and is owned. */
  ghost predicate Returnable(m: Range, s: State, start: nat, pages: nat) {
    pages > 0 && OrderFor(pages) <= m.top && Aligned(OrderFor(pages), start) && Run(OrderFor(pages), start) <= s.owned
  }

  ghost function Step(m: Range, s: State, r: Request): State
    requires m.top < MAX_BUDDY_ORDERS
  {
    match r
    case Take(pages) =>
      var k := OrderFor(pages);
      if pages == 0 || k > m.top then s else
      (match Allocate(s.lists, k, m.top)
       case None => s
       case Some(a) => State(a.lists, s.free - Run(k, a.start), s.owned + Run(k, a.start)))
    case GiveBack(i, pages) =>
      var k := OrderFor(pages);
      if !Returnable(m, s, i, pages) then s
      else State(Free(s.lists, k, i, m.top, m.total), s.free + Run(k, i), s.owned - Run(k, i))
  }

  ghost function Execute(m: Range, s: State, run: seq<Request>): State
    requires m.top < MAX_BUDDY_ORDERS
    decreases |run|
  {
    if run == [] then s else Execute(m, Step(m, s, run[0]), run[1..])
  }

  /** The lists are canonical, and every page of the range is either free or owned. */
  ghost predicate Sound(m: Range, s: State) {
    && m.top < MAX_BUDDY_ORDERS && Canonical(s.lists, s.free, m.top)
    && s.free !! s.owned && forall p: nat :: p in s.free + s.owned <==> p < m.total
  }

  /** A block handed out is aligned and in range, was free, and is owned afterwards. */
  lemma TakeSound(m: Range, s: State, pages: nat)
    requires Sound(m, s)
    ensures var s' := Step(m, s, Take(pages));
      && Sound(m, s')
      && (s' == s || exists i: nat ::
            FreeRun(s.free, OrderFor(pages), i) && s'.owned == s.owned + Run(OrderFor(pages), i))
  {
    var k := OrderFor(pages);
    if pages > 0 && k <= m.top && Allocate(s.lists, k, m.top).Some? {
      AllocateCanonical(s.lists, s.free, m.top, k);
      var i := Allocate(s.lists, k, m.top).value.start;
      assert FreeRun(s.free, k, i);
      var s' := Step(m, s, Take(pages));
      assert s'.free + s'.owned == s.free + s.owned;
    }
  }

  lemma GiveBackSound(m: Range, s: State, i: nat, pages: nat)
    requires Sound(m, s)
    ensures Sound(m, Step(m, s, GiveBack(i, pages)))
  {
    if Returnable(m, s, i, pages) {
      var k := OrderFor(pages);
      assert forall p: nat | p in s.free :: p in s.free + s.owned;
      FreeCanonical(s.lists, s.free, m.top, m.total, k, i);
      var s' := Step(m, s, GiveBack(i, pages));
      assert s'.free + s'.owned == s.free + s.owned;
    }
  }

  /** Every reachable state is sound. */
  lemma {:induction false} RunSound(m: Range, s: State, run: seq<Request>)
    requires Sound(m, s)
    ensures Sound(m, Execute(m, s, run))
    decreases |run|
  {
    if run != [] {
      match run[0] {
        case Take(pages) => TakeSound(m, s, pages);
        case GiveBack(i, pages) => GiveBackSound(m, s, i, pages);
      }
      RunSound(m, Step(m, s, run[0]), run[1..]);
    }
  }

  /** Nothing that is given back along the run meets the pages. */
  ghost predicate Spared(pages: set<nat>, run: seq<Request>) {
    forall k | 0 <= k < |run| && run[k].GiveBack? :: Run(OrderFor(run[k].pages), run[k].start) !! pages
  }

  /**
   Owned pages stay owned until they are given back. A block handed out later was free
   then, so it has no page in common with one that is still held.
   */
  lemma {:induction false} HeldUntilGivenBack(m: Range, s: State, run: seq<Request>, pages: set<nat>)
    requires Sound(m, s) && pages <= s.owned && Spared(pages, run)
    ensures pages <= Execute(m, s, run).owned && pages !! Execute(m, s, run).free
    decreases |run|
  {
    RunSound(m, s, run);
    if run != [] {
      match run[0] {
        case Take(n) => TakeSound(m, s, n);
        case GiveBack(i, n) => GiveBackSound(m, s, i, n);
      }
      assert Spared(pages, run[1..]) by {
        assert forall k | 0 <= k < |run[1..]| :: run[1..][k] == run[k + 1];
      }
      HeldUntilGivenBack(m, Step(m, s, run[0]), run[1..], pages);
    }
  }

  /** Two runs that leave the same pages free leave the same blocks on every list. */
  lemma RunsAgree(m: Range, s: State, run: seq<Request>, s': State, run': seq<Request>, k: nat)
    requires Sound(m, s) && Sound(m, s') && k < MAX_BUDDY_ORDERS
    requires Execute(m, s, run).free == Execute(m, s', run').free
    ensures multiset(Execute(m, s, run).lists[k]) == multiset(Execute(m, s', run').lists[k])
  {
    RunSound(m, s, run);
    RunSound(m, s', run');
    CanonicalDetermined(Execute(m, s, run).lists, Execute(m, s', run').lists, Execute(m, s, run).free, m.top, k);
  }

  /** Once everything has been given back, the lists hold what they held when nothing was owned. */
  lemma AllGivenBack(m: Range, s: State, run: seq<Request>, k: nat)
    requires Sound(m, s) && s.owned == {} && k < MAX_BUDDY_ORDERS && Execute(m, s, run).owned == {}
    ensures Execute(m, s, run).free == s.free
    ensures multiset(Execute(m, s, run).lists[k]) == multiset(s.lists[k])
  {
    RunSound(m, s, run);
    var e := Execute(m, s, run);
    assert e.free + {} == e.free && s.free + {} == s.free;
    assert forall p: nat :: p in e.free <==> p in s.free;
    RunsAgree(m, s, run, s, [], k);
  }

  /** In every reachable state the listed blocks and the owned pages account for every page once. */
  lemma Conservation(m: Range, s: State, run: seq<Request>)
    requires Sound(m, s)
    ensures var e := Execute(m, s, run);
      ListedPages(e.lists) == |e.free| && |e.free| + |e.owned| == m.total
  {
    RunSound(m, s, run);
    var e := Execute(m, s, run);
    ListedPagesIsFreeCount(e.lists, e.free, m.top);
    IntervalSize(0, m.total, e.free + e.owned);
  }

  // ---- the program does just that ----

  /** Every block the run gives back and the program would accept is owned at that time. */
  ghost predicate WellFormed(m: Range, s: State, run: seq<Request>)
    requires m.top < MAX_BUDDY_ORDERS
    decreases |run|
  {
    run != [] ==>
      && (run[0].GiveBack? ==> Fits(m, run[0].start, run[0].pages) ==> Returnable(m, s, run[0].start, run[0].pages))
      && WellFormed(m, Step(m, s, run[0]), run[1..])
  }

  /** A block of the range that the program's own checks let through. */
  ghost predicate Fits(m: Range, start: nat, pages: nat) {
    && pages > 0 && OrderFor(pages) <= m.top && start + Pow2(OrderFor(pages)) <= m.total
    && Aligned(OrderFor(pages), start)
  }

  ghost function RangeOf(pmm: PhysicalMemoryManager): Range
    reads pmm
  {
    Range(pmm.total, pmm.maxOrder)
  }

  /** The state of the allocator; what is not free is owned. */
  ghost function StateOf(pmm: PhysicalMemoryManager): State
    reads pmm
  {
    State(pmm.lists, pmm.free, set p: nat | p < pmm.total && p !in pmm.free)
  }

  lemma StateSound(pmm: PhysicalMemoryManager)
    requires pmm.Valid()
    ensures Sound(RangeOf(pmm), StateOf(pmm))
  {
  }

  method Serve(pmm: PhysicalMemoryManager, r: Request)
    requires pmm.Valid() && WellFormed(RangeOf(pmm), StateOf(pmm), [r])
    modifies pmm`freeCount, pmm`next, pmm`lists, pmm`free, pmm.heads
    ensures pmm.Valid() && RangeOf(pmm) == old(RangeOf(pmm))
    ensures StateOf(pmm) == Step(old(RangeOf(pmm)), old(StateOf(pmm)), r)
  {
    hide Canonical, Run, Pow2, OrderFor, Free, Allocate, PhysicalMemoryManager.Valid;
    StateSound(pmm);
    ghost var m, s := RangeOf(pmm), StateOf(pmm);
    assert forall p: nat | p in s.free :: p in s.free + s.owned;
    match r {
      case Take(pages) =>
        TakeSound(m, s, pages);
        if OrderFor(pages) <= m.top { AllocateComplete(s.lists, s.free, m.top, OrderFor(pages)); }
        var address := pmm.AllocatePagesFromDescriptor(pages);
        StateSound(pmm);
        assert StateOf(pmm).owned == Step(m, s, r).owned;
      case GiveBack(start, pages) =>
        GiveBackSound(m, s, start, pages);
        FitsAccepts(pmm, start, pages);
        var ok := pmm.FreePagesFromDescriptor(pmm.AddressAt(start), pages);
        StateSound(pmm);
        assert StateOf(pmm).owned == Step(m, s, r).owned;
    }
  }

  lemma FitsAccepts(pmm: PhysicalMemoryManager, start: nat, pages: nat)
    requires pmm.Valid()
    ensures pmm.base <= pmm.AddressAt(start) && pmm.PageOf(pmm.AddressAt(start)) == start
    ensures pmm.Accepts(pmm.AddressAt(start), pages) <==> Fits(RangeOf(pmm), start, pages)
    ensures Returnable(RangeOf(pmm), StateOf(pmm), start, pages) ==>
      Fits(RangeOf(pmm), start, pages) && Run(OrderFor(pages), start) !! pmm.free
  {
    var k := OrderFor(pages);
    AlignedIsRemainder(k, start);
    assert InRun(k, start, start + Pow2(k) - 1);
    assert start + Pow2(k) - 1 in Run(k, start);
  }

  /** A whole run of requests: the program takes the steps of the model. */
  method ServeAll(pmm: PhysicalMemoryManager, run: seq<Request>)
    requires pmm.Valid() && WellFormed(RangeOf(pmm), StateOf(pmm), run)
    modifies pmm`freeCount, pmm`next, pmm`lists, pmm`free, pmm.heads
    ensures pmm.Valid() && RangeOf(pmm) == old(RangeOf(pmm))
    ensures StateOf(pmm) == Execute(old(RangeOf(pmm)), old(StateOf(pmm)), run)
  {
    hide PhysicalMemoryManager.Valid;
    ghost var m, s := RangeOf(pmm), StateOf(pmm);
    StateSound(pmm);
    var k := 0;
    assert run[0..] == run;
    while k < |run|
      invariant 0 <= k <= |run| && pmm.Valid() && RangeOf(pmm) == m && m.top < MAX_BUDDY_ORDERS
      invariant Execute(m, StateOf(pmm), run[k..]) == Execute(m, s, run)
      invariant WellFormed(m, StateOf(pmm), run[k..])
    {
      assert run[k..][1..] == run[k + 1..];
      Serve(pmm, run[k]);
      k := k + 1;
    }
  }
}
