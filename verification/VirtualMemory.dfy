/**
 The virtual memory manager: edits four-level page tables in place, taking the
 pages for new tables from the buddy allocator.
 */
module VirtualMemory {
  import opened Common
  import opened PageTables
  import opened PageTableCopy
  import PM = PhysicalMemory
  import FL = FreeLists
  import Links = FreeListLinks
  import Powers

  /** The pages that hold page tables, shared by all address spaces. */
  class PageMemory {
    var tables: Memory

    constructor ()
      ensures tables == map[]
    {
      tables := map[];
    }
  }

  const UINT64_MAX := 0xFFFF_FFFF_FFFF_FFFF

  // ---- the allocator seen as a set of page frames ----

  predicate FreeAt(base: nat, free: set<nat>, f: nat) {
    f >= base / Links.PAGE_SIZE && f - base / Links.PAGE_SIZE in free
  }

  ghost function Frames(base: nat, total: nat, free: set<nat>): set<nat> {
    set f | base / Links.PAGE_SIZE <= f < base / Links.PAGE_SIZE + total && FreeAt(base, free, f)
  }

  lemma SinglePages(free: set<nat>, p: nat)
    ensures PM.OrderFor(1) == 0 && FL.Run(0, p) == {p}
    ensures FL.FreeRun(free, 0, p) <==> p in free
  {
    assert Powers.Pow2(0) == 1;
    assert forall q | q in FL.Run(0, p) :: FL.InRun(0, p, q);
  }

  lemma FrameOfPage(base: nat, total: nat, free: set<nat>, p: nat)
    requires base % Links.PAGE_SIZE == 0 && p < total
    requires forall q | q in free :: q < total
    ensures Links.AddressOf(base, p) / Links.PAGE_SIZE == base / Links.PAGE_SIZE + p
    ensures (Links.AddressOf(base, p) - base) / Links.PAGE_SIZE == p
    ensures Links.AddressOf(base, p) % Links.PAGE_SIZE == 0
    ensures Frames(base, total, free - {p}) == Frames(base, total, free) - {base / Links.PAGE_SIZE + p}
    ensures Frames(base, total, free + {p}) == Frames(base, total, free) + {base / Links.PAGE_SIZE + p}
    ensures base / Links.PAGE_SIZE + p in Frames(base, total, free) <==> p in free
  {
    var f := base / Links.PAGE_SIZE + p;
    assert FreeAt(base, free, f) <==> p in free;
    forall g: nat
      ensures FreeAt(base, free - {p}, g) <==> FreeAt(base, free, g) && g != f
      ensures FreeAt(base, free + {p}, g) <==> FreeAt(base, free, g) || g == f
    {
    }
  }

  lemma NoFrames(base: nat, total: nat, free: set<nat>)
    requires base % Links.PAGE_SIZE == 0 && forall q | q in free :: q < total
    ensures free == {} <==> Frames(base, total, free) == {}
  {
    if p: nat :| p in free {
      assert FreeAt(base, free, base / Links.PAGE_SIZE + p);
      assert base / Links.PAGE_SIZE + p in Frames(base, total, free);
    }
  }

  // ---- what a step may do to a tree ----

  /** There are as many free frames as free pages. */
  lemma {:induction false} FramesSize(base: nat, total: nat, free: set<nat>)
    requires forall p | p in free :: p < total
    ensures |Frames(base, total, free)| == |free|
    decreases |free|
  {
    if free == {} {
      assert forall f: nat :: !FreeAt(base, free, f);
      assert Frames(base, total, free) == {};
    } else {
      var p :| p in free;
      var f := base / Links.PAGE_SIZE + p;
      FramesSize(base, total, free - {p});
      assert f - base / Links.PAGE_SIZE == p;
      assert FreeAt(base, free, f);
      assert f in Frames(base, total, free);
      assert Frames(base, total, free - {p}) == Frames(base, total, free) - {f};
    }
  }

  lemma TakenSize(F: set<nat>, F': set<nat>, n: nat, n': nat)
    requires F' <= F && |F| == n && |F'| == n'
    ensures |F - F'| + n' == n
  {
    assert F == F' + (F - F');
  }

  /**
   The tree below the first n entries of table a has grown by exactly the frames taken
   from the allocator; the other entries of a and the pages outside the tree and the
   free frames are as they were.
   */
  ghost predicate Grown(M: Memory, free: set<nat>, M': Memory, free': set<nat>, a: nat, level: nat, n: nat)
    requires n <= ENTRIES
  {
    && free' <= free
    && Tree(M', a, level, n) && Tables(M', a, level, n) == Tables(M, a, level, n) + (free - free')
    && (forall j: Index | n <= j :: Slot(M', a, j) == Slot(M, a, j))
    && forall x | x in M && x !in Tables(M, a, level, n) && x !in free :: Same(M, M', x)
  }

  /** Entry i of table a leads to a table now, and nothing else was added. */
  ghost predicate Provided(M: Memory, M': Memory, a: nat, level: nat, n: nat, i: Index)
    requires 0 < level
  {
    forall v: VPage | IndexAt(v, level) < n ::
      Missing(M', a, level, v) ==
      if IndexAt(v, level) == i then Smaller(Missing(M, a, level, v), level - 1) else Missing(M, a, level, v)
  }

  /** The user bits of entry i were raised if asked, and no other page's; walks that got no longer end as before. */
  ghost predicate Opened(M: Memory, M': Memory, a: nat, level: nat, n: nat, i: Index, user: bool)
    requires 0 < level
  {
    forall v: VPage | IndexAt(v, level) < n ::
      && TraceOf(M', a, level, v).users ==
         (if user && IndexAt(v, level) == i then Raise(TraceOf(M, a, level, v).users, level - 1)
          else TraceOf(M, a, level, v).users)
      && (Missing(M', a, level, v) == Missing(M, a, level, v) ==>
          TraceOf(M', a, level, v).last == TraceOf(M, a, level, v).last)
  }

  /**
   If user is set, the table entries on the path of v were opened to user mode, from
   above until rest levels were left, and no other entry was; else none was. The walk
   for v ends at the leaf (if it is one), and every other walk that got no longer ends
   where it did.
   */
  ghost predicate Traced(M: Memory, M': Memory, a: nat, level: nat, n: nat, v: VPage, rest: nat, user: bool,
                         leaf: Option<Entry>) {
    forall w: VPage | IndexAt(w, level) < n ::
      && TraceOf(M', a, level, w).users ==
         (if user then Raise(TraceOf(M, a, level, w).users, Larger(Apart(v, w, level), rest))
          else TraceOf(M, a, level, w).users)
      && if leaf.Some? && SamePath(w, v, level) then TraceOf(M', a, level, w).last == leaf.value
         else Missing(M', a, level, w) == Missing(M, a, level, w) ==>
           TraceOf(M', a, level, w).last == TraceOf(M, a, level, w).last
  }

  /** The walk for v ends at another leaf (if it is one), and every other walk where it did. */
  ghost predicate LastChanged(M: Memory, M': Memory, a: nat, level: nat, n: nat, v: VPage, leaf: Option<Entry>) {
    forall w: VPage | IndexAt(w, level) < n ::
      TraceOf(M', a, level, w).last ==
      if leaf.Some? && SamePath(w, v, level) then leaf.value else TraceOf(M, a, level, w).last
  }

  /** The missing tables on the path of v were added from above until rest of them were left, and no others. */
  ghost predicate PathAdded(M: Memory, M': Memory, a: nat, level: nat, n: nat, v: VPage, rest: nat) {
    forall w: VPage | IndexAt(w, level) < n ::
      Missing(M', a, level, w) == Smaller(Missing(M, a, level, w), Larger(Apart(v, w, level), rest))
  }

  /** Page v has the mapping m (if it is one), and every other page kept its mapping. */
  ghost predicate Remapped(M: Memory, M': Memory, a: nat, level: nat, n: nat, v: VPage, m: Option<Mapping>) {
    forall w: VPage | IndexAt(w, level) < n ::
      Lookup(M', a, level, w) == if m.Some? && SamePath(w, v, level) then m else Lookup(M, a, level, w)
  }

  datatype PageMappingFlags = PageMappingFlags(user: bool, writeable: bool)

  class VirtualMemoryManager {
    const root: nat                       // the frame of the PML4
    const pmm: PM.PhysicalMemoryManager
    const memory: PageMemory

    constructor (root: nat, pmm: PM.PhysicalMemoryManager, memory: PageMemory)
      ensures this.root == root && this.pmm == pmm && this.memory == memory
    {
      this.root, this.pmm, this.memory := root, pmm, memory;
    }

    /** The page frames the allocator can still hand out. */
    ghost function Free(): set<nat>
      reads pmm
    {
      Frames(pmm.base, pmm.total, pmm.free)
    }

    lemma FreeSize()
      requires pmm.Valid()
      ensures |Free()| == pmm.freeCount
    {
      FramesSize(pmm.base, pmm.total, pmm.free);
    }

    /** Take a page for a table and clear it; 0 when the allocator is exhausted. */
    method NewTable() returns (frame: nat)
      requires pmm.Valid()
      modifies pmm, pmm.heads, memory
      ensures pmm.Valid() && pmm.base == old(pmm.base) && pmm.total == old(pmm.total)
      ensures (frame == 0 <==> old(Free()) == {}) && (frame == 0 <==> old(pmm.freeCount) == 0)
      ensures frame == 0 ==>
        Free() == old(Free()) && memory.tables == old(memory.tables) && pmm.freeCount == old(pmm.freeCount)
      ensures frame != 0 ==>
        && frame in old(Free()) && Free() == old(Free()) - {frame} && frame < TABLE_FRAME_LIMIT
        && memory.tables == old(memory.tables)[frame := EMPTY_TABLE]
        && pmm.freeCount == old(pmm.freeCount) - 1
    {
      NoFrames(pmm.base, pmm.total, pmm.free);
      hide Frames, FreeAt, FL.Run, FL.Allocate, PM.OrderFor, PM.FirstOfSmallest;
      ghost var free := pmm.free;
      var address := pmm.AllocatePagesFromDescriptor(1);
      SinglePages(free, 0);
      if address == 0 {
        forall p: nat ensures p !in free { SinglePages(free, p); }
        return 0;
      }
      ghost var p := pmm.PageOf(address);
      SinglePages(free, p);
      assert p in free;
      FrameOfPage(pmm.base, pmm.total, free, p);
      frame := address / Links.PAGE_SIZE;
      memory.tables := memory.tables[frame := EMPTY_TABLE];
    }

    /** Fill a new table with the pieces of a large page. */
    method FillPieces(c: nat, e: Entry, level: nat)
      requires c in memory.tables
      modifies memory
      ensures memory.tables == old(memory.tables)[c := Pieces(e, level)]
    {
      var k := 0;
      while k < ENTRIES
        invariant 0 <= k <= ENTRIES && c in memory.tables
        invariant forall x :: x in memory.tables <==> x in old(memory.tables)
        invariant forall x | x in memory.tables && x != c :: memory.tables[x] == old(memory.tables[x])
        invariant forall j: Index | j < k :: memory.tables[c][j] == Piece(e, level, j)
      {
        memory.tables := WriteSlot(memory.tables, c, k, Piece(e, level, k));
        k := k + 1;
      }
      assert memory.tables[c] == Pieces(e, level);
    }

    /**
     Make entry i of table a lead to a table: allocate one if the entry is absent,
     split a large page, and raise the user bit on the way if the mapping needs it.
     */
    method EnsureTable(a: nat, level: nat, ghost n: nat, i: Index, user: bool) returns (ok: bool, child: nat)
      requires pmm.Valid() && 0 < level <= 3 && i < n <= ENTRIES
      requires Tree(memory.tables, a, level, n) && Tables(memory.tables, a, level, n) !! Free()
      modifies pmm, pmm.heads, memory
      ensures pmm.Valid() && pmm.base == old(pmm.base) && pmm.total == old(pmm.total)
      ensures Grown(old(memory.tables), old(Free()), memory.tables, Free(), a, level, n)
      ensures SameMeaning(old(memory.tables), memory.tables, a, level, n)
      ensures ok <==> old(IsTable(Slot(memory.tables, a, i), level) || pmm.freeCount > 0)
      ensures !ok ==> Free() == {} && memory.tables == old(memory.tables)
      ensures pmm.freeCount == if ok && !old(IsTable(Slot(memory.tables, a, i), level)) then old(pmm.freeCount) - 1
                               else old(pmm.freeCount)
      ensures ok ==> IsTable(Slot(memory.tables, a, i), level) && child == Slot(memory.tables, a, i).frame
      ensures ok ==> Provided(old(memory.tables), memory.tables, a, level, n, i)
      ensures ok ==> Opened(old(memory.tables), memory.tables, a, level, n, i, user)
    {
      hide Tables, Tree, Flat, GoodSlot, Lookup, Piece, TraceOf, Opened, Raise;
      hide PM.PhysicalMemoryManager.Valid;
      SlotOfTree(memory.tables, a, level, n, i);
      SelfInTables(memory.tables, a, level, n);
      var e := memory.tables[a][i];
      if !e.present {
        ok, child := LinkTable(a, level, n, i, user);
        return;
      }
      if level < 3 && e.size {
        ok, child := SplitLargePage(a, level, n, i, user);
        return;
      }
      OpenedAlready(memory.tables, a, level, n, i, user);
      if user && !e.user {
        RetagTable(memory.tables, a, level, n, i, BuildNonLeaf(e.frame, e, true));
        OpenedRetag(memory.tables, WriteSlot(memory.tables, a, i, BuildNonLeaf(e.frame, e, true)), a, level, n, i);
        memory.tables := WriteSlot(memory.tables, a, i, BuildNonLeaf(e.frame, e, true));
      }
      return true, e.frame;
    }

    /** Point an absent entry at a new empty table. */
    method LinkTable(a: nat, level: nat, ghost n: nat, i: Index, user: bool) returns (ok: bool, child: nat)
      requires pmm.Valid() && 0 < level <= 3 && i < n <= ENTRIES
      requires Tree(memory.tables, a, level, n) && Tables(memory.tables, a, level, n) !! Free()
      requires a in memory.tables && !Slot(memory.tables, a, i).present
      modifies pmm, pmm.heads, memory
      ensures pmm.Valid() && pmm.base == old(pmm.base) && pmm.total == old(pmm.total)
      ensures Grown(old(memory.tables), old(Free()), memory.tables, Free(), a, level, n)
      ensures SameMeaning(old(memory.tables), memory.tables, a, level, n)
      ensures ok <==> old(pmm.freeCount) > 0
      ensures !ok ==> Free() == {} && memory.tables == old(memory.tables)
      ensures pmm.freeCount == if ok then old(pmm.freeCount) - 1 else 0
      ensures ok ==> IsTable(Slot(memory.tables, a, i), level) && child == Slot(memory.tables, a, i).frame
      ensures ok ==> Provided(old(memory.tables), memory.tables, a, level, n, i)
      ensures ok ==> Opened(old(memory.tables), memory.tables, a, level, n, i, user)
    {
      hide Tables, Tree, Flat, GoodSlot, Lookup, TraceOf, Opened;
      hide PM.PhysicalMemoryManager.Valid;
      ghost var M := memory.tables;
      SelfInTables(M, a, level, n);
      child := NewTable();
      if child == 0 {
        return false, 0;
      }
      var e := BuildNonLeaf(child, ZERO, user);
      EmptyMeaning(M, a, level, i);
      InstallTable(M, a, level, n, i, child, EMPTY_TABLE, e);
      OpenedNew(M, WriteSlot(memory.tables, a, i, e), a, level, n, i, EMPTY_TABLE, e, user);
      memory.tables := WriteSlot(memory.tables, a, i, e);
      return true, child;
    }

    /** Replace a large page by a table of smaller pages with the same frames and permissions. */
    method SplitLargePage(a: nat, level: nat, ghost n: nat, i: Index, user: bool) returns (ok: bool, child: nat)
      requires pmm.Valid() && 0 < level < 3 && i < n <= ENTRIES
      requires Tree(memory.tables, a, level, n) && Tables(memory.tables, a, level, n) !! Free()
      requires a in memory.tables && Slot(memory.tables, a, i).present && Slot(memory.tables, a, i).size
      modifies pmm, pmm.heads, memory
      ensures pmm.Valid() && pmm.base == old(pmm.base) && pmm.total == old(pmm.total)
      ensures Grown(old(memory.tables), old(Free()), memory.tables, Free(), a, level, n)
      ensures SameMeaning(old(memory.tables), memory.tables, a, level, n)
      ensures ok <==> old(pmm.freeCount) > 0
      ensures !ok ==> Free() == {} && memory.tables == old(memory.tables)
      ensures pmm.freeCount == if ok then old(pmm.freeCount) - 1 else 0
      ensures ok ==> IsTable(Slot(memory.tables, a, i), level) && child == Slot(memory.tables, a, i).frame
      ensures ok ==> Provided(old(memory.tables), memory.tables, a, level, n, i)
      ensures ok ==> Opened(old(memory.tables), memory.tables, a, level, n, i, user)
    {
      hide Tables, Tree, Flat, GoodSlot, Lookup, Piece, TraceOf, Opened;
      hide PM.PhysicalMemoryManager.Valid;
      ghost var M := memory.tables;
      SlotOfTree(M, a, level, n, i);
      SelfInTables(M, a, level, n);
      var large := memory.tables[a][i];
      child := NewTable();
      if child == 0 {
        return false, 0;
      }
      FillPieces(child, large, level);
      var e := BuildNonLeaf(child, ZERO, large.user || user);
      PiecesMeaning(M, a, level, i);
      InstallTable(M, a, level, n, i, child, Pieces(large, level), e);
      assert memory.tables == M[child := Pieces(large, level)];
      PiecesUser(large, level);
      OpenedNew(M, WriteSlot(memory.tables, a, i, e), a, level, n, i, Pieces(large, level), e, user);
      memory.tables := WriteSlot(memory.tables, a, i, e);
      return true, child;
    }

    /** The part of MapPage from a table of the given level down. */
    method MapFrom(a: nat, level: nat, ghost n: nat, frame: nat, v: VPage, flags: PageMappingFlags)
      returns (ok: bool)
      requires pmm.Valid() && level <= 3 && IndexAt(v, level) < n <= ENTRIES
      requires Tree(memory.tables, a, level, n) && Tables(memory.tables, a, level, n) !! Free()
      modifies pmm, pmm.heads, memory
      ensures pmm.Valid() && pmm.base == old(pmm.base) && pmm.total == old(pmm.total)
      ensures Grown(old(memory.tables), old(Free()), memory.tables, Free(), a, level, n)
      ensures Remapped(old(memory.tables), memory.tables, a, level, n, v,
                       if ok then Some(Mapping(frame % SUPPORTED_FRAMES, flags.user, flags.writeable)) else None)
      // it succeeds exactly if there is a free page for each missing table, and takes just those
      ensures ok <==> old(pmm.freeCount) >= Missing(old(memory.tables), a, level, v)
      ensures pmm.freeCount == Short(old(pmm.freeCount), Missing(old(memory.tables), a, level, v))
      ensures !ok ==> Free() == {}
      ensures var rest := Short(Missing(old(memory.tables), a, level, v), old(pmm.freeCount));
        && PathAdded(old(memory.tables), memory.tables, a, level, n, v, rest)
        && Traced(old(memory.tables), memory.tables, a, level, n, v, rest, flags.user,
                  if ok then Some(BuildLeaf(frame, ZERO, flags.user, flags.writeable)) else None)
      decreases level
    {
      hide Tables, Tree, Flat, GoodSlot, Lookup, SamePath, Missing, Apart, TraceOf, Grown;
      hide Provided, PathAdded, Remapped, Opened, Traced;
      hide PM.PhysicalMemoryManager.Valid;
      if level == 0 {
        MapLowest(a, n, frame, v, flags);
        return true;
      }
      var i := IndexAt(v, level);
      ghost var M0, F0 := memory.tables, Free();
      MissingHere(M0, a, level, v);
      var child;
      ok, child := EnsureTable(a, level, n, i, flags.user);
      if !ok {
        NothingAdded(M0, a, level, n, v, Missing(M0, a, level, v), flags.user);
        return;
      }
      ghost var M1, F1, count := memory.tables, Free(), pmm.freeCount;
      ChildTree(M0, F0, M1, F1, a, level, n, i);
      MissingProvided(M0, M1, a, level, n, v);
      ok := MapFrom(child, level - 1, ENTRIES, frame, v, flags);
      MappedThrough(M0, F0, M1, F1, memory.tables, Free(), a, level, n, v,
                    Short(Missing(M1, child, level - 1, v), count),
                    if ok then Some(Mapping(frame % SUPPORTED_FRAMES, flags.user, flags.writeable)) else None,
                    flags.user, if ok then Some(BuildLeaf(frame, ZERO, flags.user, flags.writeable)) else None);
    }

    /** Write the entry of v in a lowest-level table. */
    method MapLowest(a: nat, ghost n: nat, frame: nat, v: VPage, flags: PageMappingFlags)
      requires v.pt < n <= ENTRIES && Tree(memory.tables, a, 0, n)
      modifies memory
      ensures forall free :: Grown(old(memory.tables), free, memory.tables, free, a, 0, n)
      ensures Remapped(old(memory.tables), memory.tables, a, 0, n, v,
                       Some(Mapping(frame % SUPPORTED_FRAMES, flags.user, flags.writeable)))
      ensures Missing(old(memory.tables), a, 0, v) == 0 && PathAdded(old(memory.tables), memory.tables, a, 0, n, v, 0)
      ensures Traced(old(memory.tables), memory.tables, a, 0, n, v, 0, flags.user,
                     Some(BuildLeaf(frame, ZERO, flags.user, flags.writeable)))
    {
      hide Tables, Tree, Flat, GoodSlot;
      SelfInTables(memory.tables, a, 0, n);
      WritePage(memory.tables, a, n, v.pt, BuildLeaf(frame, ZERO, flags.user, flags.writeable));
      memory.tables := WriteSlot(memory.tables, a, v.pt, BuildLeaf(frame, ZERO, flags.user, flags.writeable));
    }

    /** Map the page v to a frame. */
    method MapPage(frame: nat, v: VPage, flags: PageMappingFlags, ghost n: nat) returns (ok: bool)
      requires pmm.Valid() && v.pml4 < n <= ENTRIES
      requires Tree(memory.tables, root, 3, n) && Tables(memory.tables, root, 3, n) !! Free()
      modifies pmm, pmm.heads, memory
      ensures pmm.Valid() && pmm.base == old(pmm.base) && pmm.total == old(pmm.total)
      ensures Grown(old(memory.tables), old(Free()), memory.tables, Free(), root, 3, n)
      ensures forall w: VPage | w.pml4 < n ::
        Translate(memory.tables, root, w) ==
        if ok && w == v then Some(Mapping(frame % SUPPORTED_FRAMES, flags.user, flags.writeable))
        else Translate(old(memory.tables), root, w)
      // it succeeds exactly if there is a free page for each missing table, and takes just those
      ensures ok <==> old(pmm.freeCount) >= Missing(old(memory.tables), root, 3, v)
      ensures pmm.freeCount == Short(old(pmm.freeCount), Missing(old(memory.tables), root, 3, v))
      ensures !ok ==> Free() == {}
      ensures var rest := Short(Missing(old(memory.tables), root, 3, v), old(pmm.freeCount));
        && PathAdded(old(memory.tables), memory.tables, root, 3, n, v, rest)
        && Traced(old(memory.tables), memory.tables, root, 3, n, v, rest, flags.user,
                  if ok then Some(BuildLeaf(frame, ZERO, flags.user, flags.writeable)) else None)
      // a page mapped for user mode is open to it, and no page that was open is closed
      ensures ok && flags.user ==> OpenToUser(memory.tables, root, v)
      ensures forall w: VPage | w.pml4 < n && OpenToUser(old(memory.tables), root, w) ::
        OpenToUser(memory.tables, root, w)
      ensures !flags.user ==> forall w: VPage | w.pml4 < n ::
        OpenToUser(memory.tables, root, w) == OpenToUser(old(memory.tables), root, w)
    {
      hide Tables, Tree, Lookup, Flat, GoodSlot;
      hide PM.PhysicalMemoryManager.Valid;
      ghost var M, count := memory.tables, pmm.freeCount;
      ok := MapFrom(root, 3, n, frame, v, flags);
      TracedOpens(M, memory.tables, root, n, v, Short(Missing(M, root, 3, v), count), flags.user,
                  if ok then Some(BuildLeaf(frame, ZERO, flags.user, flags.writeable)) else None);
      forall w: VPage
        ensures SamePath(w, v, 3) <==> w == v
      {
        SamePathIsEqual(w, v);
      }
    }

    method ProtectFrom(a: nat, level: nat, ghost n: nat, v: VPage, user: bool, writeable: bool) returns (ok: bool)
      requires level <= 3 && IndexAt(v, level) < n <= ENTRIES && Tree(memory.tables, a, level, n)
      modifies memory
      ensures Grown(old(memory.tables), {}, memory.tables, {}, a, level, n)
      ensures SameReach(old(memory.tables), memory.tables, a, level, n)
      ensures ok <==> ReachesPageTable(old(memory.tables), a, level, v)
                      && Lookup(old(memory.tables), a, level, v).Some?
      ensures Remapped(old(memory.tables), memory.tables, a, level, n, v,
                       if ok then Some(Mapping(Lookup(old(memory.tables), a, level, v).value.frame, user, writeable))
                       else None)
      ensures var e := TraceOf(old(memory.tables), a, level, v).last;
        LastChanged(old(memory.tables), memory.tables, a, level, n, v,
                    if ok then Some(BuildLeaf(e.frame, e, user, writeable)) else None)
      decreases level
    {
      WalkDown(memory.tables, a, level, v);
      hide Tables, Tree, Flat, GoodSlot, Lookup, Missing, TraceOf, Grown, SameReach, Remapped, LastChanged;
      ghost var M, last := memory.tables, TraceOf(memory.tables, a, level, v).last;
      SlotOfTree(M, a, level, n, IndexAt(v, level));
      SelfInTables(M, a, level, n);
      var e := memory.tables[a][IndexAt(v, level)];
      if !e.present || (level > 0 && !IsTable(e, level)) {
        NothingEdited(M, a, level, n, v);
      }
      if !e.present {
        return false;
      }
      if level == 0 {
        ProtectLowest(a, n, v, user, writeable);
        return true;
      }
      if level < 3 && e.size {
        return false;
      }
      ok := ProtectFrom(e.frame, level - 1, ENTRIES, v, user, writeable);
      ProtectedThrough(M, memory.tables, a, level, n, v,
                       if ok then Some(Mapping(Lookup(M, a, level, v).value.frame, user, writeable)) else None,
                       if ok then Some(BuildLeaf(last.frame, last, user, writeable)) else None);
    }

    /** Rewrite the present entry of v in a lowest-level table. */
    method ProtectLowest(a: nat, ghost n: nat, v: VPage, user: bool, writeable: bool)
      requires v.pt < n <= ENTRIES && Tree(memory.tables, a, 0, n)
      requires a in memory.tables && memory.tables[a][v.pt].present
      modifies memory
      ensures Grown(old(memory.tables), {}, memory.tables, {}, a, 0, n)
      ensures SameReach(old(memory.tables), memory.tables, a, 0, n)
      ensures Lookup(old(memory.tables), a, 0, v).Some?
      ensures Remapped(old(memory.tables), memory.tables, a, 0, n, v,
                       Some(Mapping(Lookup(old(memory.tables), a, 0, v).value.frame, user, writeable)))
      ensures var e := TraceOf(old(memory.tables), a, 0, v).last;
        LastChanged(old(memory.tables), memory.tables, a, 0, n, v, Some(BuildLeaf(e.frame, e, user, writeable)))
    {
      hide Tables, Tree, Flat;
      ghost var M := memory.tables;
      SlotOfTree(M, a, 0, n, v.pt);
      SelfInTables(M, a, 0, n);
      var e := memory.tables[a][v.pt];
      WritePage(M, a, n, v.pt, BuildLeaf(e.frame, e, user, writeable));
      memory.tables := WriteSlot(memory.tables, a, v.pt, BuildLeaf(e.frame, e, user, writeable));
    }

    /** Change the permissions of a mapped 4 KiB page. */
    method ProtectPage(v: VPage, user: bool, writeable: bool, ghost n: nat) returns (ok: bool)
      requires v.pml4 < n <= ENTRIES && Tree(memory.tables, root, 3, n)
      modifies memory
      ensures Grown(old(memory.tables), {}, memory.tables, {}, root, 3, n)
      ensures SameReach(old(memory.tables), memory.tables, root, 3, n)
      ensures ok <==> ReachesPageTable(old(memory.tables), root, 3, v)
                      && Translate(old(memory.tables), root, v).Some?
      ensures forall w: VPage | w.pml4 < n ::
        Translate(memory.tables, root, w) ==
        if ok && w == v then Some(Mapping(Translate(old(memory.tables), root, v).value.frame, user, writeable))
        else Translate(old(memory.tables), root, w)
      // the entry keeps all but its permissions
      ensures var e := TraceOf(old(memory.tables), root, 3, v).last;
        LastChanged(old(memory.tables), memory.tables, root, 3, n, v,
                    if ok then Some(BuildLeaf(e.frame, e, user, writeable)) else None)
    {
      hide Tables, Tree, Lookup, Flat, GoodSlot;
      ok := ProtectFrom(root, 3, n, v, user, writeable);
      forall w: VPage ensures SamePath(w, v, 3) <==> w == v { SamePathIsEqual(w, v); }
    }

    method UnmapFrom(a: nat, level: nat, ghost n: nat, v: VPage) returns (ok: bool)
      requires level <= 3 && IndexAt(v, level) < n <= ENTRIES && Tree(memory.tables, a, level, n)
      modifies memory
      ensures Grown(old(memory.tables), {}, memory.tables, {}, a, level, n)
      ensures SameReach(old(memory.tables), memory.tables, a, level, n)
      ensures ok <==> ReachesPageTable(old(memory.tables), a, level, v)
      ensures forall w: VPage | IndexAt(w, level) < n ::
        Lookup(memory.tables, a, level, w) ==
        if ok && SamePath(w, v, level) then None else Lookup(old(memory.tables), a, level, w)
      ensures LastChanged(old(memory.tables), memory.tables, a, level, n, v, if ok then Some(ZERO) else None)
      decreases level
    {
      hide Tables, Tree, Flat, GoodSlot;
      ghost var M := memory.tables;
      SlotOfTree(M, a, level, n, IndexAt(v, level));
      SelfInTables(M, a, level, n);
      if level == 0 {
        WritePage(M, a, n, v.pt, ZERO);
        memory.tables := WriteSlot(memory.tables, a, v.pt, ZERO);
        return true;
      }
      var e := memory.tables[a][IndexAt(v, level)];
      if !e.present || (level < 3 && e.size) {
        return false;
      }
      ok := UnmapFrom(e.frame, level - 1, ENTRIES, v);
      EditGrown(M, {}, M, {}, memory.tables, {}, a, level, n, IndexAt(v, level));
      SameReachBelow(M, memory.tables, a, level, n, IndexAt(v, level));
      LastChangedBelow(M, memory.tables, a, level, n, v, if ok then Some(ZERO) else None);
    }

    /** Remove the mapping of a 4 KiB page. */
    method UnmapPage(v: VPage, ghost n: nat) returns (ok: bool)
      requires v.pml4 < n <= ENTRIES && Tree(memory.tables, root, 3, n)
      modifies memory
      ensures Grown(old(memory.tables), {}, memory.tables, {}, root, 3, n)
      ensures SameReach(old(memory.tables), memory.tables, root, 3, n)
      ensures ok <==> ReachesPageTable(old(memory.tables), root, 3, v)
      ensures forall w: VPage | w.pml4 < n ::
        Translate(memory.tables, root, w) ==
        if ok && w == v then None else Translate(old(memory.tables), root, w)
      ensures LastChanged(old(memory.tables), memory.tables, root, 3, n, v, if ok then Some(ZERO) else None)
    {
      hide Tables, Tree, Lookup, Flat, GoodSlot;
      ok := UnmapFrom(root, 3, n, v);
      forall w: VPage ensures SamePath(w, v, 3) <==> w == v { SamePathIsEqual(w, v); }
    }

    /**
     Map a range of pages to consecutive frames; a page whose tables cannot be
     allocated is skipped. Returns the address after the range, and which pages failed.
     */
    method MapRange(physical: nat, virtual_: nat, pages: nat, flags: PageMappingFlags, ghost n: nat)
      returns (end: nat, ghost failed: set<nat>)
      requires pmm.Valid() && n <= ENTRIES && pages <= INDEX_SPACE
      requires forall k: nat | k < pages :: RangePage(FirstPage(virtual_), k).pml4 < n
      requires Tree(memory.tables, root, 3, n) && Tables(memory.tables, root, 3, n) !! Free()
      modifies pmm, pmm.heads, memory
      ensures pmm.Valid() && pmm.base == old(pmm.base) && pmm.total == old(pmm.total)
      ensures Grown(old(memory.tables), old(Free()), memory.tables, Free(), root, 3, n)
      ensures end == (FirstPage(virtual_) + pages) * Links.PAGE_SIZE
      // exactly those pages fail for which the free pages do not suffice when their turn comes
      ensures failed == RangeFailures(old(memory.tables), root, FirstPage(virtual_), pages, old(pmm.freeCount))
      ensures pmm.freeCount == RangeLeft(old(memory.tables), root, FirstPage(virtual_), pages, old(pmm.freeCount))
      // so none fails exactly if there is a free page for each table the range needs
      ensures failed == {} <==>
        old(pmm.freeCount) >= TablesNeeded(old(memory.tables), root, FirstPage(virtual_), pages)
      ensures failed == {} ==>
        pmm.freeCount + TablesNeeded(old(memory.tables), root, FirstPage(virtual_), pages) == old(pmm.freeCount)
      ensures failed != {} ==> Free() == {}
      // a page that fails keeps its mapping, and every other page is mapped as asked
      ensures forall k: nat | k < pages ::
        var v := RangePage(FirstPage(virtual_), k);
        if k in failed then Translate(memory.tables, root, v) == Translate(old(memory.tables), root, v)
        else
          && ReachesPageTable(memory.tables, root, 3, v)
          && (flags.user ==> OpenToUser(memory.tables, root, v))
          && Translate(memory.tables, root, v)
             == Some(Mapping((FirstPage(physical) + k) % SUPPORTED_FRAMES, flags.user, flags.writeable))
      // no other page changes
      ensures forall w: VPage | w.pml4 < n && !InRange(w, FirstPage(virtual_), pages) ::
        Translate(memory.tables, root, w) == Translate(old(memory.tables), root, w)
      // no page is closed to user mode, and none is opened by a mapping for the kernel
      ensures forall w: VPage | w.pml4 < n && OpenToUser(old(memory.tables), root, w) ::
        OpenToUser(memory.tables, root, w)
      ensures !flags.user ==> forall w: VPage | w.pml4 < n ::
        OpenToUser(memory.tables, root, w) == OpenToUser(old(memory.tables), root, w)
    {
      hide Tables, Tree, Lookup, Missing, Flat, GoodSlot, PageAt, RangePage, InRange, Apart;
      hide TraceOf, Traced, PathAdded, OpenToUser, Grown;
      hide PM.PhysicalMemoryManager.Valid, TablesNeeded, MissingAfter, RangeFailures, RangeLeft, RangeMissing;
      ghost var M0, F0 := memory.tables, Free();
      ghost var s := FirstPage(virtual_);
      var currentPhysical := FirstPage(physical) * Links.PAGE_SIZE;
      var currentVirtual := FirstPage(virtual_) * Links.PAGE_SIZE;
      failed := {};
      RangeStart(M0, root, s, n, FirstPage(physical), flags, pmm.freeCount);
      GrownStart(M0, F0, root, 3, n);
      var i := 0;
      while i < pages
        invariant 0 <= i <= pages
        invariant currentPhysical == (FirstPage(physical) + i) * Links.PAGE_SIZE
        invariant currentVirtual == (s + i) * Links.PAGE_SIZE
        invariant pmm.Valid() && pmm.base == old(pmm.base) && pmm.total == old(pmm.total)
        invariant Grown(M0, F0, memory.tables, Free(), root, 3, n) && Tables(memory.tables, root, 3, n) !! Free()
        invariant Budgeted(M0, memory.tables, root, s, i, n, failed, old(pmm.freeCount), pmm.freeCount)
        invariant RangeMapped(M0, memory.tables, root, s, i, n, failed, FirstPage(physical), flags)
        invariant failed != {} ==> Free() == {}
      {
        hide Budgeted, RangeMapped;
        RangeExtend(s, i);
        GrownTree(M0, F0, memory.tables, Free(), root, 3, n);
        ghost var M1, F1, count := memory.tables, Free(), pmm.freeCount;
        assert currentVirtual / Links.PAGE_SIZE == s + i;
        var ok := MapPage(currentPhysical / Links.PAGE_SIZE, PageAt(currentVirtual / Links.PAGE_SIZE), flags, n);
        GrownTwice(M0, F0, M1, F1, memory.tables, Free(), root, 3, n);
        BudgetStep(M0, M1, memory.tables, root, s, i, n, failed, old(pmm.freeCount), count, pmm.freeCount, ok);
        RangeStep(M0, M1, memory.tables, root, s, i, n, failed, FirstPage(physical), flags, ok);
        // the program's guards against address overflow never stop the range early
        assert currentPhysical <= UINT64_MAX - Links.PAGE_SIZE && currentVirtual <= UINT64_MAX - Links.PAGE_SIZE;
        currentPhysical := currentPhysical + Links.PAGE_SIZE;
        currentVirtual := currentVirtual + Links.PAGE_SIZE;
        failed := if ok then failed else failed + {i};
        i := i + 1;
      }
      return currentVirtual, failed;
    }

    /** Unmap a range of pages. Returns the address after the range. */
    method UnmapRange(virtual_: nat, pages: nat, ghost n: nat) returns (end: nat)
      requires n <= ENTRIES && pages <= INDEX_SPACE
      requires forall k: nat | k < pages :: RangePage(FirstPage(virtual_), k).pml4 < n
      requires Tree(memory.tables, root, 3, n)
      modifies memory
      ensures Grown(old(memory.tables), {}, memory.tables, {}, root, 3, n)
      ensures end == (FirstPage(virtual_) + pages) * Links.PAGE_SIZE
      ensures forall w: VPage | w.pml4 < n ::
        Translate(memory.tables, root, w) ==
        if InRange(w, FirstPage(virtual_), pages) && ReachesPageTable(old(memory.tables), root, 3, w) then None
        else Translate(old(memory.tables), root, w)
    {
      hide Tables, Tree, Lookup, Missing, Flat, GoodSlot, PageAt, RangePage, InRange;
      ghost var M0 := memory.tables;
      ghost var s := FirstPage(virtual_);
      var currentVirtual := FirstPage(virtual_) * Links.PAGE_SIZE;
      assert forall w: VPage :: !InRange(w, s, 0) by { NothingInRange(s); }
      var i := 0;
      while i < pages
        invariant 0 <= i <= pages && currentVirtual == (s + i) * Links.PAGE_SIZE
        invariant Grown(M0, {}, memory.tables, {}, root, 3, n)
        invariant SameReach(M0, memory.tables, root, 3, n)
        invariant forall w: VPage | w.pml4 < n ::
          Translate(memory.tables, root, w) ==
          if InRange(w, s, i) && ReachesPageTable(M0, root, 3, w) then None else Translate(M0, root, w)
      {
        RangeExtend(s, i);
        ghost var M1 := memory.tables;
        assert currentVirtual / Links.PAGE_SIZE == s + i;
        var ok := UnmapPage(PageAt(currentVirtual / Links.PAGE_SIZE), n);
        GrownTwice(M0, {}, M1, {}, memory.tables, {}, root, 3, n);
        currentVirtual := currentVirtual + Links.PAGE_SIZE;
        i := i + 1;
      }
      return currentVirtual;
    }

    /**
     Deep-copy the table old_ of the given level, with everything below it, onto new
     pages. The source is the memory S, which the copy leaves as it is.
     */
    method CopyTable(ghost S: Memory, old_: nat, level: nat) returns (ok: bool, copy: nat)
      requires pmm.Valid() && level <= 2
      requires Tree(S, old_, level, ENTRIES) && Tables(S, old_, level, ENTRIES) !! Free()
      requires forall x | x in Tables(S, old_, level, ENTRIES) :: Same(S, memory.tables, x)
      modifies pmm, pmm.heads, memory
      ensures pmm.Valid() && pmm.base == old(pmm.base) && pmm.total == old(pmm.total)
      ensures Free() <= old(Free())
      ensures forall x | x in old(memory.tables) && x !in old(Free()) :: Same(old(memory.tables), memory.tables, x)
      ensures ok <==> old(pmm.freeCount) >= |Tables(S, old_, level, ENTRIES)|
      ensures !ok ==> Free() == {} && pmm.freeCount == 0
      ensures ok ==>
        && 0 < copy < TABLE_FRAME_LIMIT
        && Copying(S, old_, memory.tables, copy, level, ENTRIES, old(Free()), Free())
        && pmm.freeCount + |Tables(S, old_, level, ENTRIES)| == old(pmm.freeCount)
      decreases level
    {
      hide Tables, Tree, Lookup, LeafFrame, GoodSlot, EmptyFrom;
      hide PM.PhysicalMemoryManager.Valid;
      ghost var M0, F0 := memory.tables, Free();
      SelfInTables(S, old_, level, ENTRIES);
      copy := NewTable();
      PartOfTree(S, old_, level, ENTRIES, 0);
      if copy == 0 {
        return false, 0;
      }
      StartCopying(S, old_, memory.tables, copy, level, F0);
      NoTablesYet(S, old_, level);
      EmptyTableEmpty(memory.tables, copy);
      var i := 0;
      while i < ENTRIES
        invariant 0 <= i <= ENTRIES
        invariant pmm.Valid() && pmm.base == old(pmm.base) && pmm.total == old(pmm.total)
        invariant Copying(S, old_, memory.tables, copy, level, i, F0, Free())
        invariant copy in memory.tables && copy in F0 && copy !in Free()
        invariant EmptyFrom(memory.tables, copy, i)
        invariant pmm.freeCount + |Tables(S, old_, level, i)| == old(pmm.freeCount)
        invariant forall x | x in M0 && x !in F0 :: Same(M0, memory.tables, x)
      {
        SlotOfTree(S, old_, level, ENTRIES, i);
        CountBelow(S, old_, level, ENTRIES, i);
        assert Same(S, memory.tables, old_);
        var e := memory.tables[old_][i];
        if IsTable(e, level) {
          BelowIsTables(S, old_, level, i);
          ghost var M1, F1 := memory.tables, Free();
          var child;
          ok, child := CopyTable(S, e.frame, level - 1);
          if !ok {
            PartOfTree(S, old_, level, ENTRIES, i + 1);
            return false, 0;
          }
          assert Same(M1, memory.tables, copy);
          EmptyAfterWrite(M1, memory.tables, copy, i, BuildNonLeaf(child, e, e.user));
          CopyTableStep(S, old_, M1, memory.tables, copy, level, i, F0, F1, Free(), child,
                        BuildNonLeaf(child, e, e.user));
          memory.tables := WriteSlot(memory.tables, copy, i, BuildNonLeaf(child, e, e.user));
        } else {
          var e' := if e.present then CopyLeaf(e) else if level == 0 then Sanitize(e) else ZERO;
          CopyLeafStep(S, old_, memory.tables, copy, level, i, F0, Free(), e');
          EmptyAfterWrite(memory.tables, memory.tables, copy, i, e');
          if e.present || (level == 0 && e != ZERO) {
            memory.tables := WriteSlot(memory.tables, copy, i, e');
          }
        }
        i := i + 1;
      }
      return true, copy;
    }

    /** Whether the allocator manages a frame. */
    ghost predicate Managed(f: nat)
      reads pmm
    {
      pmm.base / Links.PAGE_SIZE <= f < pmm.base / Links.PAGE_SIZE + pmm.total
    }

    /** Give the page of a table back to the allocator; its contents are gone. */
    method FreePage(frame: nat)
      requires pmm.Valid() && Managed(frame) && frame !in Free()
      modifies pmm, pmm.heads, memory
      ensures pmm.Valid() && pmm.base == old(pmm.base) && pmm.total == old(pmm.total)
      ensures Free() == old(Free()) + {frame} && pmm.freeCount == old(pmm.freeCount) + 1
      ensures memory.tables == old(memory.tables) - {frame}
    {
      hide Frames, FreeAt, FL.Run, FL.Free, PM.OrderFor;
      ghost var p := frame - pmm.base / Links.PAGE_SIZE;
      ghost var free := pmm.free;
      SinglePages(free, p);
      FrameOfPage(pmm.base, pmm.total, free, p);
      assert Powers.Pow2(0) == 1;
      assert pmm.PageOf(frame * Links.PAGE_SIZE) == p;
      var ok := pmm.FreePagesFromDescriptor(frame * Links.PAGE_SIZE, 1);
      memory.tables := memory.tables - {frame};
    }

    /** Free every table that entry i of table a leads to. */
    method FreeBelow(a: nat, level: nat, i: Index)
      requires pmm.Valid() && 0 < level <= 3 && a in memory.tables && GoodSlot(memory.tables, a, level, i)
      requires forall x | x in Below(memory.tables, a, level, i) :: Managed(x) && x !in Free()
      modifies pmm, pmm.heads, memory
      ensures pmm.Valid() && pmm.base == old(pmm.base) && pmm.total == old(pmm.total)
      ensures Free() == old(Free()) + Below(old(memory.tables), a, level, i)
      ensures pmm.freeCount == old(pmm.freeCount) + |Below(old(memory.tables), a, level, i)|
      ensures memory.tables == old(memory.tables) - Below(old(memory.tables), a, level, i)
      decreases level, 0
    {
      TreeBelow(memory.tables, a, level, i);
      hide Tables, Tree, GoodSlot, Below, Frames;
      hide PM.PhysicalMemoryManager.Valid;
      var e := memory.tables[a][i];
      if IsTable(e, level) && e.frame != 0 {
        FreeHierarchy(e.frame, level - 1, ENTRIES);
      }
    }

    /** Free every table below the first n entries of table a. */
    method FreeChildren(a: nat, level: nat, n: nat) returns (ghost done: set<nat>)
      requires pmm.Valid() && level <= 3 && n <= ENTRIES && Tree(memory.tables, a, level, n)
      requires forall x | x in Tables(memory.tables, a, level, n) :: Managed(x) && x !in Free()
      modifies pmm, pmm.heads, memory
      ensures pmm.Valid() && pmm.base == old(pmm.base) && pmm.total == old(pmm.total)
      ensures Freed(old(memory.tables), memory.tables, a, level, n, n, done)
      ensures Free() == old(Free()) + done && pmm.freeCount == old(pmm.freeCount) + |done|
      decreases level, 1
    {
      hide Tables, Tree, GoodSlot, Below, IsTable, Frames, Freed;
      hide PM.PhysicalMemoryManager.Valid;
      ghost var M0, F0 := memory.tables, Free();
      done := {};
      FreedNone(M0, a, level, n);
      if level == 0 {
        return;
      }
      var i := 0;
      while i < n
        invariant 0 <= i <= n
        invariant pmm.Valid() && pmm.base == old(pmm.base) && pmm.total == old(pmm.total)
        invariant Freed(M0, memory.tables, a, level, n, i, done)
        invariant Free() == F0 + done && pmm.freeCount == old(pmm.freeCount) + |done|
      {
        FreedNext(M0, memory.tables, a, level, n, i, done);
        FreedStep(M0, memory.tables, a, level, n, i, done);
        FreeBelow(a, level, i);
        done := done + Below(M0, a, level, i);
        i := i + 1;
      }
    }

    /** Free table a and every table below its first n entries, children first. */
    method FreeHierarchy(a: nat, level: nat, n: nat)
      requires pmm.Valid() && level <= 3 && n <= ENTRIES && Tree(memory.tables, a, level, n)
      requires forall x | x in Tables(memory.tables, a, level, n) :: Managed(x) && x !in Free()
      modifies pmm, pmm.heads, memory
      ensures pmm.Valid() && pmm.base == old(pmm.base) && pmm.total == old(pmm.total)
      ensures Free() == old(Free()) + Tables(old(memory.tables), a, level, n)
      ensures pmm.freeCount == old(pmm.freeCount) + |Tables(old(memory.tables), a, level, n)|
      ensures memory.tables == old(memory.tables) - Tables(old(memory.tables), a, level, n)
      decreases level, 2
    {
      hide Tables, Tree, GoodSlot, Below, IsTable, Frames, Freed;
      hide PM.PhysicalMemoryManager.Valid;
      SelfInTables(memory.tables, a, level, n);
      ghost var M0 := memory.tables;
      ghost var done := FreeChildren(a, level, n);
      FreedAll(M0, memory.tables, a, level, n, done);
      FreePage(a);
    }

    /** Copy one lower-half entry of the root, with everything below it. */
    method CopyUserEntry(ghost S: Memory, copy: nat, i: Index, ghost free: set<nat>) returns (ok: bool)
      requires pmm.Valid() && i < USER_ENTRIES
      requires Tree(S, root, 3, USER_ENTRIES) && Tables(S, root, 3, USER_ENTRIES) !! Free()
      requires forall x | x in Tables(S, root, 3, USER_ENTRIES) :: Same(S, memory.tables, x)
      requires copy in free && copy !in Free() && EmptyFrom(memory.tables, copy, i)
      requires Copying(S, root, memory.tables, copy, 3, i, free, Free())
      modifies pmm, pmm.heads, memory
      ensures pmm.Valid() && pmm.base == old(pmm.base) && pmm.total == old(pmm.total)
      ensures Free() <= old(Free())
      ensures forall x | x in old(memory.tables) && x !in old(Free()) && x != copy ::
        Same(old(memory.tables), memory.tables, x)
      ensures ok ==>
        && Copying(S, root, memory.tables, copy, 3, i + 1, free, Free())
        && EmptyFrom(memory.tables, copy, i + 1)
        && pmm.freeCount + |Below(S, root, 3, i)| == old(pmm.freeCount)
      ensures ok <==> old(pmm.freeCount) >= |Below(S, root, 3, i)|
      ensures !ok ==>
        && pmm.freeCount == 0
        && Tree(memory.tables, copy, 3, USER_ENTRIES)
        && Tables(memory.tables, copy, 3, USER_ENTRIES) == free - old(Free())
        && copy in memory.tables
    {
      hide Tables, Tree, Lookup, LeafFrame, EmptyFrom;
      hide PM.PhysicalMemoryManager.Valid;
      ghost var M1, F1 := memory.tables, Free();
      SelfInTables(S, root, 3, USER_ENTRIES);
      SelfInTables(M1, copy, 3, i);
      TablesPresent(M1, copy, 3, i);
      SlotOfTree(S, root, 3, USER_ENTRIES, i);
      assert Same(S, memory.tables, root);
      var e := memory.tables[root][i];
      if !e.present {
        CopyLeafStep(S, root, M1, copy, 3, i, free, F1, ZERO);
        EmptyAfterWrite(M1, M1, copy, i, ZERO);
        EmptyBelow(S, root, i);
        return true;
      }
      BelowIsTables(S, root, 3, i);
      var child;
      ok, child := CopyTable(S, e.frame, 2);
      if !ok {
        StoppedCopy(S, root, M1, memory.tables, copy, i, free, F1);
        TablesPresent(memory.tables, copy, 3, USER_ENTRIES);
        SelfInTables(memory.tables, copy, 3, USER_ENTRIES);
        return;
      }
      assert Same(M1, memory.tables, copy);
      EmptyAfterWrite(M1, memory.tables, copy, i, BuildNonLeaf(child, e, e.user));
      CopyTableStep(S, root, M1, memory.tables, copy, 3, i, free, F1, Free(), child, BuildNonLeaf(child, e, e.user));
      memory.tables := WriteSlot(memory.tables, copy, i, BuildNonLeaf(child, e, e.user));
    }

    /**
     Deep-copy the address space: new tables for the lower half, the same entries in
     the upper half. On failure what was linked is freed again and 0 is returned.
     */
    method CopyPageMapL4Table() returns (copy: nat)
      requires pmm.Valid()
      requires Tree(memory.tables, root, 3, USER_ENTRIES) && Tables(memory.tables, root, 3, USER_ENTRIES) !! Free()
      modifies pmm, pmm.heads, memory
      ensures pmm.Valid() && pmm.base == old(pmm.base) && pmm.total == old(pmm.total)
      ensures Free() <= old(Free())
      // no page outside the allocator's free pages is written, so the source is unchanged
      ensures forall x | x in old(memory.tables) && x !in old(Free()) :: Same(old(memory.tables), memory.tables, x)
      // it succeeds exactly if there is a free page for each lower-half table, the root included
      ensures copy != 0 <==> old(pmm.freeCount) >= |Tables(old(memory.tables), root, 3, USER_ENTRIES)|
      // a failed copy gives back just the pages of the entries it had finished, and loses all others that were free
      ensures copy == 0 && old(pmm.freeCount) > 0 ==> exists i: Index | i < USER_ENTRIES ::
        && pmm.freeCount == |Tables(old(memory.tables), root, 3, i)|
        && pmm.freeCount <= old(pmm.freeCount) < |Tables(old(memory.tables), root, 3, i + 1)|
      ensures copy != 0 ==>
        && Copying(old(memory.tables), root, memory.tables, copy, 3, USER_ENTRIES, old(Free()), Free())
        && UpperCopied(old(memory.tables), root, memory.tables, copy, ENTRIES)
        // and takes just those
        && pmm.freeCount + |Tables(old(memory.tables), root, 3, USER_ENTRIES)| == old(pmm.freeCount)
    {
      hide Tables, Tree, Lookup, LeafFrame, EmptyFrom, UpperCopied, Copying, Frames, TraceOf, CopiedTrace;
      hide PM.PhysicalMemoryManager.Valid;
      ghost var S, F0 := memory.tables, Free();
      FreeSize();
      TablesPresent(S, root, 3, USER_ENTRIES);
      SelfInTables(S, root, 3, USER_ENTRIES);
      copy := NewTable();
      PartOfTree(S, root, 3, USER_ENTRIES, 0);
      if copy == 0 {
        return 0;
      }
      StartCopying(S, root, memory.tables, copy, 3, F0);
      EmptyTableEmpty(memory.tables, copy);
      NoTablesYet(S, root, 3);
      var i := 0;
      while i < USER_ENTRIES
        invariant 0 <= i <= USER_ENTRIES
        invariant pmm.Valid() && pmm.base == old(pmm.base) && pmm.total == old(pmm.total)
        invariant Free() <= F0 && copy in F0 && copy !in Free() && EmptyFrom(memory.tables, copy, i)
        invariant Copying(S, root, memory.tables, copy, 3, i, F0, Free())
        invariant forall x | x in S && x !in F0 :: Same(S, memory.tables, x)
        invariant pmm.freeCount + |Tables(S, root, 3, i)| == old(pmm.freeCount)
      {
        CountBelow(S, root, 3, USER_ENTRIES, i);
        ghost var F1, count := Free(), pmm.freeCount;
        FreeSize();
        var ok := CopyUserEntry(S, copy, i, F0);
        if !ok {
          PartOfTree(S, root, 3, USER_ENTRIES, i + 1);
          AllManaged(pmm.base, pmm.total, old(pmm.free));
          TakenSize(F0, F1, old(pmm.freeCount), count);
          FreeHierarchy(copy, 3, USER_ENTRIES);
          return 0;
        }
        i := i + 1;
      }
      CopyUpperEntries(S, copy, F0);
    }

    /** Copy the present entries of the root's upper half as they are. */
    method CopyUpperEntries(ghost S: Memory, copy: nat, ghost free: set<nat>)
      requires Copying(S, root, memory.tables, copy, 3, USER_ENTRIES, free, Free())
      requires EmptyFrom(memory.tables, copy, USER_ENTRIES) && copy in free && root in S && root !in free
      requires forall x | x in S && x !in free :: Same(S, memory.tables, x)
      modifies memory
      ensures Copying(S, root, memory.tables, copy, 3, USER_ENTRIES, free, Free())
      ensures UpperCopied(S, root, memory.tables, copy, ENTRIES)
      ensures forall x | x in S && x !in free :: Same(S, memory.tables, x)
    {
      hide Tables, Tree, Lookup, LeafFrame, EmptyFrom, UpperCopied, Copying, Frames;
      UpperNone(S, root, memory.tables, copy);
      var i := USER_ENTRIES;
      while i < ENTRIES
        invariant USER_ENTRIES <= i <= ENTRIES
        invariant EmptyFrom(memory.tables, copy, i) && UpperCopied(S, root, memory.tables, copy, i)
        invariant Copying(S, root, memory.tables, copy, 3, USER_ENTRIES, free, Free())
        invariant forall x | x in S && x !in free :: Same(S, memory.tables, x)
      {
        assert Same(S, memory.tables, root);
        var e := memory.tables[root][i];
        CopyUpperStep(S, root, memory.tables, copy, i, free, Free(), if e.present then e else ZERO);
        if e.present {
          memory.tables := WriteSlot(memory.tables, copy, i, e);
        }
        i := i + 1;
      }
    }
  }

  /** The number of the page an address lies in, of its low 52 bits. */
  function FirstPage(address: nat): nat {
    address / Links.PAGE_SIZE % 0x10000000000
  }

  /** An address lies in its first page, as far as its low 52 bits tell. */
  lemma FirstPageHolds(address: nat)
    ensures FirstPage(address) * Links.PAGE_SIZE <= address % 0x10_0000_0000_0000
            < (FirstPage(address) + 1) * Links.PAGE_SIZE
  {
    var p := address / Links.PAGE_SIZE;
    var q := p / 0x10000000000;
    assert address == 0x10_0000_0000_0000 * q + (p % 0x10000000000) * Links.PAGE_SIZE + address % Links.PAGE_SIZE;
  }

  /** The tables reached through the first entries of a table are no more than all of them, and at least one. */
  lemma PartOfTree(M: Memory, a: nat, level: nat, n: nat, i: nat)
    requires i <= n <= ENTRIES && Tree(M, a, level, n)
    ensures 1 <= |Tables(M, a, level, i)| <= |Tables(M, a, level, n)|
  {
    hide Tree;
    TreePrefix(M, a, level, n, i);
    SelfInTables(M, a, level, i);
    FL.SubsetSize({a}, Tables(M, a, level, i));
    FL.SubsetSize(Tables(M, a, level, i), Tables(M, a, level, n));
  }

  lemma EmptyBelow(M: Memory, a: nat, i: Index)
    ensures !Slot(M, a, i).present ==> Below(M, a, 3, i) == {}
  {
  }

  lemma AllManaged(base: nat, total: nat, free: set<nat>)
    ensures forall f | f in Frames(base, total, free) :: base / Links.PAGE_SIZE <= f < base / Links.PAGE_SIZE + total
  {
  }

  lemma UpperNone(S: Memory, old_: nat, M: Memory, copy: nat)
    ensures UpperCopied(S, old_, M, copy, USER_ENTRIES)
  {
  }

  lemma NoTablesYet(M: Memory, a: nat, level: nat)
    ensures |Tables(M, a, level, 0)| == 1
  {
  }

  lemma NothingInRange(start: nat)
    ensures forall w: VPage :: !InRange(w, start, 0)
  {
  }

  lemma GrownStart(M: Memory, free: set<nat>, a: nat, level: nat, n: nat)
    requires n <= ENTRIES && Tree(M, a, level, n)
    ensures Grown(M, free, M, free, a, level, n)
  {
    hide Tables, Tree;
    assert forall x | x in M :: Same(M, M, x);
  }

  lemma GrownTree(M: Memory, free: set<nat>, M': Memory, free': set<nat>, a: nat, level: nat, n: nat)
    requires n <= ENTRIES && Grown(M, free, M', free', a, level, n)
    ensures Tree(M', a, level, n)
  {
  }

  lemma GrownTwice(M0: Memory, F0: set<nat>, M1: Memory, F1: set<nat>, M2: Memory, F2: set<nat>,
                   a: nat, level: nat, n: nat)
    requires n <= ENTRIES && Tables(M0, a, level, n) !! F0
    requires Grown(M0, F0, M1, F1, a, level, n) && Grown(M1, F1, M2, F2, a, level, n)
    ensures Grown(M0, F0, M2, F2, a, level, n) && Tables(M2, a, level, n) !! F2 && F2 <= F1
  {
    hide Tables, Tree;
  }

  /** The tables of every page stay as they are if they do below the one entry that was followed. */
  lemma SameReachBelow(M: Memory, M': Memory, a: nat, level: nat, n: nat, i: Index)
    requires 0 < level && IsTable(Slot(M, a, i), level) && Slot(M', a, i) == Slot(M, a, i)
    requires SameReach(M, M', Slot(M, a, i).frame, level - 1, ENTRIES)
    requires forall v: VPage | IndexAt(v, level) < n && IndexAt(v, level) != i ::
      Missing(M', a, level, v) == Missing(M, a, level, v) && TraceOf(M', a, level, v) == TraceOf(M, a, level, v)
    ensures SameReach(M, M', a, level, n)
  {
    hide Missing, TraceOf;
    MissingBelow(M, a, level, i);
    MissingBelow(M', a, level, i);
    forall v: VPage | IndexAt(v, level) < n
      ensures Missing(M', a, level, v) == Missing(M, a, level, v)
      ensures TraceOf(M', a, level, v).users == TraceOf(M, a, level, v).users
    {
      assert IndexAt(v, level - 1) < ENTRIES;
    }
  }

  lemma MissingHere(M: Memory, a: nat, level: nat, v: VPage)
    requires 0 < level
    ensures if IsTable(Slot(M, a, IndexAt(v, level)), level) then Missing(M, a, level, v) < level
            else Missing(M, a, level, v) == level
  {
  }

  lemma MissingProvided(M0: Memory, M1: Memory, a: nat, level: nat, n: nat, v: VPage)
    requires 0 < level && IndexAt(v, level) < n && Provided(M0, M1, a, level, n, IndexAt(v, level))
    requires IsTable(Slot(M1, a, IndexAt(v, level)), level)
    ensures Missing(M1, Slot(M1, a, IndexAt(v, level)).frame, level - 1, v)
            == Smaller(Missing(M0, a, level, v), level - 1)
  {
    hide Missing, TraceOf;
    MissingBelow(M1, a, level, IndexAt(v, level));
  }

  /** A page that lacks all its tables gets none of them, and nothing changes. */
  lemma NothingAdded(M: Memory, a: nat, level: nat, n: nat, v: VPage, rest: nat, user: bool)
    requires rest >= level
    ensures PathAdded(M, M, a, level, n, v, rest) && Remapped(M, M, a, level, n, v, None)
    ensures Traced(M, M, a, level, n, v, rest, user, None)
  {
    hide Missing, Lookup, TraceOf;
    assert forall w: VPage :: Raise(TraceOf(M, a, level, w).users, Larger(Apart(v, w, level), rest))
                              == TraceOf(M, a, level, w).users;
  }

  /** An entry that leads to a table and has the bits asked for needs no change. */
  lemma OpenedAlready(M: Memory, a: nat, level: nat, n: nat, i: Index, user: bool)
    requires 0 < level && IsTable(Slot(M, a, i), level)
    ensures !user || Slot(M, a, i).user ==> Opened(M, M, a, level, n, i, user)
  {
    MissingBelow(M, a, level, i);
    hide TraceOf, Missing;
    if user && Slot(M, a, i).user {
      forall v: VPage | IndexAt(v, level) == i
        ensures Raise(TraceOf(M, a, level, v).users, level - 1) == TraceOf(M, a, level, v).users
      {
      }
    }
  }

  lemma OpenedRetag(M: Memory, M': Memory, a: nat, level: nat, n: nat, i: Index)
    requires 0 < level
    requires forall v: VPage | IndexAt(v, level) < n ::
      && Missing(M', a, level, v) == Missing(M, a, level, v)
      && TraceOf(M', a, level, v) ==
         if IndexAt(v, level) == i then Retagged(TraceOf(M, a, level, v), true) else TraceOf(M, a, level, v)
    ensures Opened(M, M', a, level, n, i, true)
  {
    hide TraceOf, Missing;
    forall v: VPage | IndexAt(v, level) == i && i < n
      ensures TraceOf(M', a, level, v).users == Raise(TraceOf(M, a, level, v).users, level - 1)
    {
    }
  }

  /** A new table stands for the entry it replaces, except that its own user bit is raised if asked. */
  lemma OpenedNew(M: Memory, M': Memory, a: nat, level: nat, n: nat, i: Index, t: Table, e: Entry, user: bool)
    requires 0 < level && !IsTable(Slot(M, a, i), level)
    requires var s := Slot(M, a, i);
      && e.user == ((s.present && s.user) || user)
      && forall k: Index :: (t[k].present && t[k].user) == (s.present && s.user)
    requires forall v: VPage | IndexAt(v, level) < n ::
      && Missing(M', a, level, v) == (if IndexAt(v, level) == i then level - 1 else Missing(M, a, level, v))
      && TraceOf(M', a, level, v) ==
         if IndexAt(v, level) == i then FlatTrace(e, t[IndexAt(v, level - 1)], level) else TraceOf(M, a, level, v)
    ensures Opened(M, M', a, level, n, i, user)
  {
    var s := Slot(M, a, i);
    forall v: VPage | IndexAt(v, level) == i && i < n
      ensures Missing(M, a, level, v) == level
      ensures TraceOf(M', a, level, v).users ==
        if user then Raise(TraceOf(M, a, level, v).users, level - 1) else TraceOf(M, a, level, v).users
    {
      assert TraceOf(M, a, level, v).users == seq(level, _ => s.present && s.user);
    }
  }

  lemma PiecesUser(e: Entry, level: nat)
    ensures forall k: Index :: Pieces(e, level)[k].present && Pieces(e, level)[k].user == e.user
  {
  }

  lemma TracedOpens(M: Memory, M': Memory, root: nat, n: nat, v: VPage, rest: nat, user: bool, leaf: Option<Entry>)
    requires Traced(M, M', root, 3, n, v, rest, user, leaf)
    ensures user && rest == 0 && v.pml4 < n ==> OpenToUser(M', root, v)
    ensures forall w: VPage | w.pml4 < n && OpenToUser(M, root, w) :: OpenToUser(M', root, w)
    ensures !user ==> forall w: VPage | w.pml4 < n :: OpenToUser(M', root, w) == OpenToUser(M, root, w)
  {
    forall w: VPage
      ensures OpenToUser(M, root, w) <==> AllSet(TraceOf(M, root, 3, w).users)
      ensures OpenToUser(M', root, w) <==> AllSet(TraceOf(M', root, 3, w).users)
    {
      OpenTrace(M, root, 3, w);
      OpenTrace(M', root, 3, w);
    }
    hide TraceOf, Missing, Apart, OpenToUser;
    ApartSelf(v);
    assert forall w: VPage :: w.pml4 == IndexAt(w, 3);
  }

  lemma ChildTree(M0: Memory, F0: set<nat>, M1: Memory, F1: set<nat>, a: nat, level: nat, n: nat, i: Index)
    requires 0 < level && i < n <= ENTRIES && Tables(M0, a, level, n) !! F0
    requires Grown(M0, F0, M1, F1, a, level, n) && IsTable(Slot(M1, a, i), level)
    ensures var c := Slot(M1, a, i).frame;
      Tree(M1, c, level - 1, ENTRIES) && Tables(M1, c, level - 1, ENTRIES) !! F1
  {
    hide Tables, Tree, GoodSlot;
    SlotOfTree(M1, a, level, n, i);
    BelowIsTables(M1, a, level, i);
  }

  /** Page v was mapped below the entry on its path (if m is a mapping), after that entry was provided. */
  lemma MappedThrough(M0: Memory, F0: set<nat>, M1: Memory, F1: set<nat>, M2: Memory, F2: set<nat>,
                      a: nat, level: nat, n: nat, v: VPage, rest: nat, m: Option<Mapping>,
                      user: bool, leaf: Option<Entry>)
    requires 0 < level && IndexAt(v, level) < n <= ENTRIES && Tables(M0, a, level, n) !! F0 && rest < level
    requires Grown(M0, F0, M1, F1, a, level, n) && SameMeaning(M0, M1, a, level, n)
    requires Provided(M0, M1, a, level, n, IndexAt(v, level)) && Opened(M0, M1, a, level, n, IndexAt(v, level), user)
    requires IsTable(Slot(M1, a, IndexAt(v, level)), level)
    requires var c := Slot(M1, a, IndexAt(v, level)).frame;
      && Grown(M1, F1, M2, F2, c, level - 1, ENTRIES)
      && PathAdded(M1, M2, c, level - 1, ENTRIES, v, rest) && Remapped(M1, M2, c, level - 1, ENTRIES, v, m)
      && Traced(M1, M2, c, level - 1, ENTRIES, v, rest, user, leaf)
    ensures Grown(M0, F0, M2, F2, a, level, n)
    ensures PathAdded(M0, M2, a, level, n, v, rest) && Remapped(M0, M2, a, level, n, v, m)
    ensures Traced(M0, M2, a, level, n, v, rest, user, leaf)
  {
    hide Grown, Provided, PathAdded, Remapped, Opened, Traced, Tables, Tree, Missing, Lookup, TraceOf;
    EditGrown(M0, F0, M1, F1, M2, F2, a, level, n, IndexAt(v, level));
    MissingThrough(M0, M1, M2, a, level, n, v, rest);
    LookupMapped(M0, M1, M2, a, level, n, v, m);
    TracedThrough(M0, M1, M2, a, level, n, v, rest, user, leaf);
  }

  lemma TracedThrough(M0: Memory, M1: Memory, M2: Memory, a: nat, level: nat, n: nat, v: VPage, rest: nat,
                      user: bool, leaf: Option<Entry>)
    requires 0 < level && IndexAt(v, level) < n <= ENTRIES && rest < level
    requires var i := IndexAt(v, level);
      && Provided(M0, M1, a, level, n, i) && Opened(M0, M1, a, level, n, i, user)
      && IsTable(Slot(M1, a, i), level) && Slot(M2, a, i) == Slot(M1, a, i)
      && (forall w: VPage | IndexAt(w, level) < n && IndexAt(w, level) != i ::
            && Missing(M2, a, level, w) == Missing(M1, a, level, w)
            && TraceOf(M2, a, level, w) == TraceOf(M1, a, level, w))
      && var c := Slot(M1, a, i).frame;
        PathAdded(M1, M2, c, level - 1, ENTRIES, v, rest) && Traced(M1, M2, c, level - 1, ENTRIES, v, rest, user, leaf)
    ensures Traced(M0, M2, a, level, n, v, rest, user, leaf)
  {
    hide Missing, TraceOf, Raise;
    MissingBelow(M1, a, level, IndexAt(v, level));
    MissingBelow(M2, a, level, IndexAt(v, level));
    forall w: VPage | IndexAt(w, level) < n
      ensures TraceOf(M2, a, level, w).users ==
        if user then Raise(TraceOf(M0, a, level, w).users, Larger(Apart(v, w, level), rest))
        else TraceOf(M0, a, level, w).users
      ensures if leaf.Some? && SamePath(w, v, level) then TraceOf(M2, a, level, w).last == leaf.value
        else Missing(M2, a, level, w) == Missing(M0, a, level, w) ==>
          TraceOf(M2, a, level, w).last == TraceOf(M0, a, level, w).last
    {
      assert IndexAt(w, level - 1) < ENTRIES;
      if user {
        var e := Slot(M1, a, IndexAt(v, level));
        RaiseAgain(TraceOf(M0, a, level, w).users, TraceOf(M1, e.frame, level - 1, w).users, e.user,
                   Larger(Apart(v, w, level), rest));
      }
    }
  }

  /** Raising the topmost bit and then those below, or all at once. */
  lemma RaiseAgain(users: seq<bool>, below: seq<bool>, top: bool, above: nat)
    requires |users| == |below| + 1
    ensures above <= |below| && below + [top] == Raise(users, |below|) ==>
      Raise(below, above) + [top] == Raise(users, above)
    ensures above >= |users| ==> Raise(users, above) == users
  {
    if below + [top] == Raise(users, |below|) {
      assert forall k | 0 <= k < |below| :: below[k] == (below + [top])[k] == users[k];
      assert top == (below + [top])[|below|];
    }
  }

  lemma LookupMapped(M0: Memory, M1: Memory, M2: Memory, a: nat, level: nat, n: nat, v: VPage, m: Option<Mapping>)
    requires 0 < level && IndexAt(v, level) < n <= ENTRIES && SameMeaning(M0, M1, a, level, n)
    requires var i := IndexAt(v, level);
      && IsTable(Slot(M1, a, i), level) && Slot(M2, a, i) == Slot(M1, a, i)
      && (forall w: VPage | IndexAt(w, level) < n && IndexAt(w, level) != i ::
            Lookup(M2, a, level, w) == Lookup(M1, a, level, w))
      && Remapped(M1, M2, Slot(M1, a, i).frame, level - 1, ENTRIES, v, m)
    ensures Remapped(M0, M2, a, level, n, v, m)
  {
    hide Missing, TraceOf;
    forall w: VPage | IndexAt(w, level) < n
      ensures Lookup(M2, a, level, w) == if m.Some? && SamePath(w, v, level) then m else Lookup(M0, a, level, w)
    {
      assert IndexAt(w, level - 1) < ENTRIES;
    }
  }

  /** One step of the walk for v. */
  lemma WalkDown(M: Memory, a: nat, level: nat, v: VPage)
    ensures var e := Slot(M, a, IndexAt(v, level));
      if level > 0 && IsTable(e, level) then
        && Lookup(M, a, level, v) == Lookup(M, e.frame, level - 1, v)
        && Missing(M, a, level, v) == Missing(M, e.frame, level - 1, v)
        && TraceOf(M, a, level, v).last == TraceOf(M, e.frame, level - 1, v).last
      else
        && Lookup(M, a, level, v) == LeafMapping(e, level, v)
        && Missing(M, a, level, v) == level && TraceOf(M, a, level, v).last == e
  {
  }

  lemma NothingEdited(M: Memory, a: nat, level: nat, n: nat, v: VPage)
    requires n <= ENTRIES && Tree(M, a, level, n)
    ensures Grown(M, {}, M, {}, a, level, n) && SameReach(M, M, a, level, n)
    ensures Remapped(M, M, a, level, n, v, None) && LastChanged(M, M, a, level, n, v, None)
  {
    hide Tables, Tree, Lookup, Missing, TraceOf;
    assert forall x | x in M :: Same(M, M, x);
  }

  /** Permissions were changed below the entry on the path of v (if m is a mapping). */
  lemma ProtectedThrough(M: Memory, M': Memory, a: nat, level: nat, n: nat, v: VPage,
                         m: Option<Mapping>, leaf: Option<Entry>)
    requires 0 < level && IndexAt(v, level) < n <= ENTRIES && Tree(M, a, level, n)
    requires IsTable(Slot(M, a, IndexAt(v, level)), level)
    requires var c := Slot(M, a, IndexAt(v, level)).frame;
      && Grown(M, {}, M', {}, c, level - 1, ENTRIES) && SameReach(M, M', c, level - 1, ENTRIES)
      && Remapped(M, M', c, level - 1, ENTRIES, v, m) && LastChanged(M, M', c, level - 1, ENTRIES, v, leaf)
    ensures Grown(M, {}, M', {}, a, level, n) && SameReach(M, M', a, level, n)
    ensures Remapped(M, M', a, level, n, v, m) && LastChanged(M, M', a, level, n, v, leaf)
  {
    NothingEdited(M, a, level, n, v);
    hide Tables, Tree, Lookup, Missing, TraceOf, Grown, SameReach, Remapped, LastChanged;
    var i := IndexAt(v, level);
    EditGrown(M, {}, M, {}, M', {}, a, level, n, i);
    SameReachBelow(M, M', a, level, n, i);
    LastChangedBelow(M, M', a, level, n, v, leaf);
    assert SameMeaning(M, M, a, level, n);
    LookupMapped(M, M, M', a, level, n, v, m);
  }

  lemma LastChangedBelow(M: Memory, M': Memory, a: nat, level: nat, n: nat, v: VPage, leaf: Option<Entry>)
    requires 0 < level && IndexAt(v, level) < n <= ENTRIES
    requires var i := IndexAt(v, level);
      && IsTable(Slot(M, a, i), level) && Slot(M', a, i) == Slot(M, a, i)
      && LastChanged(M, M', Slot(M, a, i).frame, level - 1, ENTRIES, v, leaf)
      && forall w: VPage | IndexAt(w, level) < n && IndexAt(w, level) != i ::
           TraceOf(M', a, level, w) == TraceOf(M, a, level, w)
    ensures LastChanged(M, M', a, level, n, v, leaf)
  {
    hide TraceOf;
    MissingBelow(M, a, level, IndexAt(v, level));
    MissingBelow(M', a, level, IndexAt(v, level));
    forall w: VPage | IndexAt(w, level) < n
      ensures TraceOf(M', a, level, w).last ==
        if leaf.Some? && SamePath(w, v, level) then leaf.value else TraceOf(M, a, level, w).last
    {
      assert IndexAt(w, level - 1) < ENTRIES;
    }
  }

  /** What is missing after the entry on the path of v was provided and v was mapped below it. */
  lemma MissingThrough(M0: Memory, M1: Memory, M2: Memory, a: nat, level: nat, n: nat, v: VPage, rest: nat)
    requires 0 < level && IndexAt(v, level) < n <= ENTRIES && rest < level
    requires var i := IndexAt(v, level);
      && Provided(M0, M1, a, level, n, i) && IsTable(Slot(M1, a, i), level) && Slot(M2, a, i) == Slot(M1, a, i)
      && (forall w: VPage | IndexAt(w, level) < n && IndexAt(w, level) != i ::
            Missing(M2, a, level, w) == Missing(M1, a, level, w))
      && var c := Slot(M1, a, i).frame;
        PathAdded(M1, M2, c, level - 1, ENTRIES, v, rest)
    ensures PathAdded(M0, M2, a, level, n, v, rest)
  {
    hide Missing;
    MissingBelow(M1, a, level, IndexAt(v, level));
    MissingBelow(M2, a, level, IndexAt(v, level));
    forall w: VPage | IndexAt(w, level) < n
      ensures Missing(M2, a, level, w) == Smaller(Missing(M0, a, level, w), Larger(Apart(v, w, level), rest))
    {
      assert IndexAt(w, level - 1) < ENTRIES;
    }
  }

  /** After i pages of a range: how the free pages stand against the tables the range needs. */
  ghost predicate Budgeted(M0: Memory, M: Memory, root: nat, s: nat, i: nat, n: nat, failed: set<nat>,
                           available: nat, left: nat) {
    && failed == RangeFailures(M0, root, s, i, available) && left == RangeLeft(M0, root, s, i, available)
    && (forall w: VPage | w.pml4 < n :: Missing(M, root, 3, w) == RangeMissing(M0, root, s, i, available, w))
    && if failed == {} then
         && left + TablesNeeded(M0, root, s, i) == available
         && forall w: VPage | w.pml4 < n :: Missing(M, root, 3, w) == MissingAfter(M0, root, s, i, w)
       else available < TablesNeeded(M0, root, s, i) && left == 0
  }

  /** After i pages of a range: a page that failed is as it was, every other one is mapped as asked. */
  ghost predicate RangeMapped(M0: Memory, M: Memory, root: nat, s: nat, i: nat, n: nat, failed: set<nat>,
                              frame: nat, flags: PageMappingFlags) {
    && (forall k: nat | k in failed :: k < i)
    && (forall k: nat | k < i :: PageMapped(M0, M, root, RangePage(s, k), k in failed, frame + k, flags))
    && (forall w: VPage | w.pml4 < n && !InRange(w, s, i) :: Translate(M, root, w) == Translate(M0, root, w))
    && (forall w: VPage | w.pml4 < n && OpenToUser(M0, root, w) :: OpenToUser(M, root, w))
    && (!flags.user ==> forall w: VPage | w.pml4 < n :: OpenToUser(M, root, w) == OpenToUser(M0, root, w))
  }

  ghost predicate PageMapped(M0: Memory, M: Memory, root: nat, v: VPage, failed: bool, frame: nat,
                             flags: PageMappingFlags) {
    if failed then Translate(M, root, v) == Translate(M0, root, v)
    else
      && ReachesPageTable(M, root, 3, v)
      && (flags.user ==> OpenToUser(M, root, v))
      && Translate(M, root, v) == Some(Mapping(frame % SUPPORTED_FRAMES, flags.user, flags.writeable))
  }

  lemma RangeStart(M: Memory, root: nat, s: nat, n: nat, frame: nat, flags: PageMappingFlags, available: nat)
    ensures Budgeted(M, M, root, s, 0, n, {}, available, available)
    ensures RangeMapped(M, M, root, s, 0, n, {}, frame, flags)
  {
  }

  lemma BudgetStep(M0: Memory, M1: Memory, M2: Memory, root: nat, s: nat, i: nat, n: nat, failed: set<nat>,
                   available: nat, left: nat, left': nat, ok: bool)
    requires Budgeted(M0, M1, root, s, i, n, failed, available, left) && RangePage(s, i).pml4 < n
    requires ok <==> left >= Missing(M1, root, 3, RangePage(s, i))
    requires left' == Short(left, Missing(M1, root, 3, RangePage(s, i)))
    requires PathAdded(M1, M2, root, 3, n, RangePage(s, i), Short(Missing(M1, root, 3, RangePage(s, i)), left))
    ensures Budgeted(M0, M2, root, s, i + 1, n, if ok then failed else failed + {i}, available, left')
  {
    hide Missing, Apart, RangePage;
    assert i in failed + {i};
    assert forall w: VPage :: w.pml4 == IndexAt(w, 3);
  }

  lemma RangeStep(M0: Memory, M1: Memory, M2: Memory, root: nat, s: nat, i: nat, n: nat, failed: set<nat>,
                  frame: nat, flags: PageMappingFlags, ok: bool)
    requires RangeMapped(M0, M1, root, s, i, n, failed, frame, flags)
    requires forall k: nat | k <= i :: RangePage(s, k).pml4 < n
    requires !InRange(RangePage(s, i), s, i)
    requires forall w: VPage :: InRange(w, s, i + 1) <==> InRange(w, s, i) || w == RangePage(s, i)
    requires forall k: nat | k < i :: RangePage(s, k) != RangePage(s, i)
    requires exists rest :: PathAdded(M1, M2, root, 3, n, RangePage(s, i), rest) && (ok ==> rest == 0)
    requires forall w: VPage | w.pml4 < n ::
      Translate(M2, root, w) ==
      if ok && w == RangePage(s, i) then Some(Mapping((frame + i) % SUPPORTED_FRAMES, flags.user, flags.writeable))
      else Translate(M1, root, w)
    requires forall w: VPage | w.pml4 < n && OpenToUser(M1, root, w) :: OpenToUser(M2, root, w)
    requires !flags.user ==> forall w: VPage | w.pml4 < n :: OpenToUser(M2, root, w) == OpenToUser(M1, root, w)
    requires ok && flags.user ==> OpenToUser(M2, root, RangePage(s, i))
    ensures RangeMapped(M0, M2, root, s, i + 1, n, if ok then failed else failed + {i}, frame, flags)
  {
    hide Missing, Apart, RangePage, InRange, Translate, OpenToUser;
    var v, failed' := RangePage(s, i), if ok then failed else failed + {i};
    ApartSelf(v);
    forall k: nat | k < i + 1
      ensures PageMapped(M0, M2, root, RangePage(s, k), k in failed', frame + k, flags)
    {
      assert RangePage(s, k).pml4 == IndexAt(RangePage(s, k), 3);
      if k < i {
        assert PageMapped(M0, M1, root, RangePage(s, k), k in failed, frame + k, flags);
      }
    }
  }

  lemma ApartSelf(v: VPage)
    ensures Apart(v, v, 3) == 0
  {
    assert Apart(v, v, 1) == 0;
  }

  lemma SamePathIsEqual(v: VPage, w: VPage)
    ensures SamePath(v, w, 3) <==> v == w
  {
    assert SamePath(v, w, 2) <==> v.pdpt == w.pdpt && SamePath(v, w, 1);
  }

  /** A step that grew the tree below an entry, after one that grew the tree itself. */
  lemma EditGrown(M0: Memory, F0: set<nat>, M1: Memory, F1: set<nat>, M2: Memory, F2: set<nat>,
                  a: nat, level: nat, n: nat, i: Index)
    requires 0 < level && i < n <= ENTRIES && Tables(M0, a, level, n) !! F0
    requires Grown(M0, F0, M1, F1, a, level, n) && IsTable(Slot(M1, a, i), level)
    requires Grown(M1, F1, M2, F2, Slot(M1, a, i).frame, level - 1, ENTRIES)
    ensures Grown(M0, F0, M2, F2, a, level, n)
    ensures Slot(M2, a, i) == Slot(M1, a, i)
    ensures forall v: VPage | IndexAt(v, level) < n && IndexAt(v, level) != i ::
      Lookup(M2, a, level, v) == Lookup(M1, a, level, v) &&
      Missing(M2, a, level, v) == Missing(M1, a, level, v) &&
      TraceOf(M2, a, level, v) == TraceOf(M1, a, level, v)
  {
    hide Tables, Tree, GoodSlot, Lookup;
    var c := Slot(M1, a, i).frame;
    SlotOfTree(M1, a, level, n, i);
    TablesPresent(M1, a, level, n);
    BelowIsTables(M1, a, level, i);
    assert Tables(M1, a, level, n) !! F1;
    SelfInTables(M1, a, level, n);
    assert Same(M1, M2, a);
    EditBelow(M1, M2, a, level, n, i, F1 - F2);
  }
}
