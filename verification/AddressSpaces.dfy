/**
 Two address spaces over one allocator: a copy of an address space and its source
 stay independent over any interleaving of edits.
 */
module AddressSpaces {
  import opened Common
  import opened PageTables
  import opened PageTableCopy
  import opened VirtualMemory
  import FL = FreeLists
  import PM = PhysicalMemory
  import Links = FreeListLinks
  import Powers

  /** Two roots whose lower halves are trees without a table in common, none of them free. */
  ghost predicate Separate(M: Memory, free: set<nat>, r1: nat, r2: nat) {
    && Tree(M, r1, 3, USER_ENTRIES) && Tree(M, r2, 3, USER_ENTRIES)
    && Tables(M, r1, 3, USER_ENTRIES) !! Tables(M, r2, 3, USER_ENTRIES)
    && Tables(M, r1, 3, USER_ENTRIES) !! free && Tables(M, r2, 3, USER_ENTRIES) !! free
  }

  ghost predicate SameLowerHalf(M: Memory, M': Memory, r: nat) {
    forall v: VPage | v.pml4 < USER_ENTRIES ::
      && Translate(M', r, v) == Translate(M, r, v) && Missing(M', r, 3, v) == Missing(M, r, 3, v)
      && TraceOf(M', r, 3, v) == TraceOf(M, r, 3, v)
  }

  /** A finished copy shares no table with its source, and the source means what it meant. */
  lemma CopySeparate(S: Memory, M: Memory, r1: nat, r2: nat, free: set<nat>, free': set<nat>)
    requires Tree(S, r1, 3, USER_ENTRIES) && Tables(S, r1, 3, USER_ENTRIES) !! free
    requires Copying(S, r1, M, r2, 3, USER_ENTRIES, free, free')
    requires forall x | x in S && x !in free :: Same(S, M, x)
    ensures Separate(M, free', r1, r2) && SameLowerHalf(S, M, r1)
  {
    hide Tables, Tree, Lookup;
    TablesPresent(S, r1, 3, USER_ENTRIES);
    SelfInTables(S, r1, 3, USER_ENTRIES);
    assert Same(S, M, r1);
    TreeFrame(S, M, r1, 3, USER_ENTRIES);
  }

  /** An edit through one root leaves the other root's lower half alone. */
  lemma EditSeparate(M: Memory, free: set<nat>, M': Memory, free': set<nat>, r1: nat, r2: nat)
    requires Separate(M, free, r1, r2) && Grown(M, free, M', free', r1, 3, USER_ENTRIES)
    ensures Separate(M', free', r1, r2) && Separate(M', free', r2, r1) && SameLowerHalf(M, M', r2)
  {
    hide Tables, Tree, Lookup;
    TablesPresent(M, r2, 3, USER_ENTRIES);
    SelfInTables(M, r2, 3, USER_ENTRIES);
    assert Same(M, M', r2);
    TreeFrame(M, M', r2, 3, USER_ENTRIES);
  }

  lemma GrownByNothing(M: Memory, M': Memory, free: set<nat>, r: nat)
    requires Grown(M, {}, M', {}, r, 3, USER_ENTRIES)
    ensures Grown(M, free, M', free, r, 3, USER_ENTRIES)
  {
    hide Tables, Tree;
  }

  // ---- runs of edits ----

  datatype Edit =
    | Map(frame: nat, page: VPage, flags: PageMappingFlags)
    | Unmap(page: VPage)
    | Protect(page: VPage, user: bool, writeable: bool)

  /** An edit through the first or through the second root. */
  datatype Request = Request(first: bool, edit: Edit)

  /**
   Of all memory, edits through two roots touched only what lies below the lower halves
   of the roots, and those trees grew by exactly the frames taken from the allocator.
   In particular the upper halves, and every page of any other address space, are kept.
   */
  ghost predicate Confined(M: Memory, free: set<nat>, M': Memory, free': set<nat>, r1: nat, r2: nat) {
    && free' <= free
    && Tables(M, r1, 3, USER_ENTRIES) <= Tables(M', r1, 3, USER_ENTRIES)
    && Tables(M, r2, 3, USER_ENTRIES) <= Tables(M', r2, 3, USER_ENTRIES)
    && Tables(M', r1, 3, USER_ENTRIES) + Tables(M', r2, 3, USER_ENTRIES)
       == Tables(M, r1, 3, USER_ENTRIES) + Tables(M, r2, 3, USER_ENTRIES) + (free - free')
    && (forall j: Index | USER_ENTRIES <= j :: Slot(M', r1, j) == Slot(M, r1, j) && Slot(M', r2, j) == Slot(M, r2, j))
    && forall x | x in M && x !in Tables(M, r1, 3, USER_ENTRIES) && x !in Tables(M, r2, 3, USER_ENTRIES) ::
         x in free || Same(M, M', x)
  }

  /** One more edit, through either root. */
  lemma ConfinedStep(M0: Memory, free0: set<nat>, M: Memory, free: set<nat>, M': Memory, free': set<nat>,
                     r1: nat, r2: nat)
    requires Confined(M0, free0, M, free, r1, r2) && Separate(M, free, r1, r2)
    requires Grown(M, free, M', free', r1, 3, USER_ENTRIES)
    ensures Confined(M0, free0, M', free', r1, r2) && Confined(M0, free0, M', free', r2, r1)
  {
    hide Tables, Tree, Separate, Grown;
    OtherTreeKept(M, free, M', free', r1, r2);
    var a0, b0 := Tables(M0, r1, 3, USER_ENTRIES), Tables(M0, r2, 3, USER_ENTRIES);
    var a, b := Tables(M, r1, 3, USER_ENTRIES), Tables(M, r2, 3, USER_ENTRIES);
    Regroup(a0, b0, a, b, free0, free, free');
    forall x | x in M0 && x !in a0 && x !in b0 && x !in free0
      ensures Same(M0, M', x)
    {
      assert Same(M0, M, x);
      assert x !in a + b && x !in free;
    }
  }

  lemma Regroup(a0: set<nat>, b0: set<nat>, a: set<nat>, b: set<nat>,
                free0: set<nat>, free: set<nat>, free': set<nat>)
    requires a + b == a0 + b0 + (free0 - free) && free' <= free <= free0
    ensures (a + (free - free')) + b == a0 + b0 + (free0 - free')
    ensures b + (a + (free - free')) == b0 + a0 + (free0 - free')
  {
    forall x
      ensures x in (a + (free - free')) + b <==> x in a0 + b0 + (free0 - free')
    {
      assert x in a + b <==> x in a0 + b0 + (free0 - free);
    }
  }

  /** What an edit through r1 does to all the rest. */
  lemma OtherTreeKept(M: Memory, free: set<nat>, M': Memory, free': set<nat>, r1: nat, r2: nat)
    requires Separate(M, free, r1, r2) && Grown(M, free, M', free', r1, 3, USER_ENTRIES)
    ensures Tables(M', r2, 3, USER_ENTRIES) == Tables(M, r2, 3, USER_ENTRIES)
    ensures Tables(M', r1, 3, USER_ENTRIES) == Tables(M, r1, 3, USER_ENTRIES) + (free - free') && free' <= free
    ensures forall j: Index | USER_ENTRIES <= j ::
      Slot(M', r1, j) == Slot(M, r1, j) && Slot(M', r2, j) == Slot(M, r2, j)
    ensures forall x | x in M && x !in Tables(M, r1, 3, USER_ENTRIES) && x !in free :: Same(M, M', x)
  {
    hide Tables, Tree, Lookup, Missing;
    TablesPresent(M, r2, 3, USER_ENTRIES);
    SelfInTables(M, r2, 3, USER_ENTRIES);
    assert Same(M, M', r2);
    TreeFrame(M, M', r2, 3, USER_ENTRIES);
  }

  // ---- what edits mean ----

  /**
   An address space: each page's mapping, how many tables the page still lacks, and the
   user bits on the way to it, from the lowest table entry up.
   */
  datatype Space = Space(mapping: VPage -> Option<Mapping>, missing: VPage -> nat, users: VPage -> seq<bool>)

  /** Two address spaces and the number of free pages they share. */
  datatype Spaces = Spaces(left: nat, first: Space, second: Space)

  ghost predicate Shows(M: Memory, root: nat, s: Space) {
    forall v: VPage | v.pml4 < USER_ENTRIES ::
      && Translate(M, root, v) == s.mapping(v) && Missing(M, root, 3, v) == s.missing(v)
      && TraceOf(M, root, 3, v).users == s.users(v)
  }

  /** The address space below a root. */
  ghost function View(M: Memory, root: nat): Space {
    Space(v => Translate(M, root, v), v => Missing(M, root, 3, v), v => TraceOf(M, root, 3, v).users)
  }

  /** The address space that a copy of the one below a root starts with. */
  ghost function CopiedView(M: Memory, root: nat): Space {
    Space(v => CopiedMapping(M, root, 3, v), v => Missing(M, root, 3, v),
          v => CopiedTrace(TraceOf(M, root, 3, v), Missing(M, root, 3, v)).users)
  }

  function Remap(s: Space, v: VPage, m: Option<Mapping>): Space {
    s.(mapping := w => if w == v then m else s.mapping(w))
  }

  /** Add tables for page v until rest of them are missing, and open the way there if it is for user mode. */
  function AddTables(s: Space, v: VPage, rest: nat, user: bool): Space {
    s.(missing := w => Smaller(s.missing(w), Larger(Apart(v, w, 3), rest)),
       users := w => if user then Raise(s.users(w), Larger(Apart(v, w, 3), rest)) else s.users(w))
  }

  /**
   What an edit makes of its own address space. Mapping takes a free page for each
   missing table and does nothing else if they do not suffice; the other edits need
   a page that lacks no table.
   */
  function Edited(s: Space, left: nat, edit: Edit): Space {
    var v := edit.page;
    match edit
    case Map(frame, _, flags) =>
      var s' := AddTables(s, v, Short(s.missing(v), left), flags.user);
      if s.missing(v) > left then s'
      else Remap(s', v, Some(Mapping(frame % SUPPORTED_FRAMES, flags.user, flags.writeable)))
    case Unmap(_) =>
      if s.missing(v) > 0 then s else Remap(s, v, None)
    case Protect(_, user, writeable) =>
      if s.missing(v) > 0 || s.mapping(v).None? then s
      else Remap(s, v, Some(Mapping(s.mapping(v).value.frame, user, writeable)))
  }

  function LeftAfter(s: Space, left: nat, edit: Edit): nat {
    if edit.Map? then Short(left, s.missing(edit.page)) else left
  }

  function Step(S: Spaces, r: Request): Spaces {
    if r.first then Spaces(LeftAfter(S.first, S.left, r.edit), Edited(S.first, S.left, r.edit), S.second)
    else Spaces(LeftAfter(S.second, S.left, r.edit), S.first, Edited(S.second, S.left, r.edit))
  }

  function Execute(S: Spaces, requests: seq<Request>): Spaces {
    if requests == [] then S
    else Step(Execute(S, requests[..|requests| - 1]), requests[|requests| - 1])
  }

  // ---- the program does just that ----

  /** One edit, through a root whose address space is s. */
  method Apply(vm: VirtualMemoryManager, edit: Edit, ghost s: Space, ghost other: nat)
    requires vm.pmm.Valid() && edit.page.pml4 < USER_ENTRIES
    requires Separate(vm.memory.tables, vm.Free(), vm.root, other) && Shows(vm.memory.tables, vm.root, s)
    modifies vm.pmm, vm.pmm.heads, vm.memory
    ensures vm.pmm.Valid() && vm.pmm.freeCount == LeftAfter(s, old(vm.pmm.freeCount), edit)
    ensures Separate(vm.memory.tables, vm.Free(), vm.root, other)
    ensures Separate(vm.memory.tables, vm.Free(), other, vm.root)
    ensures Grown(old(vm.memory.tables), old(vm.Free()), vm.memory.tables, vm.Free(), vm.root, 3, USER_ENTRIES)
    ensures SameLowerHalf(old(vm.memory.tables), vm.memory.tables, other)
    ensures Shows(vm.memory.tables, vm.root, Edited(s, old(vm.pmm.freeCount), edit))
  {
    hide Tables, Tree, Lookup, Translate, Separate, Grown, Missing, Apart;
    hide PM.PhysicalMemoryManager.Valid;
    ghost var M, free := vm.memory.tables, vm.Free();
    SeparateParts(M, free, vm.root, other);
    match edit {
      case Map(frame, page, flags) =>
        var _ := vm.MapPage(frame, page, flags, USER_ENTRIES);
      case Unmap(page) =>
        var _ := vm.UnmapPage(page, USER_ENTRIES);
        GrownByNothing(M, vm.memory.tables, free, vm.root);
      case Protect(page, user, writeable) =>
        var _ := vm.ProtectPage(page, user, writeable, USER_ENTRIES);
        GrownByNothing(M, vm.memory.tables, free, vm.root);
    }
    EditSeparate(M, free, vm.memory.tables, vm.Free(), vm.root, other);
  }

  lemma SeparateParts(M: Memory, free: set<nat>, r1: nat, r2: nat)
    requires Separate(M, free, r1, r2)
    ensures Tree(M, r1, 3, USER_ENTRIES) && Tables(M, r1, 3, USER_ENTRIES) !! free
    ensures Separate(M, free, r2, r1)
  {
  }

  /**
   Any interleaving of edits through two separate roots: both address spaces and the
   number of free pages end up as the meaning of the edits says, and nothing else
   changes.
   */
  method RunEdits(vm1: VirtualMemoryManager, vm2: VirtualMemoryManager, requests: seq<Request>,
                  ghost s1: Space, ghost s2: Space)
    requires vm1.pmm == vm2.pmm && vm1.memory == vm2.memory && vm1.pmm.Valid()
    requires Separate(vm1.memory.tables, vm1.Free(), vm1.root, vm2.root)
    requires Shows(vm1.memory.tables, vm1.root, s1) && Shows(vm1.memory.tables, vm2.root, s2)
    requires forall k | 0 <= k < |requests| :: requests[k].edit.page.pml4 < USER_ENTRIES
    modifies vm1.pmm, vm1.pmm.heads, vm1.memory
    ensures vm1.pmm.Valid() && Separate(vm1.memory.tables, vm1.Free(), vm1.root, vm2.root)
    ensures Confined(old(vm1.memory.tables), old(vm1.Free()), vm1.memory.tables, vm1.Free(), vm1.root, vm2.root)
    ensures var E := Execute(Spaces(old(vm1.pmm.freeCount), s1, s2), requests);
      && Shows(vm1.memory.tables, vm1.root, E.first) && Shows(vm1.memory.tables, vm2.root, E.second)
      && vm1.pmm.freeCount == E.left
  {
    hide Tables, Tree, Lookup, Translate, Separate, Missing, Shows, Edited, LeftAfter, Confined, Grown;
    hide PM.PhysicalMemoryManager.Valid;
    ghost var S, M0, F0 := Spaces(vm1.pmm.freeCount, s1, s2), vm1.memory.tables, vm1.Free();
    ConfinedStart(M0, F0, vm1.root, vm2.root);
    var k := 0;
    while k < |requests|
      invariant 0 <= k <= |requests|
      invariant vm1.pmm.Valid() && Separate(vm1.memory.tables, vm1.Free(), vm1.root, vm2.root)
      invariant Confined(M0, F0, vm1.memory.tables, vm1.Free(), vm1.root, vm2.root)
      invariant vm1.pmm.freeCount == Execute(S, requests[..k]).left
      invariant Shows(vm1.memory.tables, vm1.root, Execute(S, requests[..k]).first)
      invariant Shows(vm1.memory.tables, vm2.root, Execute(S, requests[..k]).second)
    {
      var r := requests[k];
      ghost var M, F, E := vm1.memory.tables, vm1.Free(), Execute(S, requests[..k]);
      assert requests[..k + 1][..k] == requests[..k];
      if r.first {
        Apply(vm1, r.edit, E.first, vm2.root);
        StillShows(M, vm1.memory.tables, vm2.root, E.second);
        ConfinedStep(M0, F0, M, F, vm1.memory.tables, vm1.Free(), vm1.root, vm2.root);
      } else {
        SeparateParts(vm1.memory.tables, vm1.Free(), vm1.root, vm2.root);
        Apply(vm2, r.edit, E.second, vm1.root);
        StillShows(M, vm1.memory.tables, vm1.root, E.first);
        ConfinedSwap(M0, F0, M, F, vm1.root, vm2.root);
        ConfinedStep(M0, F0, M, F, vm1.memory.tables, vm1.Free(), vm2.root, vm1.root);
      }
      k := k + 1;
    }
    assert requests[..k] == requests;
  }

  lemma ConfinedStart(M: Memory, free: set<nat>, r1: nat, r2: nat)
    ensures Confined(M, free, M, free, r1, r2)
  {
    hide Tables;
    assert forall x | x in M :: Same(M, M, x);
  }

  lemma ConfinedSwap(M: Memory, free: set<nat>, M': Memory, free': set<nat>, r1: nat, r2: nat)
    requires Confined(M, free, M', free', r1, r2)
    ensures Confined(M, free, M', free', r2, r1)
  {
    hide Tables;
    assert Tables(M', r2, 3, USER_ENTRIES) + Tables(M', r1, 3, USER_ENTRIES)
           == Tables(M, r2, 3, USER_ENTRIES) + Tables(M, r1, 3, USER_ENTRIES) + (free - free');
  }

  lemma StillShows(M: Memory, M': Memory, root: nat, s: Space)
    requires Shows(M, root, s) && SameLowerHalf(M, M', root)
    ensures Shows(M', root, s)
  {
    hide Translate, Missing;
  }

  /**
   Of all memory, a fork and the edits after it touched only what lies below the
   parent's lower half and frames that were free; the parent keeps its upper half, and
   the child, if there is one, has the same.
   */
  ghost predicate ForkConfined(M: Memory, free: set<nat>, M': Memory, free': set<nat>,
                               parent: nat, child: nat, ok: bool) {
    && free' <= free
    && (forall j: Index | USER_ENTRIES <= j ::
          Slot(M', parent, j) == Slot(M, parent, j)
          && (ok ==> Slot(M', child, j) == if Slot(M, parent, j).present then Slot(M, parent, j) else ZERO))
    && forall x | x in M && x !in Tables(M, parent, 3, USER_ENTRIES) && x !in free :: Same(M, M', x)
  }

  /** Fork: copy the address space, then let parent and child edit theirs in any order. */
  method Fork(vm: VirtualMemoryManager, requests: seq<Request>) returns (ok: bool, child: VirtualMemoryManager)
    requires vm.pmm.Valid()
    requires Tree(vm.memory.tables, vm.root, 3, USER_ENTRIES)
    requires Tables(vm.memory.tables, vm.root, 3, USER_ENTRIES) !! vm.Free()
    requires forall k | 0 <= k < |requests| :: requests[k].edit.page.pml4 < USER_ENTRIES
    modifies vm.pmm, vm.pmm.heads, vm.memory
    ensures ForkConfined(old(vm.memory.tables), old(vm.Free()), vm.memory.tables, vm.Free(), vm.root, child.root, ok)
    ensures var M, needed := old(vm.memory.tables), |Tables(old(vm.memory.tables), vm.root, 3, USER_ENTRIES)|;
      && (ok <==> old(vm.pmm.freeCount) >= needed)
      && (ok ==>
          var E := Execute(Spaces(old(vm.pmm.freeCount) - needed, View(M, vm.root), CopiedView(M, vm.root)), requests);
          && Shows(vm.memory.tables, vm.root, E.first) && Shows(vm.memory.tables, child.root, E.second)
          && vm.pmm.freeCount == E.left)
      && (!ok ==> SameLowerHalf(M, vm.memory.tables, vm.root))
  {
    hide Tables, Tree, Lookup, CopiedMapping, Separate, Missing, Execute, Step, Confined, ForkConfined, UpperCopied;
    hide TraceOf, CopiedTrace, Translate, Shows, SameLowerHalf, View, CopiedView, Copying, Frames;
    hide PM.PhysicalMemoryManager.Valid;
    ghost var S, free := vm.memory.tables, vm.Free();
    var copy := vm.CopyPageMapL4Table();
    child := new VirtualMemoryManager(copy, vm.pmm, vm.memory);
    if copy == 0 {
      SourceKept(S, vm.memory.tables, vm.root, free);
      SourceUpper(S, vm.memory.tables, vm.root, free, vm.Free());
      return false, child;
    }
    CopySeparate(S, vm.memory.tables, vm.root, copy, free, vm.Free());
    StartViews(S, vm.memory.tables, vm.root, copy, free, vm.Free());
    ghost var M1, F1 := vm.memory.tables, vm.Free();
    RunEdits(vm, child, requests, View(S, vm.root), CopiedView(S, vm.root));
    ForkThenEdits(S, free, M1, F1, vm.memory.tables, vm.Free(), vm.root, copy);
    ok := true;
  }

  lemma SourceUpper(S: Memory, M: Memory, root: nat, free: set<nat>, free': set<nat>)
    requires Tree(S, root, 3, USER_ENTRIES) && Tables(S, root, 3, USER_ENTRIES) !! free && free' <= free
    requires forall x | x in S && x !in free :: Same(S, M, x)
    ensures forall j: Index :: Slot(M, root, j) == Slot(S, root, j)
    ensures forall child :: ForkConfined(S, free, M, free', root, child, false)
  {
    hide Tree, Tables;
    TablesPresent(S, root, 3, USER_ENTRIES);
    SelfInTables(S, root, 3, USER_ENTRIES);
    assert Same(S, M, root);
  }

  lemma ForkThenEdits(S: Memory, free: set<nat>, M: Memory, free': set<nat>, M': Memory, free'': set<nat>,
                      root: nat, copy: nat)
    requires Tree(S, root, 3, USER_ENTRIES) && Tables(S, root, 3, USER_ENTRIES) !! free
    requires forall x | x in S && x !in free :: Same(S, M, x)
    requires Copying(S, root, M, copy, 3, USER_ENTRIES, free, free') && UpperCopied(S, root, M, copy, ENTRIES)
    requires Confined(M, free', M', free'', root, copy)
    ensures ForkConfined(S, free, M', free'', root, copy, true)
  {
    hide Tree, Tables, Lookup, Missing, CopiedMapping;
    SourceUpper(S, M, root, free, free');
    TablesPresent(S, root, 3, USER_ENTRIES);
    SelfInTables(S, root, 3, USER_ENTRIES);
    TreeFrame(S, M, root, 3, USER_ENTRIES);
  }

  lemma SourceKept(S: Memory, M: Memory, root: nat, free: set<nat>)
    requires Tree(S, root, 3, USER_ENTRIES) && Tables(S, root, 3, USER_ENTRIES) !! free
    requires forall x | x in S && x !in free :: Same(S, M, x)
    ensures SameLowerHalf(S, M, root)
  {
    hide Tables, Tree, Lookup, Missing;
    TablesPresent(S, root, 3, USER_ENTRIES);
    SelfInTables(S, root, 3, USER_ENTRIES);
    assert Same(S, M, root);
    TreeFrame(S, M, root, 3, USER_ENTRIES);
  }

  lemma StartViews(S: Memory, M: Memory, root: nat, copy: nat, free: set<nat>, free': set<nat>)
    requires SameLowerHalf(S, M, root) && Copying(S, root, M, copy, 3, USER_ENTRIES, free, free')
    ensures Shows(M, root, View(S, root)) && Shows(M, copy, CopiedView(S, root))
  {
    hide Tables, Tree, Lookup, Missing, CopiedMapping;
    forall v: VPage | v.pml4 < USER_ENTRIES
      ensures Translate(M, copy, v) == CopiedMapping(S, root, 3, v) && Missing(M, copy, 3, v) == Missing(S, root, 3, v)
    {
      assert IndexAt(v, 3) < USER_ENTRIES;
    }
  }

  // ---- isolation ----

  /** No request through the other root changes an address space. */
  lemma {:induction false} OthersChangeNothing(S: Spaces, requests: seq<Request>, first: bool)
    requires forall k | 0 <= k < |requests| :: requests[k].first != first
    ensures var E := Execute(S, requests); if first then E.first == S.first else E.second == S.second
    decreases |requests|
  {
    if requests != [] {
      OthersChangeNothing(S, requests[..|requests| - 1], first);
    }
  }

  /** The requests through one root, in order. */
  function Own(requests: seq<Request>, first: bool): seq<Request> {
    if requests == [] then []
    else
      var last := requests[|requests| - 1];
      Own(requests[..|requests| - 1], first) + if last.first == first then [last] else []
  }

  /** No mapping through the first root lacks free pages when its turn comes. */
  predicate Supplied(S: Spaces, requests: seq<Request>) {
    requests == [] ||
    (var front, last := requests[..|requests| - 1], requests[|requests| - 1];
     Supplied(S, front) &&
     (last.first && last.edit.Map? ==>
        Execute(S, front).first.missing(last.edit.page) <= Execute(S, front).left))
  }

  /** A supplied request does the same with more free pages; one through the other root takes at most pages. */
  lemma StepAlike(E: Spaces, A: Spaces, r: Request)
    requires E.first == A.first && E.left <= A.left
    requires r.first && r.edit.Map? ==> E.first.missing(r.edit.page) <= E.left
    ensures r.first ==> Step(E, r).first == Step(A, r).first && Step(E, r).left <= Step(A, r).left
    ensures !r.first ==> Step(E, r).first == A.first && Step(E, r).left <= A.left
  {
    hide AddTables, Remap;
  }

  lemma OneMoreRequest(S: Spaces, requests: seq<Request>, r: Request)
    ensures Execute(S, requests + [r]) == Step(Execute(S, requests), r)
  {
    hide Step;
    assert (requests + [r])[..|requests|] == requests;
  }

  /**
   As long as its own mappings do not run out of free pages, an address space ends up
   exactly as its own requests alone would have made it, however the other ones are
   interleaved: these can do no more than take free pages.
   */
  lemma {:induction false} OwnEditsDecide(S: Spaces, requests: seq<Request>)
    requires Supplied(S, requests)
    ensures var E, A := Execute(S, requests), Execute(S, Own(requests, true));
      E.first == A.first && E.left <= A.left
    decreases |requests|
  {
    hide Step;
    if requests != [] {
      var front, last := requests[..|requests| - 1], requests[|requests| - 1];
      OwnEditsDecide(S, front);
      var own := Own(front, true);
      StepAlike(Execute(S, front), Execute(S, own), last);
      OneMoreRequest(S, own, last);
      assert own + [] == own;
    }
  }

  // ---- user mode ----

  function SpaceOf(S: Spaces, first: bool): Space {
    if first then S.first else S.second
  }

  lemma ShowsOpen(M: Memory, root: nat, s: Space, v: VPage)
    requires Shows(M, root, s) && v.pml4 < USER_ENTRIES
    ensures OpenToUser(M, root, v) <==> AllSet(s.users(v))
  {
    OpenTrace(M, root, 3, v);
  }

  /** No request closes a page to user mode; only a mapping for user mode in the same address space opens one. */
  lemma StepOpen(S: Spaces, r: Request, first: bool, v: VPage)
    ensures AllSet(SpaceOf(S, first).users(v)) ==> AllSet(SpaceOf(Step(S, r), first).users(v))
    ensures !(r.edit.Map? && r.edit.flags.user && r.first == first) ==>
      SpaceOf(Step(S, r), first).users(v) == SpaceOf(S, first).users(v)
    ensures r.first == first && r.edit.Map? && r.edit.flags.user
            && SpaceOf(S, first).missing(r.edit.page) <= S.left ==>
      AllSet(SpaceOf(Step(S, r), first).users(r.edit.page))
  {
    hide Apart, Raise;
    ApartSelf(r.edit.page);
    RaiseSets(SpaceOf(S, first).users(v));
    RaiseSets(SpaceOf(S, first).users(r.edit.page));
  }

  lemma RaiseSets(users: seq<bool>)
    ensures AllSet(Raise(users, 0))
    ensures AllSet(users) ==> forall above: nat :: AllSet(Raise(users, above))
  {
  }

  /**
   A page that some request of a run mapped for user mode, with the free pages it took,
   is open to user mode at the end of the run, whatever else was requested.
   */
  lemma {:induction false} UserPagesOpen(S: Spaces, requests: seq<Request>, k: nat)
    requires k < |requests| && requests[k].edit.Map? && requests[k].edit.flags.user
    requires var E := Execute(S, requests[..k]);
      SpaceOf(E, requests[k].first).missing(requests[k].edit.page) <= E.left
    ensures AllSet(SpaceOf(Execute(S, requests), requests[k].first).users(requests[k].edit.page))
    decreases |requests|
  {
    hide Step;
    var front, last := requests[..|requests| - 1], requests[|requests| - 1];
    StepOpen(Execute(S, front), last, requests[k].first, requests[k].edit.page);
    if k < |requests| - 1 {
      assert front[..k] == requests[..k];
      UserPagesOpen(S, front, k);
    }
  }

  // ---- page accounting ----

  lemma FramesDetermine(base: nat, total: nat, free: set<nat>, free': set<nat>)
    requires Frames(base, total, free) == Frames(base, total, free')
    requires (forall p | p in free :: p < total) && (forall p | p in free' :: p < total)
    ensures free == free'
  {
    forall p: nat | p < total
      ensures p in free <==> p in free'
    {
      var f := base / Links.PAGE_SIZE + p;
      assert f - base / Links.PAGE_SIZE == p;
      assert FreeAt(base, free, f) <==> f in Frames(base, total, free);
      assert FreeAt(base, free', f) <==> f in Frames(base, total, free');
    }
    assert forall p: nat :: p in free <==> p in free';
  }

  /** Copying an address space and discarding the copy gives the allocator back every page it gave. */
  method CopyAndDiscard(vm: VirtualMemoryManager) returns (ok: bool)
    requires vm.pmm.Valid()
    requires Tree(vm.memory.tables, vm.root, 3, USER_ENTRIES)
    requires Tables(vm.memory.tables, vm.root, 3, USER_ENTRIES) !! vm.Free()
    modifies vm.pmm, vm.pmm.heads, vm.memory
    ensures vm.pmm.Valid()
    ensures ok <==> old(vm.pmm.freeCount) >= |Tables(old(vm.memory.tables), vm.root, 3, USER_ENTRIES)|
    ensures ok ==> vm.pmm.free == old(vm.pmm.free) && vm.pmm.freeCount == old(vm.pmm.freeCount)
    // the free lists hold the same blocks, order by order
    ensures ok ==> forall k | 0 <= k < FL.MAX_BUDDY_ORDERS ::
      multiset(vm.pmm.lists[k]) == multiset(old(vm.pmm.lists)[k])
  {
    hide Tables, Tree, Lookup, CopiedMapping, LeafFrame, Frames;
    hide PM.PhysicalMemoryManager.Valid;
    ghost var lists, free, top := vm.pmm.lists, vm.pmm.free, vm.pmm.maxOrder;
    AllocatorFacts(vm.pmm);
    var copy := vm.CopyPageMapL4Table();
    if copy == 0 {
      return false;
    }
    AllManaged(vm.pmm.base, vm.pmm.total, free);
    SelfInTables(vm.memory.tables, copy, 3, USER_ENTRIES);
    vm.FreeHierarchy(copy, 3, USER_ENTRIES);
    AllocatorFacts(vm.pmm);
    FramesDetermine(vm.pmm.base, vm.pmm.total, vm.pmm.free, free);
    SameTop(vm.pmm.total, top, vm.pmm.maxOrder);
    forall k | 0 <= k < FL.MAX_BUDDY_ORDERS
      ensures multiset(vm.pmm.lists[k]) == multiset(lists[k])
    {
      FL.CanonicalDetermined(vm.pmm.lists, lists, free, top, k);
    }
    return true;
  }

  lemma AllocatorFacts(pmm: PM.PhysicalMemoryManager)
    requires pmm.Valid()
    ensures FL.Canonical(pmm.lists, pmm.free, pmm.maxOrder) && forall p | p in pmm.free :: p < pmm.total
    ensures pmm.total > 0 ==> Powers.Pow2(pmm.maxOrder) <= pmm.total < Powers.Pow2(pmm.maxOrder + 1)
    ensures pmm.freeCount == |pmm.free|
  {
  }

  lemma SameTop(total: nat, top: nat, top': nat)
    requires Powers.Pow2(top) <= total < Powers.Pow2(top + 1)
    requires Powers.Pow2(top') <= total < Powers.Pow2(top' + 1)
    ensures top == top'
  {
    if top < top' { Powers.Pow2Monotone(top + 1, top'); }
    if top' < top { Powers.Pow2Monotone(top' + 1, top); }
  }

  /** Mapping a range and unmapping it again leaves exactly that range unmapped. */
  method MapThenUnmap(vm: VirtualMemoryManager, physical: nat, virtual_: nat, pages: nat, flags: PageMappingFlags)
    requires vm.pmm.Valid() && pages <= INDEX_SPACE
    requires Tree(vm.memory.tables, vm.root, 3, ENTRIES) && Tables(vm.memory.tables, vm.root, 3, ENTRIES) !! vm.Free()
    modifies vm.pmm, vm.pmm.heads, vm.memory
    ensures vm.pmm.Valid()
    // if there is a free page for each table the range needs
    ensures old(vm.pmm.freeCount) >= TablesNeeded(old(vm.memory.tables), vm.root, FirstPage(virtual_), pages) ==>
      forall v: VPage ::
        Translate(vm.memory.tables, vm.root, v) ==
        if InRange(v, FirstPage(virtual_), pages) then None else Translate(old(vm.memory.tables), vm.root, v)
  {
    hide Tables, Tree, Lookup, Translate, Missing, TablesNeeded;
    hide PM.PhysicalMemoryManager.Valid;
    var _, _ := vm.MapRange(physical, virtual_, pages, flags, ENTRIES);
    var _ := vm.UnmapRange(virtual_, pages, ENTRIES);
  }
}
