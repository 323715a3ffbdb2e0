/**
 Four-level page tables as values. Level 3 is the PML4 and level 0 a page table;
 a table is named by the number of the page frame that holds it.
 */
module PageTables {
  import opened Common

  const ENTRIES := 512
  const SUPPORTED_FRAMES := 0x100000   // page frames below 4 GiB
  const TABLE_FRAME_LIMIT := 0xC0000   // tables lie below 0xC0000000

  type Index = i: nat | i < ENTRIES

  // ---- entries ----

  /** A 64-bit entry by its bit fields; frame is bits 12 to 51. */
  datatype Entry = Entry(
    present: bool, writeable: bool, user: bool, writeThrough: bool, cacheDisabled: bool,
    accessed: bool, dirty: bool, size: bool, global: bool, available: nat,
    frame: nat, upper: nat, noExecute: bool)

  const ZERO := Entry(false, false, false, false, false, false, false, false, false, 0, 0, 0, false)

  /** BuildNonLeafEntryValue: keep the flags a table entry may have, and make it present and writeable. */
  function BuildNonLeaf(frame: nat, flags: Entry, user: bool): Entry {
    flags.(present := true, writeable := true, user := flags.user || user,
           dirty := false, size := false, global := false,
           frame := frame % SUPPORTED_FRAMES, upper := 0, noExecute := false)
  }

  /** BuildLeafEntryValue: keep the flags a leaf may have, and set access and write permission. */
  function BuildLeaf(frame: nat, flags: Entry, user: bool, writeable: bool): Entry {
    flags.(present := true, writeable := writeable, user := user,
           frame := frame % SUPPORTED_FRAMES, upper := 0, noExecute := false)
  }

  /** SanitizeNonPresentCopiedEntry: the same flags, but not present. */
  function Sanitize(e: Entry): Entry {
    e.(present := false, frame := e.frame % SUPPORTED_FRAMES, upper := 0, noExecute := false)
  }

  /** A present entry of the lowest level, or one with the size bit at the middle levels, maps memory. */
  predicate IsLeaf(e: Entry, level: nat) {
    level == 0 || (level < 3 && e.size)
  }

  predicate IsTable(e: Entry, level: nat) {
    e.present && !IsLeaf(e, level)
  }

  // ---- virtual pages ----

  /** A virtual page by its four table indexes. */
  datatype VPage = VPage(pml4: Index, pdpt: Index, pd: Index, pt: Index)

  function IndexAt(v: VPage, level: nat): Index {
    if level == 0 then v.pt else if level == 1 then v.pd else if level == 2 then v.pdpt else v.pml4
  }

  /** The page's place inside a leaf of the given level. */
  function OffsetIn(v: VPage, level: nat): nat {
    if level == 0 then 0 else if level == 1 then v.pt else v.pd * ENTRIES + v.pt
  }

  /** The number of 4 KiB pages a leaf of the given level maps. */
  function Span(level: nat): nat {
    if level == 0 then 1 else if level == 1 then ENTRIES else ENTRIES * ENTRIES
  }

  /** v and w take the same entries from the given level down. */
  predicate SamePath(v: VPage, w: VPage, level: nat) {
    IndexAt(v, level) == IndexAt(w, level) && (level == 0 || SamePath(v, w, level - 1))
  }

  // ---- the walk ----

  type Table = t: seq<Entry> | |t| == ENTRIES witness seq(ENTRIES, _ => ZERO)

  const EMPTY_TABLE: Table := seq(ENTRIES, _ => ZERO)

  type Memory = map<nat, Table>

  function Slot(M: Memory, a: nat, i: Index): Entry {
    if a in M then M[a][i] else ZERO
  }

  datatype Mapping = Mapping(frame: nat, user: bool, writeable: bool)

  /** The mapping found for v from table a of the given level down. */
  function Lookup(M: Memory, a: nat, level: nat, v: VPage): Option<Mapping>
    decreases level
  {
    var e := Slot(M, a, IndexAt(v, level));
    if !e.present then None
    else if level == 0 || IsLeaf(e, level) then Some(Mapping(e.frame + OffsetIn(v, level), e.user, e.writeable))
    else Lookup(M, e.frame, level - 1, v)
  }

  /** The meaning of an address space. */
  function Translate(M: Memory, root: nat, v: VPage): Option<Mapping> {
    Lookup(M, root, 3, v)
  }

  /** The frame number held in the leaf entry that maps v, if any. */
  function LeafFrame(M: Memory, a: nat, level: nat, v: VPage): Option<nat>
    decreases level
  {
    var e := Slot(M, a, IndexAt(v, level));
    if !e.present then None
    else if level == 0 || IsLeaf(e, level) then Some(e.frame)
    else LeafFrame(M, e.frame, level - 1, v)
  }

  /** How many tables would have to be added below table a before v has an entry of a lowest-level table. */
  function Missing(M: Memory, a: nat, level: nat, v: VPage): (m: nat)
    ensures m <= level
    decreases level
  {
    var e := Slot(M, a, IndexAt(v, level));
    if level > 0 && IsTable(e, level) then Missing(M, e.frame, level - 1, v) else level
  }

  /** Whether the walk for v ends at a level-0 table (present there or not). */
  predicate ReachesPageTable(M: Memory, a: nat, level: nat, v: VPage) {
    Missing(M, a, level, v) == 0
  }

  /** The user bits of the entries a walk passes, from level 1 up, and the entry it ends at. */
  datatype Trace = Trace(users: seq<bool>, last: Entry)

  /** The walk for v from table a down; an entry that leads to no table also stands for the levels below it. */
  function TraceOf(M: Memory, a: nat, level: nat, v: VPage): (t: Trace)
    ensures |t.users| == level
    decreases level
  {
    var e := Slot(M, a, IndexAt(v, level));
    if level > 0 && IsTable(e, level) then
      var below := TraceOf(M, e.frame, level - 1, v);
      below.(users := below.users + [e.user])
    else Trace(seq(level, _ => e.present && e.user), e)
  }

  /** Whether the processor lets user mode through to the entry that maps v: every table entry on the way allows it. */
  predicate OpenFrom(M: Memory, a: nat, level: nat, v: VPage)
    decreases level
  {
    var e := Slot(M, a, IndexAt(v, level));
    level == 0 || (e.present && e.user && (IsLeaf(e, level) || OpenFrom(M, e.frame, level - 1, v)))
  }

  predicate OpenToUser(M: Memory, root: nat, v: VPage) {
    OpenFrom(M, root, 3, v)
  }

  predicate AllSet(bits: seq<bool>) {
    forall k | 0 <= k < |bits| :: bits[k]
  }

  /** A page is open to user mode exactly if all user bits of its walk are set. */
  lemma {:induction false} OpenTrace(M: Memory, a: nat, level: nat, v: VPage)
    ensures OpenFrom(M, a, level, v) <==> AllSet(TraceOf(M, a, level, v).users)
    decreases level
  {
    var e := Slot(M, a, IndexAt(v, level));
    if level > 0 && IsTable(e, level) {
      OpenTrace(M, e.frame, level - 1, v);
      AllSetLast(TraceOf(M, e.frame, level - 1, v).users, e.user);
    } else if level > 0 {
      var users := TraceOf(M, a, level, v).users;
      assert users[0] == (e.present && e.user);
    }
  }

  lemma AllSetLast(bits: seq<bool>, last: bool)
    ensures AllSet(bits + [last]) <==> AllSet(bits) && last
  {
    assert (bits + [last])[|bits|] == last;
    assert forall k | 0 <= k < |bits| :: (bits + [last])[k] == bits[k];
  }

  /** The user bits with those above the given level set. */
  function Raise(users: seq<bool>, above: nat): (r: seq<bool>)
    ensures |r| == |users|
  {
    seq(|users|, k requires 0 <= k < |users| => users[k] || k >= above)
  }

  /** How many of the tables on the path of w, from the given level down, are not on the path of v. */
  function Apart(v: VPage, w: VPage, level: nat): (d: nat)
    ensures d <= level
  {
    if level == 0 then 0
    else if IndexAt(v, level) != IndexAt(w, level) then level
    else Apart(v, w, level - 1)
  }

  lemma MissingBelow(M: Memory, a: nat, level: nat, i: Index)
    requires 0 < level && IsTable(Slot(M, a, i), level)
    ensures forall v: VPage | IndexAt(v, level) == i ::
      && Missing(M, a, level, v) == Missing(M, Slot(M, a, i).frame, level - 1, v)
      && TraceOf(M, a, level, v).users == TraceOf(M, Slot(M, a, i).frame, level - 1, v).users + [Slot(M, a, i).user]
      && TraceOf(M, a, level, v).last == TraceOf(M, Slot(M, a, i).frame, level - 1, v).last
  {
  }

  // ---- shape: the tables below a table form a tree ----

  /** The frames of all tables reached from table a through its first n entries, a included. */
  ghost function Tables(M: Memory, a: nat, level: nat, n: nat): set<nat>
    requires n <= ENTRIES
    decreases level, n
  {
    if n == 0 then {a} else Tables(M, a, level, n - 1) + Below(M, a, level, n - 1)
  }

  /** The frames of the tables reached through entry i. */
  ghost function Below(M: Memory, a: nat, level: nat, i: Index): set<nat>
    decreases level, 0
  {
    var e := Slot(M, a, i);
    if level > 0 && IsTable(e, level) then Tables(M, e.frame, level - 1, ENTRIES) else {}
  }

  ghost predicate Tree(M: Memory, a: nat, level: nat, n: nat)
    requires n <= ENTRIES
    decreases level, n
  {
    if n == 0 then a in M
    else
      && Tree(M, a, level, n - 1)
      && GoodSlot(M, a, level, n - 1)
      && Below(M, a, level, n - 1) !! Tables(M, a, level, n - 1)
  }

  /** Leaves are aligned and below 4 GiB; table entries are writeable and lead to a tree. */
  ghost predicate GoodSlot(M: Memory, a: nat, level: nat, i: Index)
    decreases level, 0
  {
    var e := Slot(M, a, i);
    e.present ==>
      if level == 0 || IsLeaf(e, level) then e.frame < SUPPORTED_FRAMES && e.frame % Span(level) == 0
      else 0 < e.frame < TABLE_FRAME_LIMIT && e.writeable && Tree(M, e.frame, level - 1, ENTRIES)
  }

  ghost predicate Same(M: Memory, M': Memory, x: nat) {
    x in M && x in M' && M[x] == M'[x]
  }

  lemma {:induction false} SelfInTables(M: Memory, a: nat, level: nat, n: nat)
    requires n <= ENTRIES
    ensures a in Tables(M, a, level, n)
  {
    if n > 0 {
      SelfInTables(M, a, level, n - 1);
    }
  }

  lemma BelowIsTables(M: Memory, a: nat, level: nat, i: Index)
    requires 0 < level && IsTable(Slot(M, a, i), level)
    ensures Below(M, a, level, i) == Tables(M, Slot(M, a, i).frame, level - 1, ENTRIES)
    ensures GoodSlot(M, a, level, i) ==> Tree(M, Slot(M, a, i).frame, level - 1, ENTRIES)
  {
  }

  lemma {:induction false} TablesPresent(M: Memory, a: nat, level: nat, n: nat)
    requires n <= ENTRIES && Tree(M, a, level, n)
    ensures forall x | x in Tables(M, a, level, n) :: x in M
    decreases level, n
  {
    if n > 0 {
      TablesPresent(M, a, level, n - 1);
      var e := Slot(M, a, n - 1);
      if level > 0 && IsTable(e, level) {
        TablesPresent(M, e.frame, level - 1, ENTRIES);
      }
    }
  }

  /** What being a tree says about one entry. */
  lemma {:induction false} SlotOfTree(M: Memory, a: nat, level: nat, n: nat, i: Index)
    requires i < n <= ENTRIES && Tree(M, a, level, n)
    ensures GoodSlot(M, a, level, i) && a in M
    ensures Below(M, a, level, i) <= Tables(M, a, level, n) && a !in Below(M, a, level, i)
    decreases n
  {
    SelfInTables(M, a, level, n - 1);
    if i < n - 1 {
      SlotOfTree(M, a, level, n - 1, i);
    } else if n > 1 {
      SlotOfTree(M, a, level, n - 1, 0);
    }
  }

  /** What lies below an entry, and its meaning, depend only on the pages of the tables below it. */
  lemma {:induction false} SlotFrame(M: Memory, M': Memory, a: nat, level: nat, i: Index)
    requires GoodSlot(M, a, level, i) && Slot(M', a, i) == Slot(M, a, i)
    requires forall x | x in Below(M, a, level, i) :: Same(M, M', x)
    ensures GoodSlot(M', a, level, i) && Below(M', a, level, i) == Below(M, a, level, i)
    ensures forall v: VPage | IndexAt(v, level) == i ::
      Lookup(M', a, level, v) == Lookup(M, a, level, v) &&
      Missing(M', a, level, v) == Missing(M, a, level, v) &&
      TraceOf(M', a, level, v) == TraceOf(M, a, level, v)
    decreases level, 0
  {
    var e := Slot(M, a, i);
    if level > 0 && IsTable(e, level) {
      SelfInTables(M, e.frame, level - 1, ENTRIES);
      assert Same(M, M', e.frame);
      TreeFrame(M, M', e.frame, level - 1, ENTRIES);
    }
  }

  /** A tree and its meaning depend only on the pages of its own tables. */
  lemma {:induction false} TreeFrame(M: Memory, M': Memory, a: nat, level: nat, n: nat)
    requires n <= ENTRIES && Tree(M, a, level, n)
    requires a in M' && forall i: Index | i < n :: Slot(M', a, i) == Slot(M, a, i)
    requires forall x | x in Tables(M, a, level, n) && x != a :: Same(M, M', x)
    ensures Tree(M', a, level, n) && Tables(M', a, level, n) == Tables(M, a, level, n)
    ensures forall v: VPage | IndexAt(v, level) < n ::
      Lookup(M', a, level, v) == Lookup(M, a, level, v) &&
      Missing(M', a, level, v) == Missing(M, a, level, v) &&
      TraceOf(M', a, level, v) == TraceOf(M, a, level, v)
    decreases level, n
  {
    if n > 0 {
      TreeFrame(M, M', a, level, n - 1);
      SelfInTables(M, a, level, n - 1);
      SlotFrame(M, M', a, level, n - 1);
    }
  }

  /** One entry of a table, or what lies below it, changes: everything else stays as it was. */
  lemma {:induction false} ChangeSlot(M: Memory, M': Memory, a: nat, level: nat, n: nat, i: Index, fresh_: set<nat>)
    requires i < n <= ENTRIES && Tree(M, a, level, n)
    requires a in M' && forall j: Index | j < n && j != i :: Slot(M', a, j) == Slot(M, a, j)
    requires forall x | x in Tables(M, a, level, n) && x != a && x !in Below(M, a, level, i) :: Same(M, M', x)
    requires GoodSlot(M', a, level, i) && Below(M', a, level, i) == Below(M, a, level, i) + fresh_
    requires fresh_ !! Tables(M, a, level, n)
    ensures Tree(M', a, level, n) && Tables(M', a, level, n) == Tables(M, a, level, n) + fresh_
    ensures forall v: VPage | IndexAt(v, level) < n && IndexAt(v, level) != i ::
      Lookup(M', a, level, v) == Lookup(M, a, level, v) &&
      Missing(M', a, level, v) == Missing(M, a, level, v) &&
      TraceOf(M', a, level, v) == TraceOf(M, a, level, v)
    decreases n
  {
    SelfInTables(M, a, level, n - 1);
    if i == n - 1 {
      TreeFrame(M, M', a, level, i);
    } else {
      ChangeSlot(M, M', a, level, n - 1, i, fresh_);
      SlotOfTree(M, a, level, n - 1, i);
      SlotFrame(M, M', a, level, n - 1);
    }
  }

  /** A table of well-placed leaves and absent entries, without table entries. */
  ghost predicate Flat(t: Table, level: nat) {
    forall i: Index :: t[i].present ==>
      (level == 0 || IsLeaf(t[i], level)) && t[i].frame < SUPPORTED_FRAMES && t[i].frame % Span(level) == 0
  }

  lemma {:induction false} FlatTree(M: Memory, a: nat, level: nat, n: nat)
    requires n <= ENTRIES && a in M && Flat(M[a], level)
    ensures Tree(M, a, level, n) && Tables(M, a, level, n) == {a}
    decreases n
  {
    if n > 0 {
      FlatTree(M, a, level, n - 1);
      assert Slot(M, a, n - 1) == M[a][n - 1];
    }
  }

  function LeafMapping(e: Entry, level: nat, v: VPage): Option<Mapping> {
    if e.present then Some(Mapping(e.frame + OffsetIn(v, level), e.user, e.writeable)) else None
  }

  // ---- edits of one entry ----

  function WriteSlot(M: Memory, a: nat, i: Index, e: Entry): Memory
    requires a in M
  {
    M[a := M[a][i := e]]
  }

  /** Every page keeps its mapping, and no page loses a table. */
  ghost predicate SameMeaning(M: Memory, M': Memory, a: nat, level: nat, n: nat) {
    forall v: VPage | IndexAt(v, level) < n ::
      Lookup(M', a, level, v) == Lookup(M, a, level, v) &&
      Missing(M', a, level, v) <= Missing(M, a, level, v)
  }

  /** The walk through a table entry to an entry that leads to no further table. */
  function FlatTrace(e: Entry, last: Entry, level: nat): Trace
    requires 0 < level
  {
    Trace(seq(level - 1, _ => last.present && last.user) + [e.user], last)
  }

  /** A walk whose topmost entry has another user bit. */
  function Retagged(t: Trace, user: bool): Trace
    requires t.users != []
  {
    t.(users := t.users[..|t.users| - 1] + [user])
  }

  lemma SlotToFlatTable(M: Memory, a: nat, level: nat, i: Index)
    requires var e := Slot(M, a, i);
      0 < level && IsTable(e, level) && 0 < e.frame < TABLE_FRAME_LIMIT && e.writeable &&
      e.frame in M && Flat(M[e.frame], level - 1)
    ensures GoodSlot(M, a, level, i) && Below(M, a, level, i) == {Slot(M, a, i).frame}
    ensures forall v: VPage | IndexAt(v, level) == i ::
      Lookup(M, a, level, v) == LeafMapping(M[Slot(M, a, i).frame][IndexAt(v, level - 1)], level - 1, v) &&
      Missing(M, a, level, v) == level - 1 &&
      TraceOf(M, a, level, v) == FlatTrace(Slot(M, a, i), M[Slot(M, a, i).frame][IndexAt(v, level - 1)], level)
  {
    var e := Slot(M, a, i);
    FlatTree(M, e.frame, level - 1, ENTRIES);
    BelowIsTables(M, a, level, i);
    forall v: VPage | IndexAt(v, level) == i
      ensures
        && Lookup(M, a, level, v) == LeafMapping(M[e.frame][IndexAt(v, level - 1)], level - 1, v)
        && Missing(M, a, level, v) == level - 1
        && TraceOf(M, a, level, v) == FlatTrace(e, M[e.frame][IndexAt(v, level - 1)], level)
    {
      EndOfWalk(M, e.frame, level - 1, v);
    }
  }

  /** A walk that starts at an entry that leads to no table. */
  lemma EndOfWalk(M: Memory, a: nat, level: nat, v: VPage)
    requires a in M && Flat(M[a], level)
    ensures var e := M[a][IndexAt(v, level)];
      && Lookup(M, a, level, v) == LeafMapping(e, level, v) && Missing(M, a, level, v) == level
      && TraceOf(M, a, level, v) == Trace(seq(level, _ => e.present && e.user), e)
  {
    assert Slot(M, a, IndexAt(v, level)) == M[a][IndexAt(v, level)];
  }

  /** Every page keeps its tables, and the user bits on the way to them. */
  ghost predicate SameReach(M: Memory, M': Memory, a: nat, level: nat, n: nat) {
    forall v: VPage | IndexAt(v, level) < n ::
      Missing(M', a, level, v) == Missing(M, a, level, v) &&
      TraceOf(M', a, level, v).users == TraceOf(M, a, level, v).users
  }

  /** Link a new table of leaves and absent entries into an entry that led to no table. */
  lemma InstallTable(M: Memory, a: nat, level: nat, n: nat, i: Index, c: nat, t: Table, e: Entry)
    requires 0 < level && i < n <= ENTRIES && Tree(M, a, level, n) && !IsTable(Slot(M, a, i), level)
    requires c !in Tables(M, a, level, n) && 0 < c < TABLE_FRAME_LIMIT
    requires IsTable(e, level) && e.frame == c && e.writeable
    requires Flat(t, level - 1)
    requires forall v: VPage | IndexAt(v, level) == i ::
      Lookup(M, a, level, v) == LeafMapping(t[IndexAt(v, level - 1)], level - 1, v)
    ensures a in M
    ensures var M' := WriteSlot(M[c := t], a, i, e);
      && Tree(M', a, level, n) && Tables(M', a, level, n) == Tables(M, a, level, n) + {c}
      && SameMeaning(M, M', a, level, n)
      && forall v: VPage | IndexAt(v, level) < n ::
           && Missing(M', a, level, v) == (if IndexAt(v, level) == i then level - 1 else Missing(M, a, level, v))
           && TraceOf(M', a, level, v) ==
              if IndexAt(v, level) == i then FlatTrace(e, t[IndexAt(v, level - 1)], level) else TraceOf(M, a, level, v)
  {
    hide Tables, Tree, Flat, GoodSlot, Lookup;
    SlotOfTree(M, a, level, n, i);
    SelfInTables(M, a, level, n);
    TablesPresent(M, a, level, n);
    var M' := WriteSlot(M[c := t], a, i, e);
    assert c != a && M'[c] == t && Slot(M', a, i) == e;
    SlotToFlatTable(M', a, level, i);
    ChangeSlot(M, M', a, level, n, i, {c});
  }

  /** What lies below an entry does not depend on its flags. */
  lemma SlotRetagged(M: Memory, M': Memory, a: nat, level: nat, i: Index)
    requires 0 < level && GoodSlot(M, a, level, i) && IsTable(Slot(M, a, i), level) && IsTable(Slot(M', a, i), level)
    requires Slot(M', a, i).frame == Slot(M, a, i).frame && Slot(M', a, i).writeable
    requires forall x | x in Below(M, a, level, i) :: Same(M, M', x)
    ensures GoodSlot(M', a, level, i) && Below(M', a, level, i) == Below(M, a, level, i)
    ensures forall v: VPage | IndexAt(v, level) == i ::
      && Lookup(M', a, level, v) == Lookup(M, a, level, v) && Missing(M', a, level, v) == Missing(M, a, level, v)
      && TraceOf(M', a, level, v) == Retagged(TraceOf(M, a, level, v), Slot(M', a, i).user)
  {
    var c := Slot(M, a, i).frame;
    SelfInTables(M, c, level - 1, ENTRIES);
    assert Same(M, M', c);
    TreeFrame(M, M', c, level - 1, ENTRIES);
    hide Tables, Tree;
  }

  /** Change the flags of an entry that leads to a table. */
  lemma RetagTable(M: Memory, a: nat, level: nat, n: nat, i: Index, e: Entry)
    requires 0 < level && i < n <= ENTRIES && Tree(M, a, level, n) && IsTable(Slot(M, a, i), level)
    requires IsTable(e, level) && e.frame == Slot(M, a, i).frame && e.writeable
    ensures a in M
    ensures var M' := WriteSlot(M, a, i, e);
      && Tree(M', a, level, n) && Tables(M', a, level, n) == Tables(M, a, level, n)
      && SameMeaning(M, M', a, level, n)
      && forall v: VPage | IndexAt(v, level) < n ::
           && Missing(M', a, level, v) == Missing(M, a, level, v)
           && TraceOf(M', a, level, v) ==
              if IndexAt(v, level) == i then Retagged(TraceOf(M, a, level, v), e.user) else TraceOf(M, a, level, v)
  {
    hide Tables, Tree, GoodSlot, Below, Lookup, Missing, TraceOf;
    SlotOfTree(M, a, level, n, i);
    TablesPresent(M, a, level, n);
    var M' := WriteSlot(M, a, i, e);
    assert Slot(M', a, i) == e;
    SlotRetagged(M, M', a, level, i);
    ChangeSlot(M, M', a, level, n, i, {});
    assert Tables(M, a, level, n) + {} == Tables(M, a, level, n);
  }

  /** Replace an entry of a lowest-level table. */
  lemma WritePage(M: Memory, a: nat, n: nat, i: Index, e: Entry)
    requires i < n <= ENTRIES && Tree(M, a, 0, n) && e.frame < SUPPORTED_FRAMES
    ensures a in M
    ensures var M' := WriteSlot(M, a, i, e);
      && Tree(M', a, 0, n) && Tables(M', a, 0, n) == Tables(M, a, 0, n)
      && forall v: VPage | v.pt < n ::
           if v.pt != i then Lookup(M', a, 0, v) == Lookup(M, a, 0, v) && TraceOf(M', a, 0, v) == TraceOf(M, a, 0, v)
           else Lookup(M', a, 0, v) == LeafMapping(e, 0, v) && TraceOf(M', a, 0, v) == Trace([], e)
  {
    SlotOfTree(M, a, 0, n, i);
    TablesPresent(M, a, 0, n);
    var M' := WriteSlot(M, a, i, e);
    assert Slot(M', a, i) == e;
    ChangeSlot(M, M', a, 0, n, i, {});
  }

  /** Change the tree below an entry that leads to a table. */
  lemma EditBelow(M: Memory, M': Memory, a: nat, level: nat, n: nat, i: Index, taken: set<nat>)
    requires 0 < level && i < n <= ENTRIES && Tree(M, a, level, n) && IsTable(Slot(M, a, i), level)
    requires taken !! Tables(M, a, level, n)
    requires var c := Slot(M, a, i).frame;
      && Tree(M', c, level - 1, ENTRIES)
      && Tables(M', c, level - 1, ENTRIES) == Tables(M, c, level - 1, ENTRIES) + taken
      && forall x | x in Tables(M, a, level, n) && x !in Tables(M, c, level - 1, ENTRIES) :: Same(M, M', x)
    ensures Slot(M', a, i) == Slot(M, a, i)
    ensures Tree(M', a, level, n) && Tables(M', a, level, n) == Tables(M, a, level, n) + taken
    ensures forall v: VPage | IndexAt(v, level) < n && IndexAt(v, level) != i ::
      Lookup(M', a, level, v) == Lookup(M, a, level, v) &&
      Missing(M', a, level, v) == Missing(M, a, level, v) &&
      TraceOf(M', a, level, v) == TraceOf(M, a, level, v)
  {
    SlotOfTree(M, a, level, n, i);
    SelfInTables(M, a, level, n);
    assert Same(M, M', a);
    ChangeSlot(M, M', a, level, n, i, taken);
  }

  // ---- splitting a large page ----

  /** The first frame of a large page: its address bits rounded down to its size. */
  function LargeBase(e: Entry, level: nat): nat {
    e.frame % SUPPORTED_FRAMES - (e.frame % SUPPORTED_FRAMES) % Span(level)
  }

  /** Piece k of a large page: a smaller large page, or a 4 KiB page. */
  function Piece(e: Entry, level: nat, k: Index): Entry {
    if level == 1 then BuildLeaf(LargeBase(e, level) + k, ZERO, e.user, e.writeable)
    else ZERO.(present := true, size := true, writeable := e.writeable, user := e.user,
               frame := (LargeBase(e, level) + k * ENTRIES) % SUPPORTED_FRAMES)
  }

  function Pieces(e: Entry, level: nat): Table {
    seq(ENTRIES, k requires 0 <= k < ENTRIES => Piece(e, level, k))
  }

  lemma PieceCovers(e: Entry, level: nat, k: Index)
    requires 1 <= level <= 2 && e.frame < SUPPORTED_FRAMES && e.frame % Span(level) == 0
    ensures var s := Piece(e, level, k);
      && s.present && s.user == e.user && s.writeable == e.writeable
      && (level == 1 || IsLeaf(s, level - 1))
      && s.frame < SUPPORTED_FRAMES && s.frame % Span(level - 1) == 0
      && s.frame == e.frame + (if level == 1 then k else k * ENTRIES)
  {
    hide LargeBase;
    LargeBaseAligned(e, level);
    PieceFits(e.frame, level, k);
  }

  lemma LargeBaseAligned(e: Entry, level: nat)
    requires e.frame < SUPPORTED_FRAMES && e.frame % Span(level) == 0
    ensures LargeBase(e, level) == e.frame
  {
    assert e.frame % SUPPORTED_FRAMES == e.frame;
  }

  /** A piece of an aligned large page stays below 4 GiB and is itself aligned. */
  lemma PieceFits(frame: nat, level: nat, k: Index)
    requires 1 <= level <= 2 && frame < SUPPORTED_FRAMES && frame % Span(level) == 0
    ensures frame + k * Span(level - 1) < SUPPORTED_FRAMES
    ensures (frame + k * Span(level - 1)) % SUPPORTED_FRAMES == frame + k * Span(level - 1)
    ensures (frame + k * Span(level - 1)) % Span(level - 1) == 0
  {
    if level == 1 {
      var q := frame / ENTRIES;
      assert frame == ENTRIES * q;
    } else {
      var q := frame / 0x40000;
      assert frame == 0x40000 * q && q < 4;
      assert frame + k * ENTRIES == ENTRIES * (512 * q + k);
    }
  }

  /** The pieces of a large page map exactly what the large page mapped. */
  lemma PiecesMeaning(M: Memory, a: nat, level: nat, i: Index)
    requires 1 <= level <= 2 && GoodSlot(M, a, level, i)
    requires Slot(M, a, i).present && IsLeaf(Slot(M, a, i), level)
    ensures Flat(Pieces(Slot(M, a, i), level), level - 1)
    ensures forall v: VPage | IndexAt(v, level) == i ::
      Lookup(M, a, level, v) ==
      LeafMapping(Pieces(Slot(M, a, i), level)[IndexAt(v, level - 1)], level - 1, v)
  {
    forall k: Index
      ensures var s := Piece(Slot(M, a, i), level, k);
        (level == 1 || IsLeaf(s, level - 1)) && s.frame < SUPPORTED_FRAMES && s.frame % Span(level - 1) == 0
    {
      PieceCovers(Slot(M, a, i), level, k);
    }
    forall v: VPage | IndexAt(v, level) == i
      ensures Lookup(M, a, level, v) ==
              LeafMapping(Pieces(Slot(M, a, i), level)[IndexAt(v, level - 1)], level - 1, v)
    {
      PieceCovers(Slot(M, a, i), level, IndexAt(v, level - 1));
    }
  }

  /** An empty table maps as little as an absent entry. */
  lemma EmptyMeaning(M: Memory, a: nat, level: nat, i: Index)
    requires 0 < level && !Slot(M, a, i).present
    ensures Flat(EMPTY_TABLE, level - 1)
    ensures forall v: VPage | IndexAt(v, level) == i ::
      Lookup(M, a, level, v) == LeafMapping(EMPTY_TABLE[IndexAt(v, level - 1)], level - 1, v)
  {
  }

  // ---- virtual addresses ----

  const INDEX_SPACE := 0x1000000000    // pages in the 48-bit index space

  /** The virtual page with the given number; bits above the four indexes are ignored. */
  function PageAt(p: nat): VPage {
    var q := p / ENTRIES;
    var r := q / ENTRIES;
    VPage(r / ENTRIES % ENTRIES, r % ENTRIES, q % ENTRIES, p % ENTRIES)
  }

  function NumberOf(v: VPage): nat {
    ((v.pml4 * ENTRIES + v.pdpt) * ENTRIES + v.pd) * ENTRIES + v.pt
  }

  lemma PageNumbers(p: nat)
    ensures NumberOf(PageAt(p)) == p % INDEX_SPACE
  {
    var q := p / ENTRIES;
    var r := q / ENTRIES;
    var s := r / ENTRIES;
    var t := s / ENTRIES;
    assert p == INDEX_SPACE * t + NumberOf(PageAt(p));
  }

  lemma RemaindersDiffer(a: nat, b: nat)
    requires a < b < a + INDEX_SPACE
    ensures a % INDEX_SPACE != b % INDEX_SPACE
  {
    var q, r := a / INDEX_SPACE, b / INDEX_SPACE;
    assert a == INDEX_SPACE * q + a % INDEX_SPACE && b == INDEX_SPACE * r + b % INDEX_SPACE;
  }

  /** Fewer pages than the index space holds are all different. */
  lemma PagesDistinct(start: nat, j: nat, k: nat)
    requires j < k < INDEX_SPACE
    ensures PageAt(start + j) != PageAt(start + k)
  {
    hide PageAt, NumberOf;
    PageNumbers(start + j);
    PageNumbers(start + k);
    RemaindersDiffer(start + j, start + k);
  }

  /** Page k of a range of pages that starts at a page number. */
  function RangePage(start: nat, k: nat): VPage {
    PageAt(start + k)
  }

  ghost predicate InRange(w: VPage, start: nat, count: nat) {
    exists k: nat :: k < count && RangePage(start, k) == w
  }

  lemma RangeExtend(start: nat, i: nat)
    requires i < INDEX_SPACE
    ensures PageAt(start + i) == RangePage(start, i)
    ensures !InRange(RangePage(start, i), start, i)
    ensures forall k: nat | k < i :: RangePage(start, k) != RangePage(start, i)
    ensures forall w :: InRange(w, start, i + 1) <==> InRange(w, start, i) || w == RangePage(start, i)
  {
    forall k: nat | k < i
      ensures RangePage(start, k) != RangePage(start, i)
    {
      PagesDistinct(start, k, i);
    }
    hide PageAt, RangePage;
  }

  // ---- the tables a range needs ----

  /** The tables still missing for page w once the first k pages of a range are mapped. */
  function MissingAfter(M: Memory, root: nat, start: nat, k: nat, w: VPage): nat {
    if k == 0 then Missing(M, root, 3, w)
    else Smaller(MissingAfter(M, root, start, k - 1, w), Apart(RangePage(start, k - 1), w, 3))
  }

  /** How many new tables mapping the first k pages of a range takes, one page after the other. */
  function TablesNeeded(M: Memory, root: nat, start: nat, k: nat): nat {
    if k == 0 then 0
    else TablesNeeded(M, root, start, k - 1) + MissingAfter(M, root, start, k - 1, RangePage(start, k - 1))
  }

  // ---- which pages of a range can be mapped ----

  /** The free pages left once the first k pages of a range were tried, with this many at first. */
  function RangeLeft(M: Memory, root: nat, start: nat, k: nat, available: nat): nat
    decreases k, 1
  {
    if k == 0 then available
    else Short(RangeLeft(M, root, start, k - 1, available),
               RangeMissing(M, root, start, k - 1, available, RangePage(start, k - 1)))
  }

  /** The tables still missing for page w then; a page that cannot be mapped has used up what was left. */
  function RangeMissing(M: Memory, root: nat, start: nat, k: nat, available: nat, w: VPage): nat
    decreases k, 0
  {
    if k == 0 then Missing(M, root, 3, w)
    else
      var v := RangePage(start, k - 1);
      var rest := Short(RangeMissing(M, root, start, k - 1, available, v), RangeLeft(M, root, start, k - 1, available));
      Smaller(RangeMissing(M, root, start, k - 1, available, w), Larger(Apart(v, w, 3), rest))
  }

  /** The pages of the range that lack more tables than there are free pages when their turn comes. */
  function RangeFailures(M: Memory, root: nat, start: nat, k: nat, available: nat): set<nat> {
    if k == 0 then {}
    else
      RangeFailures(M, root, start, k - 1, available) +
      if RangeMissing(M, root, start, k - 1, available, RangePage(start, k - 1))
         > RangeLeft(M, root, start, k - 1, available)
      then {k - 1} else {}
  }
}
