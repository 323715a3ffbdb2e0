/** What copying a tree of page tables entry by entry builds up. */
module PageTableCopy {
  import opened Common
  import opened PageTables

  /** IsValidLeafPhysicalAddress, on a masked (so aligned) address. */
  predicate IsValidLeafFrame(frame: nat) {
    frame != 0 && frame < SUPPORTED_FRAMES
  }

  /** The copy of a present leaf: the same page, or a non-present entry if it names frame 0. */
  function CopyLeaf(e: Entry): Entry {
    var frame := e.frame % SUPPORTED_FRAMES;
    if IsValidLeafFrame(frame) then BuildLeaf(frame, e, e.user, e.writeable) else Sanitize(e)
  }

  /** What the copy maps v to: the source's mapping, unless its leaf entry names frame 0. */
  function CopiedMapping(M: Memory, a: nat, level: nat, v: VPage): Option<Mapping> {
    if LeafFrame(M, a, level, v) == Some(0) then None else Lookup(M, a, level, v)
  }

  /** The copy of an entry of the given level that leads to no table. */
  function CopiedEntry(e: Entry, level: nat): Entry {
    if e.present then CopyLeaf(e) else if level == 0 then Sanitize(e) else ZERO
  }

  /** A walk in the copy: the same user bits, except those a dropped large page stood for, and the copied last entry. */
  function CopiedTrace(t: Trace, level: nat): (c: Trace)
    ensures |c.users| == |t.users|
  {
    var last := CopiedEntry(t.last, level);
    Trace(seq(|t.users|, k requires 0 <= k < |t.users| => t.users[k] && (k >= level || last.present)), last)
  }

  /** The first n entries of table old have been copied into table copy, on pages taken from the allocator. */
  ghost predicate Copying(S: Memory, old_: nat, M: Memory, copy: nat, level: nat, n: nat,
                          free: set<nat>, free': set<nat>)
    requires n <= ENTRIES
  {
    && free' <= free && Tree(M, copy, level, n) && Tables(M, copy, level, n) == free - free'
    && forall v: VPage | IndexAt(v, level) < n ::
         && Lookup(M, copy, level, v) == CopiedMapping(S, old_, level, v)
         && Missing(M, copy, level, v) == Missing(S, old_, level, v)
         && TraceOf(M, copy, level, v) == CopiedTrace(TraceOf(S, old_, level, v), Missing(S, old_, level, v))
  }

  lemma StartCopying(S: Memory, old_: nat, M: Memory, copy: nat, level: nat, free: set<nat>)
    requires copy in M && copy in free
    ensures Copying(S, old_, M, copy, level, 0, free, free - {copy})
  {
  }

  /** An entry that may stand in a table without leading to another one. */
  ghost predicate LeafOrAbsent(e: Entry, level: nat) {
    e.present ==>
      (level == 0 || IsLeaf(e, level)) && e.frame < SUPPORTED_FRAMES && e.frame % Span(level) == 0
  }

  /** What a copied leaf keeps of the original. */
  lemma CopiedFields(e: Entry)
    requires e.present && e.frame < SUPPORTED_FRAMES
    ensures e.frame == 0 ==> !CopyLeaf(e).present
    ensures e.frame != 0 ==>
      var c := CopyLeaf(e);
      c.present && c.frame == e.frame && c.size == e.size && c.user == e.user && c.writeable == e.writeable
  {
    assert e.frame % SUPPORTED_FRAMES == e.frame;
  }

  /** c differs from e at most in being present and in its upper bits. */
  predicate KeepsFlags(e: Entry, c: Entry) {
    && c.frame == e.frame && c.writeable == e.writeable && c.user == e.user && c.size == e.size
    && c.writeThrough == e.writeThrough && c.cacheDisabled == e.cacheDisabled && c.accessed == e.accessed
    && c.dirty == e.dirty && c.global == e.global && c.available == e.available
  }

  lemma BuiltFlags(e: Entry)
    requires e.frame < SUPPORTED_FRAMES
    ensures var c := BuildLeaf(e.frame, e, e.user, e.writeable); c.present && KeepsFlags(e, c)
    ensures !Sanitize(e).present && KeepsFlags(e, Sanitize(e))
  {
    InRangeModulo(e.frame);
  }

  lemma InRangeModulo(frame: nat)
    requires frame < SUPPORTED_FRAMES
    ensures frame % SUPPORTED_FRAMES == frame
  {
  }

  /** Which entries of a table are copied, and that a copied one keeps its flags. */
  lemma CopiedFlags(e: Entry, level: nat)
    requires e.frame < SUPPORTED_FRAMES
    ensures var c := CopiedEntry(e, level);
      && (c.present <==> e.present && e.frame != 0)
      && (!e.present && level > 0 ==> c == ZERO)
      && (e.present || level == 0 ==> KeepsFlags(e, c))
  {
    BuiltFlags(e);
    InRangeModulo(e.frame);
    hide BuildLeaf, Sanitize, KeepsFlags;
  }

  lemma LeafCopied(e: Entry, level: nat)
    requires e.present && LeafOrAbsent(e, level)
    ensures LeafOrAbsent(CopyLeaf(e), level)
    ensures forall v: VPage ::
      LeafMapping(CopyLeaf(e), level, v) == if e.frame == 0 then None else LeafMapping(e, level, v)
  {
    hide CopyLeaf, Span, OffsetIn;
    CopiedFields(e);
  }

  function LeafTrace(e: Entry, level: nat): Trace {
    Trace(seq(level, _ => e.present && e.user), e)
  }

  lemma LeafTraceCopied(e: Entry, level: nat)
    requires LeafOrAbsent(e, level)
    ensures LeafTrace(CopiedEntry(e, level), level) == CopiedTrace(LeafTrace(e, level), level)
  {
    if e.present { CopiedFields(e); }
  }

  lemma TableTraceCopied(below: Trace, user: bool, level: nat)
    requires level <= |below.users|
    ensures CopiedTrace(below.(users := below.users + [user]), level)
            == CopiedTrace(below, level).(users := CopiedTrace(below, level).users + [user])
  {
  }

  lemma LeafSlot(M: Memory, a: nat, level: nat, i: Index)
    requires LeafOrAbsent(Slot(M, a, i), level)
    ensures GoodSlot(M, a, level, i) && Below(M, a, level, i) == {}
    ensures forall v: VPage | IndexAt(v, level) == i ::
      && Lookup(M, a, level, v) == LeafMapping(Slot(M, a, i), level, v)
      && Missing(M, a, level, v) == level
      && TraceOf(M, a, level, v) == LeafTrace(Slot(M, a, i), level)
      && LeafFrame(M, a, level, v) == if Slot(M, a, i).present then Some(Slot(M, a, i).frame) else None
  {
  }

  /** What the copy of an entry that leads to no table stands for. */
  lemma LeafSlotCopied(S: Memory, old_: nat, M: Memory, copy: nat, level: nat, i: Index)
    requires GoodSlot(S, old_, level, i) && !IsTable(Slot(S, old_, i), level)
    requires Slot(M, copy, i) == CopiedEntry(Slot(S, old_, i), level)
    ensures GoodSlot(M, copy, level, i) && Below(M, copy, level, i) == {} && Below(S, old_, level, i) == {}
    ensures forall v: VPage | IndexAt(v, level) == i ::
      && Lookup(M, copy, level, v) == CopiedMapping(S, old_, level, v)
      && Missing(M, copy, level, v) == Missing(S, old_, level, v)
      && TraceOf(M, copy, level, v) == CopiedTrace(TraceOf(S, old_, level, v), Missing(S, old_, level, v))
  {
    var e := Slot(S, old_, i);
    assert LeafOrAbsent(e, level);
    if e.present { LeafCopied(e, level); }
    LeafTraceCopied(e, level);
    LeafSlot(S, old_, level, i);
    LeafSlot(M, copy, level, i);
    hide GoodSlot, Lookup, LeafFrame, CopyLeaf, Tree, Below, Missing, TraceOf, LeafTrace, CopiedTrace, Sanitize;
  }

  /** Copying an entry that leads to no table. */
  lemma CopyLeafStep(S: Memory, old_: nat, M: Memory, copy: nat, level: nat, i: Index,
                     free: set<nat>, free': set<nat>, e: Entry)
    requires Copying(S, old_, M, copy, level, i, free, free')
    requires GoodSlot(S, old_, level, i) && !IsTable(Slot(S, old_, i), level)
    requires e == CopiedEntry(Slot(S, old_, i), level)
    ensures copy in M && Copying(S, old_, WriteSlot(M, copy, i, e), copy, level, i + 1, free, free')
    ensures Tables(S, old_, level, i + 1) == Tables(S, old_, level, i)
  {
    SelfInTables(M, copy, level, i);
    TablesPresent(M, copy, level, i);
    var M' := WriteSlot(M, copy, i, e);
    assert Slot(M', copy, i) == e;
    hide GoodSlot, Lookup, LeafFrame, CopyLeaf, Tree, Below, Missing, TraceOf, CopiedTrace, CopiedMapping;
    hide CopiedEntry, IsTable;
    LeafSlotCopied(S, old_, M', copy, level, i);
    TreeFrame(M, M', copy, level, i);
    ExtendTree(M', copy, level, i);
  }

  /** Linking the finished copy of the table an entry leads to. */
  lemma CopyTableStep(S: Memory, old_: nat, M1: Memory, M2: Memory, copy: nat, level: nat, i: Index,
                      free: set<nat>, free1: set<nat>, free2: set<nat>, child: nat, e: Entry)
    requires 0 < level && Copying(S, old_, M1, copy, level, i, free, free1)
    requires IsTable(Slot(S, old_, i), level)
    requires Copying(S, Slot(S, old_, i).frame, M2, child, level - 1, ENTRIES, free1, free2)
    requires forall x | x in M1 && x !in free1 :: Same(M1, M2, x)
    requires IsTable(e, level) && e.frame == child && e.writeable && 0 < child < TABLE_FRAME_LIMIT
    requires e.user == Slot(S, old_, i).user
    ensures copy in M2 && Copying(S, old_, WriteSlot(M2, copy, i, e), copy, level, i + 1, free, free2)
  {
    hide Tables, Tree, Lookup, LeafFrame, Missing, TraceOf, CopiedTrace;
    SelfInTables(M1, copy, level, i);
    TablesPresent(M1, copy, level, i);
    TablesPresent(M2, child, level - 1, ENTRIES);
    var M3 := WriteSlot(M2, copy, i, e);
    TreeFrame(M1, M3, copy, level, i);
    assert copy !in Tables(M2, child, level - 1, ENTRIES);
    SelfInTables(M2, child, level - 1, ENTRIES);
    TreeFrame(M2, M3, child, level - 1, ENTRIES);
    assert Slot(M3, copy, i) == e;
    LinkedSlot(M3, copy, level, i);
    ExtendTree(M3, copy, level, i);
    LookupThrough(S, old_, level, i);
    MissingBelow(S, old_, level, i);
    MissingBelow(M3, copy, level, i);
    forall v: VPage | IndexAt(v, level) == i
      ensures TraceOf(M3, copy, level, v) == CopiedTrace(TraceOf(S, old_, level, v), Missing(S, old_, level, v))
    {
      assert IndexAt(v, level - 1) < ENTRIES;
      TableTraceCopied(TraceOf(S, Slot(S, old_, i).frame, level - 1, v), e.user, Missing(S, old_, level, v));
    }
  }

  lemma LinkedSlot(M: Memory, a: nat, level: nat, i: Index)
    requires var e := Slot(M, a, i);
      0 < level && IsTable(e, level) && e.writeable && 0 < e.frame < TABLE_FRAME_LIMIT
      && Tree(M, e.frame, level - 1, ENTRIES)
    ensures GoodSlot(M, a, level, i)
    ensures Below(M, a, level, i) == Tables(M, Slot(M, a, i).frame, level - 1, ENTRIES)
    ensures forall v: VPage | IndexAt(v, level) == i ::
      Lookup(M, a, level, v) == Lookup(M, Slot(M, a, i).frame, level - 1, v)
  {
  }

  lemma LookupThrough(M: Memory, a: nat, level: nat, i: Index)
    requires 0 < level && IsTable(Slot(M, a, i), level)
    ensures forall v: VPage | IndexAt(v, level) == i ::
      CopiedMapping(M, a, level, v) == CopiedMapping(M, Slot(M, a, i).frame, level - 1, v)
  {
  }

  lemma ExtendTree(M: Memory, a: nat, level: nat, i: Index)
    requires Tree(M, a, level, i) && GoodSlot(M, a, level, i) && Below(M, a, level, i) !! Tables(M, a, level, i)
    ensures Tree(M, a, level, i + 1)
    ensures Tables(M, a, level, i + 1) == Tables(M, a, level, i) + Below(M, a, level, i)
  {
  }

  /** Absent entries add nothing to a tree. */
  lemma {:induction false} ExtendEmpty(M: Memory, a: nat, level: nat, i: nat, n: nat)
    requires i <= n <= ENTRIES && Tree(M, a, level, i)
    requires forall j: Index | i <= j < n :: !Slot(M, a, j).present
    ensures Tree(M, a, level, n) && Tables(M, a, level, n) == Tables(M, a, level, i)
    decreases n - i
  {
    if i < n {
      ExtendTree(M, a, level, i);
      ExtendEmpty(M, a, level, i + 1, n);
    }
  }

  /** The tables below an entry are counted with their table. */
  lemma CountBelow(M: Memory, a: nat, level: nat, n: nat, i: Index)
    requires i < n <= ENTRIES && Tree(M, a, level, n)
    ensures |Tables(M, a, level, i + 1)| == |Tables(M, a, level, i)| + |Below(M, a, level, i)|
    ensures Tables(M, a, level, i) <= Tables(M, a, level, n)
    ensures Tree(M, a, level, i + 1)
  {
    TreePrefix(M, a, level, n, i + 1);
    TreePrefix(M, a, level, n, i);
  }

  lemma {:induction false} TreePrefix(M: Memory, a: nat, level: nat, n: nat, i: nat)
    requires i <= n <= ENTRIES && Tree(M, a, level, n)
    ensures Tree(M, a, level, i) && Tables(M, a, level, i) <= Tables(M, a, level, n)
    decreases n
  {
    if i < n {
      TreePrefix(M, a, level, n - 1, i);
    }
  }

  /** The entries from i on are zero. */
  ghost predicate EmptyFrom(M: Memory, a: nat, i: nat) {
    forall j: Index | i <= j :: Slot(M, a, j) == ZERO
  }

  lemma EmptyTableEmpty(M: Memory, a: nat)
    ensures Same(M, M, a) && M[a] == EMPTY_TABLE ==> EmptyFrom(M, a, 0)
  {
  }

  lemma EmptyAfterWrite(M: Memory, M': Memory, a: nat, i: Index, e: Entry)
    requires Same(M, M', a) && EmptyFrom(M, a, i)
    ensures EmptyFrom(WriteSlot(M', a, i, e), a, i + 1)
    ensures e == ZERO ==> WriteSlot(M', a, i, e) == M'
  {
    assert Slot(M, a, i) == ZERO;
    forall j: Index | i + 1 <= j
      ensures Slot(WriteSlot(M', a, i, e), a, j) == ZERO
    {
      assert Slot(WriteSlot(M', a, i, e), a, j) == Slot(M, a, j);
    }
    assert e == ZERO ==> M'[a][i := e] == M'[a];
  }

  /** The tables below the first i entries of table a are gone from memory. */
  ghost predicate Freed(M0: Memory, M: Memory, a: nat, level: nat, n: nat, i: nat, done: set<nat>)
    requires i <= n <= ENTRIES
  {
    && a !in done && done + {a} == Tables(M0, a, level, i) && done <= Tables(M0, a, level, n)
    && M == M0 - done
  }

  lemma {:induction false} NoTablesBelow(M: Memory, a: nat, level: nat, n: nat)
    requires n <= ENTRIES
    ensures Tables(M, a, level, 0) == {a}
    ensures level == 0 ==> Tables(M, a, level, n) == {a}
  {
    if n > 0 {
      NoTablesBelow(M, a, level, n - 1);
    }
  }

  lemma FreedNone(M0: Memory, a: nat, level: nat, n: nat)
    requires n <= ENTRIES && Tree(M0, a, level, n)
    ensures Freed(M0, M0, a, level, n, 0, {})
    ensures level == 0 ==> Freed(M0, M0, a, level, n, n, {})
  {
    NoTablesBelow(M0, a, level, n);
    assert M0 - {} == M0;
  }

  lemma FreedAll(M0: Memory, M: Memory, a: nat, level: nat, n: nat, done: set<nat>)
    requires n <= ENTRIES && Freed(M0, M, a, level, n, n, done)
    ensures a !in done && done + {a} == Tables(M0, a, level, n) && |Tables(M0, a, level, n)| == |done| + 1
    ensures M - {a} == M0 - Tables(M0, a, level, n)
  {
    assert |done + {a}| == |done| + 1;
  }

  /** The next entry still leads to an untouched tree. */
  lemma FreedNext(M0: Memory, M: Memory, a: nat, level: nat, n: nat, i: Index, done: set<nat>)
    requires 0 < level && i < n <= ENTRIES && Tree(M0, a, level, n) && Freed(M0, M, a, level, n, i, done)
    ensures a in M && GoodSlot(M, a, level, i) && Below(M, a, level, i) == Below(M0, a, level, i)
    ensures Below(M0, a, level, i) !! done && Below(M0, a, level, i) <= Tables(M0, a, level, n)
    ensures a !in Below(M0, a, level, i)
  {
    SlotOfTree(M0, a, level, n, i);
    TablesPresent(M0, a, level, n);
    SelfInTables(M0, a, level, n);
    TreePrefix(M0, a, level, n, i + 1);
    TablesUnfold(M0, a, level, i);
    hide Tables, Tree;
    assert M[a] == M0[a];
    assert forall x | x in Below(M0, a, level, i) :: Same(M0, M, x);
    SlotFrame(M0, M, a, level, i);
  }

  /** Freeing what the next entry leads to is one more step. */
  lemma FreedStep(M0: Memory, M: Memory, a: nat, level: nat, n: nat, i: Index, done: set<nat>)
    requires i < n <= ENTRIES && Freed(M0, M, a, level, n, i, done)
    requires Below(M0, a, level, i) !! done && Below(M0, a, level, i) <= Tables(M0, a, level, n)
    requires a !in Below(M0, a, level, i)
    ensures Freed(M0, M - Below(M0, a, level, i), a, level, n, i + 1, done + Below(M0, a, level, i))
    ensures |done + Below(M0, a, level, i)| == |done| + |Below(M0, a, level, i)|
  {
    TablesUnfold(M0, a, level, i);
    hide Tables, Tree, Below;
    var below := Below(M0, a, level, i);
    assert M0 - done - below == M0 - (done + below);
    assert done + below + {a} == done + {a} + below;
  }

  lemma TreeBelow(M: Memory, a: nat, level: nat, i: Index)
    requires 0 < level && GoodSlot(M, a, level, i)
    ensures var e := Slot(M, a, i);
      if IsTable(e, level)
      then
        && e.frame > 0 && Tree(M, e.frame, level - 1, ENTRIES)
        && Below(M, a, level, i) == Tables(M, e.frame, level - 1, ENTRIES)
      else Below(M, a, level, i) == {} && M - Below(M, a, level, i) == M
  {
  }

  lemma TablesUnfold(M: Memory, a: nat, level: nat, i: Index)
    ensures Tables(M, a, level, i + 1) == Tables(M, a, level, i) + Below(M, a, level, i)
    ensures !IsTable(Slot(M, a, i), level) ==> Below(M, a, level, i) == {}
    ensures Tree(M, a, level, i + 1) ==> Below(M, a, level, i) !! Tables(M, a, level, i)
  {
  }

  const USER_ENTRIES := 256

  /** What a copy that stops early has linked so far is still a tree of new pages. */
  lemma StoppedCopy(S: Memory, old_: nat, M1: Memory, M2: Memory, copy: nat, i: Index,
                    free: set<nat>, free1: set<nat>)
    requires i < USER_ENTRIES && Copying(S, old_, M1, copy, 3, i, free, free1) && EmptyFrom(M1, copy, i)
    requires forall x | x in M1 && x !in free1 :: Same(M1, M2, x)
    ensures Tree(M2, copy, 3, USER_ENTRIES) && Tables(M2, copy, 3, USER_ENTRIES) == free - free1
  {
    hide Tables, Tree, Lookup;
    SelfInTables(M1, copy, 3, i);
    TablesPresent(M1, copy, 3, i);
    assert Same(M1, M2, copy);
    TreeFrame(M1, M2, copy, 3, i);
    forall j: Index | i <= j < USER_ENTRIES
      ensures !Slot(M2, copy, j).present
    {
      assert Slot(M1, copy, j) == ZERO;
    }
    ExtendEmpty(M2, copy, 3, i, USER_ENTRIES);
  }

  /** The upper half of the copied root holds the source's present entries as they are. */
  ghost predicate UpperCopied(S: Memory, old_: nat, M: Memory, copy: nat, n: nat) {
    forall j: Index | USER_ENTRIES <= j < n ::
      Slot(M, copy, j) == if Slot(S, old_, j).present then Slot(S, old_, j) else ZERO
  }

  lemma CopyUpperStep(S: Memory, old_: nat, M: Memory, copy: nat, i: Index, free: set<nat>, free': set<nat>, e: Entry)
    requires USER_ENTRIES <= i && Copying(S, old_, M, copy, 3, USER_ENTRIES, free, free')
    requires UpperCopied(S, old_, M, copy, i) && EmptyFrom(M, copy, i)
    requires e == if Slot(S, old_, i).present then Slot(S, old_, i) else ZERO
    ensures copy in M && Copying(S, old_, WriteSlot(M, copy, i, e), copy, 3, USER_ENTRIES, free, free')
    ensures UpperCopied(S, old_, WriteSlot(M, copy, i, e), copy, i + 1)
    ensures EmptyFrom(WriteSlot(M, copy, i, e), copy, i + 1)
    ensures e == ZERO ==> WriteSlot(M, copy, i, e) == M
  {
    hide Tables, Tree, Lookup;
    SelfInTables(M, copy, 3, USER_ENTRIES);
    TablesPresent(M, copy, 3, USER_ENTRIES);
    var M' := WriteSlot(M, copy, i, e);
    EmptyAfterWrite(M, M, copy, i, e);
    forall j: Index | j != i
      ensures Slot(M', copy, j) == Slot(M, copy, j)
    {
    }
    assert Slot(M', copy, i) == e;
    TreeFrame(M, M', copy, 3, USER_ENTRIES);
  }
}
