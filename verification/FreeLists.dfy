/**
 The free lists of the buddy allocator as values: list k holds the start pages of
 the free blocks of 2^k pages, first in list first. Pages are numbered from the
 start of the managed range.
 */
module FreeLists {
  import opened Common
  import opened Powers

  const MAX_BUDDY_ORDERS := 52

  type Lists = L: seq<seq<nat>> | |L| == MAX_BUDDY_ORDERS witness seq(MAX_BUDDY_ORDERS, _ => [])

  predicate InRun(k: nat, i: nat, p: nat) {
    i <= p < i + Pow2(k)
  }

  function Run(k: nat, i: nat): (r: set<nat>)
    ensures i in r
  {
    assert InRun(k, i, i);
    set p: nat | i <= p < i + Pow2(k) && InRun(k, i, p)
  }

  /** The 2^k pages from i form an aligned block and are all free. */
  ghost predicate FreeRun(free: set<nat>, k: nat, i: nat) {
    Aligned(k, i) && Run(k, i) <= free
  }

  /** The other half of the double block that block i of order k belongs to. */
  function Sibling(k: nat, i: nat): (s: nat)
    requires Aligned(k, i)
    ensures s != i && Aligned(k, s)
    ensures s == Xor(i, Pow2(k))
  {
    AlignedUp(k, i);
    AlignedPlus(k, i);
    XorIsSibling(k, i);
    if Aligned(k + 1, i) then i + Pow2(k) else i - Pow2(k)
  }

  /** A free run that cannot be merged any further. */
  ghost predicate Maximal(free: set<nat>, top: nat, k: nat, i: nat) {
    k <= top && FreeRun(free, k, i) && (k < top ==> !FreeRun(free, k, Sibling(k, i)))
  }

  /** The lists are exactly the maximal free runs: a function of the set of free pages. */
  ghost predicate Canonical(L: Lists, free: set<nat>, top: nat) {
    && (forall k | 0 <= k < MAX_BUDDY_ORDERS :: NoDuplicates(L[k]))
    && (forall k, i: nat | 0 <= k < MAX_BUDDY_ORDERS :: i in L[k] <==> Maximal(free, top, k, i))
  }

  // ---- blocks ----

  /** Two aligned blocks that share a page are nested. */
  lemma Nested(k: nat, i: nat, k': nat, i': nat, p: nat)
    requires k <= k' && Aligned(k, i) && Aligned(k', i')
    requires InRun(k, i, p) && InRun(k', i', p)
    ensures i' <= i && i + Pow2(k) <= i' + Pow2(k')
  {
    AlignedDown(k, k', i');
    AlignedPlus(k', i');
    AlignedDown(k, k', i' + Pow2(k'));
    if i < i' {
      AlignedGap(k, i, i');
    }
    AlignedGap(k, i, i' + Pow2(k'));
  }

  /** A larger block that meets a block contains its sibling too. */
  lemma NestedSibling(k: nat, i: nat, k': nat, i': nat, p: nat)
    requires k < k' && Aligned(k, i) && Aligned(k', i')
    requires InRun(k, i, p) && InRun(k', i', p)
    ensures Run(k, i) <= Run(k', i')
    ensures Run(k, Sibling(k, i)) <= Run(k', i')
  {
    Nested(k, i, k', i', p);
    var parent := if Aligned(k + 1, i) then i else Sibling(k, i);
    AlignedUp(k, i);
    Nested(k + 1, parent, k', i', p);
  }

  lemma SiblingsDisjoint(k: nat, i: nat)
    requires Aligned(k, i)
    ensures Run(k, i) !! Run(k, Sibling(k, i))
    ensures Sibling(k, Sibling(k, i)) == i
  {
    AlignedUp(k, i);
    var s := Sibling(k, i);
    if s < i { AlignedGap(k, s, i); } else { AlignedGap(k, i, s); }
    AlignedUp(k, s);
  }

  /** Maximal runs never overlap. */
  lemma MaximalDisjoint(free: set<nat>, top: nat, k: nat, i: nat, k': nat, i': nat, p: nat)
    requires Maximal(free, top, k, i) && Maximal(free, top, k', i')
    requires InRun(k, i, p) && InRun(k', i', p)
    ensures k == k' && i == i'
  {
    if k < k' {
      NestedSibling(k, i, k', i', p);
      assert FreeRun(free, k, Sibling(k, i));
    } else if k' < k {
      NestedSibling(k', i', k, i, p);
      assert FreeRun(free, k', Sibling(k', i'));
    } else {
      Nested(k, i, k', i', p);
      Nested(k', i', k, i, p);
    }
  }

  /** Nothing free of a larger order, up to the top one, contains a maximal run; and conversely. */
  lemma MaximalIsLargest(free: set<nat>, top: nat, k: nat, i: nat)
    ensures Maximal(free, top, k, i) <==>
      k <= top && FreeRun(free, k, i)
      && forall k': nat, i': nat | k < k' <= top && FreeRun(free, k', i') :: i !in Run(k', i')
  {
    if Maximal(free, top, k, i) {
      forall k': nat, i': nat | k < k' <= top && FreeRun(free, k', i')
        ensures i !in Run(k', i')
      {
        if i in Run(k', i') {
          NestedSibling(k, i, k', i', i);
        }
      }
    } else if k < top && FreeRun(free, k, i) {
      var s := Sibling(k, i);
      var parent := if s < i then s else i;
      AlignedUp(k, i);
      assert FreeRun(free, k + 1, parent) && i in Run(k + 1, parent);
    }
  }

  /** Every free aligned run lies inside a maximal one. */
  lemma {:induction false} GrowToMaximal(free: set<nat>, top: nat, k: nat, i: nat)
    returns (k': nat, i': nat)
    requires k <= top && FreeRun(free, k, i)
    ensures k <= k' && Maximal(free, top, k', i') && Run(k, i) <= Run(k', i')
    decreases top - k
  {
    k', i' := k, i;
    if !Maximal(free, top, k, i) {
      var s := Sibling(k, i);
      var parent := if s < i then s else i;
      AlignedUp(k, i);
      assert FreeRun(free, k + 1, parent);
      k', i' := GrowToMaximal(free, top, k + 1, parent);
    }
  }

  // ---- taking one block out, putting one block in ----

  /** Taking a maximal run out of the free set removes that block and creates no other. */
  lemma MaximalWithout(free: set<nat>, top: nat, k: nat, i: nat, k': nat, i': nat)
    requires Maximal(free, top, k, i)
    ensures Maximal(free - Run(k, i), top, k', i') <==>
      Maximal(free, top, k', i') && !(k == k' && i == i')
  {
    var rest := free - Run(k, i);
    if Maximal(free, top, k', i') && !(k == k' && i == i') {
      forall p | p in Run(k', i')
        ensures p in rest
      {
        if p in Run(k, i) { MaximalDisjoint(free, top, k, i, k', i', p); }
      }
    }
    if Maximal(rest, top, k', i') {
      assert FreeRun(free, k', i');
      assert i' in rest && i in Run(k, i);
      if k' < top && FreeRun(free, k', Sibling(k', i')) {
        var s := Sibling(k', i');
        var p :| p in Run(k', s) && p !in rest;
        if k <= k' {
          Nested(k, i, k', s, p);
          SiblingsDisjoint(k', i');
          if k < k' {
            NestedSibling(k, i, k', s, p);
          } else {
            Nested(k', s, k, i, p);
          }
        } else {
          NestedSibling(k', s, k, i, p);
          SiblingsDisjoint(k', i');
        }
      }
    }
  }

  function Unlist(L: Lists, k: nat, i: nat): Lists
    requires k < MAX_BUDDY_ORDERS
  {
    L[k := Without(L[k], i)]
  }

  function Push(L: Lists, k: nat, i: nat): Lists
    requires k < MAX_BUDDY_ORDERS
  {
    L[k := [i] + L[k]]
  }

  lemma UnlistCanonical(L: Lists, free: set<nat>, top: nat, k: nat, i: nat)
    requires k < MAX_BUDDY_ORDERS && Canonical(L, free, top) && i in L[k]
    ensures Canonical(Unlist(L, k, i), free - Run(k, i), top)
    ensures Run(k, i) <= free
  {
    assert Maximal(free, top, k, i);
    var L', rest := Unlist(L, k, i), free - Run(k, i);
    WithoutElements(L[k], i);
    forall k', i': nat | 0 <= k' < MAX_BUDDY_ORDERS
      ensures i' in L'[k'] <==> Maximal(rest, top, k', i')
    {
      MaximalWithout(free, top, k, i, k', i');
    }
  }

  /** A block whose sibling is not free can be listed as it is. */
  lemma PushCanonical(L: Lists, free: set<nat>, top: nat, k: nat, i: nat)
    requires k <= top < MAX_BUDDY_ORDERS && Canonical(L, free, top)
    requires Aligned(k, i) && Run(k, i) !! free
    requires k < top ==> !FreeRun(free, k, Sibling(k, i))
    ensures Canonical(Push(L, k, i), free + Run(k, i), top)
  {
    var L', more := Push(L, k, i), free + Run(k, i);
    SiblingsDisjoint(k, i);
    assert Maximal(more, top, k, i) by {
      if k < top {
        var s := Sibling(k, i);
        var p :| p in Run(k, s) && p !in free;
        assert p in Run(k, s);
      }
    }
    assert more - Run(k, i) == free;
    forall k', i': nat | 0 <= k' < MAX_BUDDY_ORDERS
      ensures i' in L'[k'] <==> Maximal(more, top, k', i')
    {
      MaximalWithout(more, top, k, i, k', i');
    }
    assert i !in L[k];
  }

  // ---- counting pages ----

  function SumOrders(L: Lists, n: nat): nat
    requires n <= MAX_BUDDY_ORDERS
  {
    if n == 0 then 0 else SumOrders(L, n - 1) + |L[n - 1]| * Pow2(n - 1)
  }

  /** The pages on all lists together. */
  function ListedPages(L: Lists): nat {
    SumOrders(L, MAX_BUDDY_ORDERS)
  }

  lemma {:induction false} SumOrdersUpdate(L: Lists, k: nat, s: seq<nat>, n: nat)
    requires k < MAX_BUDDY_ORDERS && n <= MAX_BUDDY_ORDERS
    ensures SumOrders(L[k := s], n) ==
            if k < n then SumOrders(L, n) + |s| * Pow2(k) - |L[k]| * Pow2(k) else SumOrders(L, n)
  {
    if n > 0 {
      SumOrdersUpdate(L, k, s, n - 1);
    }
  }

  lemma {:induction false} IntervalSize(i: nat, n: nat, s: set<nat>)
    requires forall p: nat :: p in s <==> i <= p < i + n
    ensures |s| == n
    decreases n
  {
    if n == 0 {
      assert s == {};
    } else {
      var last := i + n - 1;
      IntervalSize(i, n - 1, s - {last});
    }
  }

  lemma RunSize(k: nat, i: nat)
    ensures |Run(k, i)| == Pow2(k)
  {
    forall p: nat
      ensures p in Run(k, i) <==> i <= p < i + Pow2(k)
    {
      assert i <= p < i + Pow2(k) ==> InRun(k, i, p);
    }
    IntervalSize(i, Pow2(k), Run(k, i));
  }

  /** The summed size of canonical lists is the number of free pages. */
  lemma {:induction false} ListedPagesIsFreeCount(L: Lists, free: set<nat>, top: nat)
    requires top < MAX_BUDDY_ORDERS && Canonical(L, free, top)
    ensures ListedPages(L) == |free|
    decreases |free|
  {
    if free == {} {
      forall k | 0 <= k < MAX_BUDDY_ORDERS
        ensures L[k] == []
      {
        EmptyOrHasFirst(L[k]);
      }
      EmptyListsSum(L, MAX_BUDDY_ORDERS);
    } else {
      var p :| p in free;
      assert FreeRun(free, 0, p) by {
        forall q | q in Run(0, p) ensures q in free { assert InRun(0, p, q); }
      }
      var k, i := GrowToMaximal(free, top, 0, p);
      assert i in L[k];
      UnlistCanonical(L, free, top, k, i);
      RunSize(k, i);
      ListedPagesIsFreeCount(Unlist(L, k, i), free - Run(k, i), top);
      WithoutElements(L[k], i);
      SumOrdersUpdate(L, k, Without(L[k], i), MAX_BUDDY_ORDERS);
      assert (|L[k]| - 1) * Pow2(k) == |L[k]| * Pow2(k) - Pow2(k);
    }
  }

  lemma EmptyOrHasFirst(s: seq<nat>)
    ensures s == [] || s[0] in s
  {
  }

  lemma {:induction false} EmptyListsSum(L: Lists, n: nat)
    requires n <= MAX_BUDDY_ORDERS && forall k | 0 <= k < n :: L[k] == []
    ensures SumOrders(L, n) == 0
  {
    if n > 0 {
      EmptyListsSum(L, n - 1);
    }
  }

  // ---- allocation ----

  /** The smallest order from k to top with a free block, or top + 1. */
  function FirstNonEmpty(L: Lists, k: nat, top: nat): (c: nat)
    requires top < MAX_BUDDY_ORDERS && k <= top + 1
    ensures k <= c <= top + 1
    ensures forall j | k <= j < c :: L[j] == []
    ensures c <= top ==> L[c] != []
    decreases top + 1 - k
  {
    if k == top + 1 || L[k] != [] then k else FirstNonEmpty(L, k + 1, top)
  }

  /** Halve the block at i from order c down to order r, listing each upper half. */
  function Split(L: Lists, c: nat, r: nat, i: nat): Lists
    requires c <= MAX_BUDDY_ORDERS
    decreases c
  {
    if c <= r then L else Split(Push(L, c - 1, i + Pow2(c - 1)), c - 1, r, i)
  }

  datatype Allocation = Allocation(start: nat, lists: Lists)

  function Allocate(L: Lists, r: nat, top: nat): Option<Allocation>
    requires r <= top < MAX_BUDDY_ORDERS
  {
    var c := FirstNonEmpty(L, r, top);
    if c > top then None
    else Some(Allocation(L[c][0], Split(L[c := L[c][1..]], c, r, L[c][0])))
  }

  /** Block i of order k is off the lists, which are canonical for the other free pages. */
  ghost predicate Detached(L: Lists, free: set<nat>, top: nat, k: nat, i: nat) {
    k <= top < MAX_BUDDY_ORDERS && Canonical(L, free, top) && Aligned(k, i) && Run(k, i) !! free
  }

  /** Listing the upper half of a detached block leaves the lower half detached. */
  lemma HalveStep(L: Lists, free: set<nat>, top: nat, c: nat, i: nat)
    requires 0 < c && Detached(L, free, top, c, i)
    ensures var b := i + Pow2(c - 1);
      && b !in free && Detached(Push(L, c - 1, b), free + Run(c - 1, b), top, c - 1, i)
      && Run(c - 1, i) + Run(c - 1, b) == Run(c, i) && Run(c - 1, i) !! Run(c - 1, b)
  {
    hide Canonical, Aligned;
    var k := c - 1;
    AlignedDown(k, c, i);
    AlignedUp(k, i);
    SiblingsDisjoint(k, i);
    HalvesMakeRun(k, i);
    assert !FreeRun(free, k, i) by { assert i in Run(k, i); }
    PushCanonical(L, free, top, k, i + Pow2(k));
  }

  /** Splitting a block taken off the lists gives back everything but its lowest 2^r pages. */
  lemma {:induction false} SplitCanonical(L: Lists, free: set<nat>, top: nat, c: nat, r: nat, i: nat)
    requires r <= c <= top < MAX_BUDDY_ORDERS && Canonical(L, free, top)
    requires Aligned(c, i) && Run(c, i) !! free
    ensures Canonical(Split(L, c, r, i), free + (Run(c, i) - Run(r, i)), top)
    ensures Aligned(r, i) && Run(r, i) <= Run(c, i)
    decreases c
  {
    hide Canonical, Aligned, Run, Push;
    if c == r {
      assert free + (Run(c, i) - Run(r, i)) == free;
    } else {
      var k := c - 1;
      var b := i + Pow2(k);
      HalveStep(L, free, top, c, i);
      SplitCanonical(Push(L, k, b), free + Run(k, b), top, k, r, i);
      RestOfHalves(free, Run(k, i), Run(k, b), Run(r, i));
    }
  }

  lemma RestOfHalves(free: set<nat>, lower: set<nat>, upper: set<nat>, part: set<nat>)
    requires part <= lower && lower !! upper
    ensures free + upper + (lower - part) == free + (lower + upper - part)
  {
  }

  lemma HalvesMakeRun(k: nat, i: nat)
    ensures Run(k + 1, i) == Run(k, i) + Run(k, i + Pow2(k))
    ensures Run(k, i) !! Run(k, i + Pow2(k))
  {
    forall p: nat
      ensures InRun(k + 1, i, p) <==> InRun(k, i, p) || InRun(k, i + Pow2(k), p)
    {
    }
  }

  /** An allocation takes exactly one aligned free run out of the free set. */
  lemma AllocateCanonical(L: Lists, free: set<nat>, top: nat, r: nat)
    requires r <= top < MAX_BUDDY_ORDERS && Canonical(L, free, top)
    requires Allocate(L, r, top).Some?
    ensures var a := Allocate(L, r, top).value;
      FreeRun(free, r, a.start) && Canonical(a.lists, free - Run(r, a.start), top)
  {
    var c := FirstNonEmpty(L, r, top);
    var i := L[c][0];
    assert i in L[c];
    assert Maximal(free, top, c, i);
    UnlistCanonical(L, free, top, c, i);
    SplitCanonical(Unlist(L, c, i), free - Run(c, i), top, c, r, i);
    assert free - Run(c, i) + (Run(c, i) - Run(r, i)) == free - Run(r, i);
  }

  /** An allocation fails only when no aligned run of the requested size is free. */
  lemma AllocateComplete(L: Lists, free: set<nat>, top: nat, r: nat)
    requires r <= top < MAX_BUDDY_ORDERS && Canonical(L, free, top)
    ensures Allocate(L, r, top).None? <==> forall i: nat :: !FreeRun(free, r, i)
  {
    if i: nat :| FreeRun(free, r, i) {
      var k, j := GrowToMaximal(free, top, r, i);
      assert j in L[k];
    }
    if Allocate(L, r, top).Some? {
      AllocateCanonical(L, free, top, r);
    }
  }

  // ---- freeing ----

  datatype Merged = Merged(order: nat, start: nat, lists: Lists)

  /** Merge block i of order k with its sibling for as long as the sibling is listed. */
  function Coalesce(L: Lists, k: nat, i: nat, top: nat, total: nat): Merged
    requires k <= top < MAX_BUDDY_ORDERS
    decreases top - k
  {
    var b := Xor(i, Pow2(k));
    if k < top && b + Pow2(k) <= total && b in L[k] then
      Coalesce(Unlist(L, k, b), k + 1, if b < i then b else i, top, total)
    else
      Merged(k, i, L)
  }

  function Free(L: Lists, k: nat, i: nat, top: nat, total: nat): Lists
    requires k <= top < MAX_BUDDY_ORDERS
  {
    var m := Coalesce(L, k, i, top, total);
    if m.order < MAX_BUDDY_ORDERS then Push(m.lists, m.order, m.start) else L
  }

  /** Merging a block that is off the lists with its listed sibling. */
  lemma MergeStep(L: Lists, free: set<nat>, top: nat, k: nat, i: nat)
    requires k < top && Detached(L, free, top, k, i) && Sibling(k, i) in L[k]
    ensures var b := Sibling(k, i); var parent := if b < i then b else i;
      && Detached(Unlist(L, k, b), free - Run(k, b), top, k + 1, parent)
      && Run(k, b) <= free && Run(k + 1, parent) == Run(k, i) + Run(k, b)
  {
    var b := Sibling(k, i);
    UnlistCanonical(L, free, top, k, b);
    AlignedUp(k, i);
    HalvesMakeRun(k, if b < i then b else i);
  }

  lemma {:induction false} CoalesceCanonical(L: Lists, free: set<nat>, top: nat, total: nat, k: nat, i: nat)
    requires k <= top < MAX_BUDDY_ORDERS && Canonical(L, free, top)
    requires Aligned(k, i) && Run(k, i) !! free
    requires forall p | p in free :: p < total
    ensures var m := Coalesce(L, k, i, top, total);
      && k <= m.order <= top && Aligned(m.order, m.start)
      && Run(k, i) <= Run(m.order, m.start) <= free + Run(k, i)
      && Canonical(m.lists, free - Run(m.order, m.start), top)
      && (m.order < top ==> !FreeRun(free - Run(m.order, m.start), m.order, Sibling(m.order, m.start)))
    decreases top - k
  {
    var b := Sibling(k, i);
    var rest := free - Run(k, b);
    SiblingsDisjoint(k, i);
    if k < top && b + Pow2(k) <= total && b in L[k] {
      MergeStep(L, free, top, k, i);
      var parent := if b < i then b else i;
      CoalesceCanonical(Unlist(L, k, b), rest, top, total, k + 1, parent);
      var m := Coalesce(Unlist(L, k, b), k + 1, parent, top, total);
      assert rest - Run(m.order, m.start) == free - Run(m.order, m.start);
    } else {
      assert free - Run(k, i) == free;
      assert InRun(k, b, b + Pow2(k) - 1);
      assert b + Pow2(k) - 1 in Run(k, b);
      assert i in Run(k, i);
      assert k < top && FreeRun(free, k, b) ==> Maximal(free, top, k, b);
    }
  }

  /** Freeing a block that is not free adds its pages to the free set and nothing else. */
  lemma FreeCanonical(L: Lists, free: set<nat>, top: nat, total: nat, k: nat, i: nat)
    requires k <= top < MAX_BUDDY_ORDERS && Canonical(L, free, top)
    requires Aligned(k, i) && Run(k, i) !! free
    requires forall p | p in free :: p < total
    ensures Canonical(Free(L, k, i, top, total), free + Run(k, i), top)
  {
    CoalesceCanonical(L, free, top, total, k, i);
    var m := Coalesce(L, k, i, top, total);
    var rest := free - Run(m.order, m.start);
    PushCanonical(m.lists, rest, top, m.order, m.start);
    assert rest + Run(m.order, m.start) == free + Run(k, i);
  }

  lemma {:induction false} CoalesceUndoesSplit(L: Lists, c: nat, r: nat, i: nat, top: nat, total: nat)
    requires r <= c <= top < MAX_BUDDY_ORDERS && Aligned(c, i) && i + Pow2(c) <= total
    requires forall j | r <= j < c :: L[j] == []
    ensures Coalesce(Split(L, c, r, i), r, i, top, total) == Coalesce(L, c, i, top, total)
    decreases c
  {
    if r < c {
      var k := c - 1;
      var b := i + Pow2(k);
      var L' := Push(L, k, b);
      AlignedDown(k, c, i);
      assert Sibling(k, i) == b;
      CoalesceUndoesSplit(L', k, r, i, top, total);
      assert L'[k] == [b];
      assert Unlist(L', k, b) == L;
    }
  }

  /** Freeing a block straight after allocating it restores every list, order included. */
  lemma FreeUndoesAllocate(L: Lists, free: set<nat>, top: nat, total: nat, r: nat)
    requires r <= top < MAX_BUDDY_ORDERS && Canonical(L, free, top)
    requires forall p | p in free :: p < total
    requires Allocate(L, r, top).Some?
    ensures var a := Allocate(L, r, top).value; Free(a.lists, r, a.start, top, total) == L
  {
    var c := FirstNonEmpty(L, r, top);
    var i := L[c][0];
    var rest := L[c := L[c][1..]];
    assert i in L[c];
    assert Maximal(free, top, c, i);
    assert InRun(c, i, i + Pow2(c) - 1);
    assert i + Pow2(c) - 1 in Run(c, i);
    CoalesceUndoesSplit(rest, c, r, i, top, total);
    if c < top {
      assert Sibling(c, i) !in L[c];
    }
    assert Coalesce(rest, c, i, top, total) == Merged(c, i, rest);
    assert [i] + L[c][1..] == L[c];
    assert Push(rest, c, i) == L;
  }

  // ---- sizes ----

  lemma {:induction false} BoundedSize(s: set<nat>, n: nat)
    requires forall p | p in s :: p < n
    ensures |s| <= n
  {
    if n == 0 {
      assert s == {};
    } else {
      BoundedSize(s - {n - 1}, n - 1);
    }
  }

  lemma {:induction false} SubsetSize(s: set<nat>, t: set<nat>)
    requires s <= t
    ensures |s| <= |t|
  {
    assert t == s + (t - s);
  }

  lemma FreeRunSize(free: set<nat>, k: nat, i: nat)
    requires FreeRun(free, k, i)
    ensures Pow2(k) <= |free|
    ensures |free - Run(k, i)| == |free| - Pow2(k)
  {
    RunSize(k, i);
    SubsetSize(Run(k, i), free);
  }

  // ---- consequences of canonicity ----

  /** The lists depend on the free set alone: the same pages free means the same blocks listed. */
  lemma CanonicalDetermined(L: Lists, L': Lists, free: set<nat>, top: nat, k: nat)
    requires Canonical(L, free, top) && Canonical(L', free, top) && k < MAX_BUDDY_ORDERS
    ensures multiset(L[k]) == multiset(L'[k])
  {
    forall i: nat
      ensures multiset(L[k])[i] == multiset(L'[k])[i]
    {
      CountWithoutDuplicates(L[k], i);
      CountWithoutDuplicates(L'[k], i);
      assert i in L[k] <==> Maximal(free, top, k, i);
      assert i in L'[k] <==> Maximal(free, top, k, i);
    }
  }

  lemma {:induction false} CountWithoutDuplicates(s: seq<nat>, x: nat)
    requires NoDuplicates(s)
    ensures multiset(s)[x] == if x in s then 1 else 0
  {
    if s != [] {
      var t := s[1..];
      assert forall a | 0 <= a < |t| :: t[a] == s[a + 1];
      CountWithoutDuplicates(t, x);
      assert s == [s[0]] + t;
    }
  }

  /** No two siblings of one order are both listed. */
  lemma SiblingsNotBothListed(L: Lists, free: set<nat>, top: nat, k: nat, i: nat)
    requires Canonical(L, free, top) && k < top < MAX_BUDDY_ORDERS && i in L[k]
    ensures Aligned(k, i) && Sibling(k, i) !in L[k]
  {
    assert Maximal(free, top, k, i);
    assert Sibling(k, i) in L[k] ==> Maximal(free, top, k, Sibling(k, i));
  }

  /** Listed blocks are pairwise disjoint and together cover exactly the free pages. */
  lemma ListedBlocksPartition(L: Lists, free: set<nat>, top: nat, p: nat)
    requires Canonical(L, free, top) && top < MAX_BUDDY_ORDERS
    ensures p in free <==> exists k, i: nat :: 0 <= k < MAX_BUDDY_ORDERS && i in L[k] && InRun(k, i, p)
    ensures forall k, i: nat, k', i': nat |
        0 <= k < MAX_BUDDY_ORDERS && i in L[k] && InRun(k, i, p) &&
        0 <= k' < MAX_BUDDY_ORDERS && i' in L[k'] && InRun(k', i', p) :: k == k' && i == i'
  {
    if p in free {
      assert FreeRun(free, 0, p) by {
        forall q | q in Run(0, p) ensures q in free { assert InRun(0, p, q); }
      }
      var k, i := GrowToMaximal(free, top, 0, p);
      assert i in L[k] && p in Run(0, p) && p in Run(k, i);
    }
    forall k, i: nat | 0 <= k < MAX_BUDDY_ORDERS && i in L[k] && InRun(k, i, p)
      ensures p in free
    {
      assert Maximal(free, top, k, i);
    }
    forall k, i: nat, k', i': nat |
      0 <= k < MAX_BUDDY_ORDERS && i in L[k] && InRun(k, i, p) &&
      0 <= k' < MAX_BUDDY_ORDERS && i' in L[k'] && InRun(k', i', p)
      ensures k == k' && i == i'
    {
      assert Maximal(free, top, k, i) && Maximal(free, top, k', i');
      MaximalDisjoint(free, top, k, i, k', i', p);
    }
  }
}
