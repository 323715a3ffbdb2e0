/**
 The buddy allocator of physical pages: one contiguous range carved into aligned
 power-of-two blocks that are split on allocation and merged on release.
 */
module PhysicalMemory {
  import opened Common
  import opened Powers
  import opened FreeLists
  import opened FreeListLinks

  const PMM_BUDDY_PHYSICAL_LIMIT := 0xC0000000

  // ---- orders ----

  function OrderFrom(n: nat, k: nat): nat
    requires k < MAX_BUDDY_ORDERS
    decreases MAX_BUDDY_ORDERS - k
  {
    if k + 1 == MAX_BUDDY_ORDERS || n <= Pow2(k) then k else OrderFrom(n, k + 1)
  }

  /** The order of the block handed out for n pages. */
  function OrderFor(n: nat): nat {
    OrderFrom(n, 0)
  }

  lemma {:induction false} OrderFromLeast(n: nat, k: nat, r: nat)
    requires k <= r < MAX_BUDDY_ORDERS && (r > k ==> Pow2(r - 1) < n)
    requires r + 1 == MAX_BUDDY_ORDERS || n <= Pow2(r)
    ensures OrderFrom(n, k) == r
    decreases r - k
  {
    if k < r {
      Pow2Monotone(k, r - 1);
      OrderFromLeast(n, k + 1, r);
    }
  }

  /** The least order whose block holds n pages, capped at the largest order. */
  lemma {:induction false} OrderForIsLeast(n: nat)
    ensures var r := OrderFor(n);
      && r < MAX_BUDDY_ORDERS
      && (n <= Pow2(r) || r + 1 == MAX_BUDDY_ORDERS)
      && (forall k: nat | k < r :: Pow2(k) < n)
  {
    OrderFromBounds(n, 0);
  }

  lemma {:induction false} OrderFromBounds(n: nat, k: nat)
    requires k < MAX_BUDDY_ORDERS
    ensures var r := OrderFrom(n, k);
      && k <= r < MAX_BUDDY_ORDERS
      && (n <= Pow2(r) || r + 1 == MAX_BUDDY_ORDERS)
      && (forall j: nat | k <= j < r :: Pow2(j) < n)
    decreases MAX_BUDDY_ORDERS - k
  {
    if k + 1 < MAX_BUDDY_ORDERS && n > Pow2(k) {
      OrderFromBounds(n, k + 1);
    }
  }

  method FloorLog2Pages(pages: nat) returns (order: nat)
    ensures order < MAX_BUDDY_ORDERS
    ensures pages > 0 ==> Pow2(order) <= pages
    ensures order + 1 < MAX_BUDDY_ORDERS ==> pages < Pow2(order + 1)
  {
    if pages <= 1 {
      assert Pow2(1) == 2;
      return 0;
    }
    order := 0;
    while order + 1 < MAX_BUDDY_ORDERS && Pow2(order + 1) <= pages
      invariant order < MAX_BUDDY_ORDERS && Pow2(order) <= pages
      decreases MAX_BUDDY_ORDERS - order
    {
      order := order + 1;
    }
  }

  method CeilLog2Pages(pages: nat) returns (order: nat)
    ensures order == OrderFor(pages)
  {
    if pages <= 1 {
      return 0;
    }
    order := FloorLog2Pages(pages);
    if Pow2(order) < pages && order + 1 < MAX_BUDDY_ORDERS {
      order := order + 1;
    }
    OrderFromLeast(pages, 0, order);
  }

  // ---- the firmware's memory map ----

  datatype Descriptor = Descriptor(conventional: bool, start: nat, pages: nat)

  /** What the boot loader has used: everything before this place in the map. */
  datatype BootCursor = BootCursor(descriptor: nat, address: nat, pages: nat)

  function UsableStart(map_: seq<Descriptor>, cursor: BootCursor, i: nat): nat
    requires i < |map_|
  {
    if i == cursor.descriptor then cursor.address else map_[i].start
  }

  /** How many pages of descriptor i are still unused and lie below the limit. */
  function UsablePages(map_: seq<Descriptor>, cursor: BootCursor, i: nat): nat
    requires i < |map_|
  {
    var start := UsableStart(map_, cursor, i);
    var pages := if i == cursor.descriptor then cursor.pages else map_[i].pages;
    if !map_[i].conventional || i < cursor.descriptor || start >= PMM_BUDDY_PHYSICAL_LIMIT then 0
    else Smaller(pages, (PMM_BUDDY_PHYSICAL_LIMIT - start) / PAGE_SIZE)
  }

  /**
   Memory the boot loader left unused: whole pages of conventional descriptor i, none
   before the cursor and all below the limit.
   */
  predicate Unused(map_: seq<Descriptor>, cursor: BootCursor, i: nat, start: nat, pages: nat) {
    && i < |map_| && map_[i].conventional && cursor.descriptor <= i
    && start + pages * PAGE_SIZE <= PMM_BUDDY_PHYSICAL_LIMIT
    && if i == cursor.descriptor
       then Inside(start, pages, cursor.address, cursor.pages)
       else Inside(start, pages, map_[i].start, map_[i].pages)
  }

  predicate Inside(start: nat, pages: nat, from: nat, count: nat) {
    from <= start && start + pages * PAGE_SIZE <= from + count * PAGE_SIZE
  }

  /** The cursor's rest lies inside its own descriptor. */
  predicate CursorFits(map_: seq<Descriptor>, cursor: BootCursor) {
    cursor.descriptor < |map_| ==>
      var d := map_[cursor.descriptor];
      Inside(cursor.address, cursor.pages, d.start, d.pages)
  }

  /** What UsablePages counts is unused, and no unused memory of the descriptor has more pages. */
  lemma UsableIsUnused(map_: seq<Descriptor>, cursor: BootCursor, i: nat)
    requires i < |map_|
    ensures UsablePages(map_, cursor, i) > 0 ==>
      Unused(map_, cursor, i, UsableStart(map_, cursor, i), UsablePages(map_, cursor, i))
    ensures forall start: nat, pages: nat | Unused(map_, cursor, i, start, pages) ::
      pages <= UsablePages(map_, cursor, i)
  {
    forall start: nat, pages: nat | Unused(map_, cursor, i, start, pages)
      ensures pages <= UsablePages(map_, cursor, i)
    {
      var s := UsableStart(map_, cursor, i);
      assert start + pages * PAGE_SIZE <= PMM_BUDDY_PHYSICAL_LIMIT;
    }
  }

  lemma UnusedInMap(map_: seq<Descriptor>, cursor: BootCursor, i: nat, start: nat, pages: nat)
    requires Unused(map_, cursor, i, start, pages)
    ensures i < |map_|
    ensures CursorFits(map_, cursor) ==> Inside(start, pages, map_[i].start, map_[i].pages)
  {
  }

  // ---- the allocator ----

  /** The first stretch than which none is larger. */
  ghost predicate FirstLargest(map_: seq<Descriptor>, cursor: BootCursor, i: nat)
    requires i < |map_|
  {
    && UsablePages(map_, cursor, i) > 0
    && (forall j | 0 <= j < |map_| :: UsablePages(map_, cursor, j) <= UsablePages(map_, cursor, i))
    && forall j | 0 <= j < i :: UsablePages(map_, cursor, j) < UsablePages(map_, cursor, i)
  }

  /** The first listed block of the smallest order from r up that has one. */
  ghost predicate FirstOfSmallest(L: Lists, r: nat, top: nat, i: nat)
    requires top < MAX_BUDDY_ORDERS
  {
    exists c: nat | r <= c <= top :: L[c] != [] && L[c][0] == i && forall j | r <= j < c :: L[j] == []
  }

  class PhysicalMemoryManager {
    var base: nat               // PhysicalAddressStart
    var total: nat              // TotalNumberOfPages
    var freeCount: nat          // NumberOfFreePages
    var bitMap: nat             // non-null once the range is set up
    var maxOrder: nat
    const heads: array<nat>     // BuddyFreeLists
    var next: map<nat, nat>     // the link word at the start of each free block

    ghost var lists: Lists
    ghost var free: set<nat>    // the free pages, numbered from the start of the range

    ghost predicate Valid()
      reads this, heads
    {
      && heads.Length == MAX_BUDDY_ORDERS
      && base % PAGE_SIZE == 0
      && (total > 0 ==> base > 0)
      && base + total * PAGE_SIZE <= PMM_BUDDY_PHYSICAL_LIMIT
      && bitMap == (if total == 0 then 0 else base)
      && maxOrder < MAX_BUDDY_ORDERS
      && (total > 0 ==> Pow2(maxOrder) <= total < Pow2(maxOrder + 1))
      && (forall p | p in free :: p < total)
      && freeCount == |free|
      && Canonical(lists, free, maxOrder)
      && Linked(base, heads[..], next, lists)
    }

    function AddressAt(page: nat): nat
      reads this
    {
      AddressOf(base, page)
    }

    method RemoveBlockFromFreeList(order: nat, block: nat) returns (found: bool)
      requires order < MAX_BUDDY_ORDERS && heads.Length == MAX_BUDDY_ORDERS && base > 0
      requires Linked(base, heads[..], next, lists) && Distinct(lists)
      modifies this`next, this`lists, heads
      ensures found <==> block in old(lists)[order]
      ensures !found ==> lists == old(lists)
      ensures lists == Unlist(old(lists), order, block)
      ensures Linked(base, heads[..], next, lists)
    {
      var address := AddressOf(base, block);
      var previous, current := 0, heads[order];
      ghost var s := lists[order];
      ghost var j := 0;
      hide Linked, Distinct, Unlist, Without;
      ListDistinct(lists, order);
      HeadAt(base, heads[..], next, lists, order);
      while current != 0
        invariant 0 <= j <= |s| && current == EntryAddress(base, s, j)
        invariant previous == if j == 0 then 0 else AddressOf(base, s[j - 1])
        invariant block !in s[..j]
        invariant next == old(next) && heads[..] == old(heads[..]) && lists == old(lists)
        decreases |s| - j
      {
        LinkAt(base, heads[..], next, lists, order, j);
        if current == address {
          assert s[j] == block;
          UnlistAt(lists, order, j);
          if previous == 0 {
            PopLinked(base, heads[..], next, lists, order);
            heads[order] := next[current];
            assert heads[..] == old(heads[..])[order := next[current]];
            assert s[..j] + s[j + 1..] == s[1..];
          } else {
            UnlinkLinked(base, heads[..], next, lists, order, j);
            next := next[previous := next[current]];
          }
          lists := Unlist(lists, order, block);
          return true;
        }
        assert s[j] != block;
        previous := current;
        current := next[current];
        j := j + 1;
      }
      assert s[..j] == s;
      UnlistAbsent(lists, order, block);
      return false;
    }

    constructor ()
      ensures heads.Length == MAX_BUDDY_ORDERS && fresh(heads)
      ensures forall k | 0 <= k < MAX_BUDDY_ORDERS :: heads[k] == 0
      ensures base == total == freeCount == bitMap == maxOrder == 0 && free == {}
    {
      base, total, freeCount, bitMap, maxOrder := 0, 0, 0, 0, 0;
      heads := new nat[MAX_BUDDY_ORDERS](_ => 0);
      next, lists, free := map[], seq(MAX_BUDDY_ORDERS, _ => []), {};
    }

    /** Manage the largest usable stretch of memory below the limit. */
    method InitializeMemoryDescriptors(map_: seq<Descriptor>, cursor: BootCursor)
      requires heads.Length == MAX_BUDDY_ORDERS
      // the stretch to be managed starts at a nonzero page boundary
      requires forall i: nat | i < |map_| && FirstLargest(map_, cursor, i) ::
        UsableStart(map_, cursor, i) > 0 && UsableStart(map_, cursor, i) % PAGE_SIZE == 0
      modifies this, heads
      ensures Valid() && freeCount == total
      ensures forall p: nat :: p in free <==> p < total
      // no unused memory of one descriptor has more pages than are managed
      ensures forall i: nat, start: nat, pages: nat | Unused(map_, cursor, i, start, pages) :: pages <= total
      // what is managed is the unused start of the first descriptor with that many
      ensures total > 0 ==> exists i: nat | i < |map_| ::
        && Unused(map_, cursor, i, base, total)
        && base == (if i == cursor.descriptor then cursor.address else map_[i].start)
        && (forall j: nat, start: nat, pages: nat | j < i && Unused(map_, cursor, j, start, pages) ::
              pages < total)
        && (CursorFits(map_, cursor) ==> Inside(base, total, map_[i].start, map_[i].pages))
    {
      hide Canonical, Linked, Pow2;
      var i := ChooseStretch(map_, cursor);
      InitializeBuddyAllocator();
      hide UsablePages, Unused;
      forall j: nat, start: nat, pages: nat | Unused(map_, cursor, j, start, pages)
        ensures pages <= total && (total > 0 && j < i ==> pages < total)
      {
        UnusedInMap(map_, cursor, j, start, pages);
        UsableIsUnused(map_, cursor, j);
      }
      if total > 0 {
        UsableIsUnused(map_, cursor, i);
        UnusedInMap(map_, cursor, i, base, total);
      }
    }

    /** Record the first of the largest usable stretches. */
    method ChooseStretch(map_: seq<Descriptor>, cursor: BootCursor) returns (ghost chosen: nat)
      modifies this`base, this`total, this`freeCount, this`bitMap
      ensures bitMap == 0 && freeCount == total && base + total * PAGE_SIZE <= PMM_BUDDY_PHYSICAL_LIMIT
      ensures forall i | 0 <= i < |map_| :: UsablePages(map_, cursor, i) <= total
      ensures total == 0 ==> base == 0
      ensures total > 0 ==>
        && chosen < |map_| && FirstLargest(map_, cursor, chosen)
        && total == UsablePages(map_, cursor, chosen) && base == UsableStart(map_, cursor, chosen)
    {
      base, total, freeCount, bitMap := 0, 0, 0, 0;
      chosen := 0;
      for i := 0 to |map_|
        invariant bitMap == 0 && freeCount == total
        invariant forall i' | 0 <= i' < i :: UsablePages(map_, cursor, i') <= total
        invariant total > 0 ==> chosen < i && total == UsablePages(map_, cursor, chosen)
                                && base == UsableStart(map_, cursor, chosen)
        invariant total > 0 ==> forall i' | 0 <= i' < chosen :: UsablePages(map_, cursor, i') < total
        invariant total == 0 ==> base == 0
        invariant base + total * PAGE_SIZE <= PMM_BUDDY_PHYSICAL_LIMIT
      {
        if !map_[i].conventional {
          continue;
        }
        var start, pages := map_[i].start, map_[i].pages;
        if i < cursor.descriptor {
          continue;
        }
        if i == cursor.descriptor {
          if cursor.pages == 0 {
            continue;
          }
          start, pages := cursor.address, cursor.pages;
        }
        if start >= PMM_BUDDY_PHYSICAL_LIMIT {
          continue;
        }
        if start + pages * PAGE_SIZE > PMM_BUDDY_PHYSICAL_LIMIT {
          pages := (PMM_BUDDY_PHYSICAL_LIMIT - start) / PAGE_SIZE;
          if pages == 0 {
            continue;
          }
        }
        assert pages == UsablePages(map_, cursor, i);
        if pages > total {
          base, total, freeCount, bitMap := start, pages, pages, 0;
          chosen := i;
        }
      }
    }

    /** Put a block in front of the list of its order. */
    method PushBlock(order: nat, block: nat, ghost i: nat)
      requires order < MAX_BUDDY_ORDERS && heads.Length == MAX_BUDDY_ORDERS
      requires block == AddressOf(base, i) && Linked(base, heads[..], next, lists)
      requires forall k, j | 0 <= k < MAX_BUDDY_ORDERS && 0 <= j < |lists[k]| :: lists[k][j] != i
      modifies this`next, this`lists, heads
      ensures lists == Push(old(lists), order, i)
      ensures Linked(base, heads[..], next, lists)
    {
      PushLinked(base, heads[..], next, lists, order, i);
      ghost var before := heads[..];
      next := next[block := heads[order]];
      heads[order] := block;
      assert heads[..] == before[order := block];
      lists := Push(lists, order, i);
    }

    /** Lower the order until the offset is aligned to it. */
    static method LargestAlignedOrder(k: nat, offset: nat) returns (order: nat)
      ensures order <= k && Aligned(order, offset)
      ensures order < k ==> !Aligned(order + 1, offset)
      ensures Aligned(k, offset) ==> order == k
    {
      order := k;
      while order > 0 && offset % Pow2(order) != 0
        invariant order <= k && (order < k ==> !Aligned(order + 1, offset))
        decreases order
      {
        order := order - 1;
        AlignedIsRemainder(order + 1, offset);
      }
      AlignedIsRemainder(order, offset);
      if order < k && Aligned(k, offset) { AlignedDown(order + 1, k, offset); }
    }

    method InitializeBuddyAllocator()
      requires heads.Length == MAX_BUDDY_ORDERS && base % PAGE_SIZE == 0 && (total > 0 ==> base > 0)
      requires base + total * PAGE_SIZE <= PMM_BUDDY_PHYSICAL_LIMIT && freeCount == total && bitMap == 0
      modifies this`maxOrder, this`bitMap, this`next, this`lists, this`free, heads
      ensures Valid() && base == old(base) && total == old(total)
      ensures forall p: nat :: p in free <==> p < total
    {
      for k := 0 to MAX_BUDDY_ORDERS
        invariant forall k' | 0 <= k' < k :: heads[k'] == 0
        invariant bitMap == old(bitMap)
      {
        heads[k] := 0;
      }
      maxOrder, lists, free := 0, seq(MAX_BUDDY_ORDERS, _ => []), {};
      if total == 0 {
        CarvedNothing(0, 0);
        return;
      }
      maxOrder := FloorLog2Pages(total);
      assert maxOrder + 1 < MAX_BUDDY_ORDERS by {
        Pow2At20();
        if maxOrder >= 20 { Pow2Monotone(20, maxOrder); }
      }
      CarvedNothing(maxOrder, total);
      CarveBlocks();
      bitMap := base;
      CarvedAll(lists, free, maxOrder, total);
    }

    /** Cut the whole range into blocks, largest first. */
    method CarveBlocks()
      requires heads.Length == MAX_BUDDY_ORDERS && maxOrder < MAX_BUDDY_ORDERS
      requires Carved(lists, free, maxOrder, 0, total) && Linked(base, heads[..], next, lists)
      modifies this`next, this`lists, this`free, heads
      ensures Carved(lists, free, maxOrder, total, 0) && Linked(base, heads[..], next, lists)
    {
      hide Carved, Run, Pow2, Aligned, Linked;
      var remaining: nat, offset: nat := total, 0;
      while remaining > 0
        invariant remaining + offset == total
        invariant Carved(lists, free, maxOrder, offset, remaining)
        invariant Linked(base, heads[..], next, lists)
        decreases remaining
      {
        var order := FloorLog2Pages(remaining);
        CarveStep(lists, free, maxOrder, offset, remaining, order);
        order := LargestAlignedOrder(order, offset);
        PushBlock(order, base + offset * PAGE_SIZE, offset);
        free := free + Run(order, offset);
        offset, remaining := offset + Pow2(order), remaining - Pow2(order);
      }
    }

    /** Whether a release request passes the checks made before any list is touched. */
    ghost predicate Accepts(address: nat, pages: nat)
      reads this
    {
      && pages > 0 && total > 0
      && base <= address < base + total * PAGE_SIZE
      && (address - base) % PAGE_SIZE == 0
      && OrderFor(pages) <= maxOrder
      && PageOf(address) + Pow2(OrderFor(pages)) <= total
      && PageOf(address) % Pow2(OrderFor(pages)) == 0
    }

    function PageOf(address: nat): nat
      reads this
      requires base <= address
    {
      (address - base) / PAGE_SIZE
    }

    method AllocatePagesFromDescriptor(pages: nat) returns (address: nat)
      requires Valid()
      modifies this`freeCount, this`next, this`lists, this`free, heads
      ensures Valid()
      // it fails exactly when no aligned run of the rounded-up size is free
      ensures address == 0 <==> pages == 0 || forall i: nat :: !FreeRun(old(free), OrderFor(pages), i)
      ensures address == 0 ==> free == old(free) && lists == old(lists)
      ensures address != 0 ==>
        var r := OrderFor(pages);
        && r <= maxOrder && base <= address && address == AddressAt(PageOf(address))
        && FreeRun(old(free), r, PageOf(address))
        && free == old(free) - Run(r, PageOf(address))
        && Allocate(old(lists), r, maxOrder) == Some(Allocation(PageOf(address), lists))
        // the block starts the first listed one of the smallest sufficient order
        && FirstOfSmallest(old(lists), r, maxOrder, PageOf(address))
    {
      hide Canonical, Run, Linked, FreeRun, Split, Pow2, OrderFor;
      RequestTooLarge(free, total, maxOrder, pages);
      if pages == 0 || bitMap == 0 || pages > freeCount {
        return 0;
      }
      var r := CeilLog2Pages(pages);
      if r > maxOrder {
        return 0;
      }
      AllocateComplete(lists, free, maxOrder, r);
      var order := FindOrder(r);
      if order > maxOrder {
        return 0;
      }

      AllocateCanonical(lists, free, maxOrder, r);
      ghost var i := lists[order][0];
      address := TakeBlock(order, r);
      FreeRunSize(free, r, i);
      free := free - Run(r, i);
      var blockPages := Pow2(r);
      if blockPages > freeCount {
        assert false;
      }
      freeCount := freeCount - blockPages;
      PageOfAddress(base, i);
    }

    /** The smallest order from r up whose list is not empty. */
    method FindOrder(r: nat) returns (order: nat)
      requires r <= maxOrder < MAX_BUDDY_ORDERS && heads.Length == MAX_BUDDY_ORDERS && base > 0
      requires Linked(base, heads[..], next, lists)
      ensures order == FirstNonEmpty(lists, r, maxOrder)
    {
      order := r;
      while order <= maxOrder && heads[order] == 0
        invariant r <= order <= maxOrder + 1
        invariant FirstNonEmpty(lists, r, maxOrder) == FirstNonEmpty(lists, order, maxOrder)
        decreases maxOrder + 1 - order
      {
        order := order + 1;
      }
    }

    /** Take the first block of order c off its list and split it down to order r. */
    method TakeBlock(c: nat, r: nat) returns (block: nat)
      requires r <= c <= maxOrder && heads.Length == MAX_BUDDY_ORDERS && maxOrder < MAX_BUDDY_ORDERS
      requires Canonical(lists, free, maxOrder) && Linked(base, heads[..], next, lists)
      requires lists[c] != []
      modifies this`next, this`lists, heads
      ensures var L := old(lists);
        block == AddressOf(base, L[c][0]) && lists == Split(L[c := L[c][1..]], c, r, L[c][0])
      ensures Linked(base, heads[..], next, lists)
    {
      hide Canonical, Run, FreeRun;
      ghost var i := lists[c][0];
      FirstIsListed(lists, free, maxOrder, c);
      PopLinked(base, heads[..], next, lists, c);
      block := heads[c];
      ghost var before := heads[..];
      heads[c] := next[block];
      assert heads[..] == before[c := next[block]];
      lists := lists[c := lists[c][1..]];
      SplitBlock(block, c, r, i, free - Run(c, i));
    }

    /** Halve a block taken off the lists down to order r, listing the upper halves. */
    method SplitBlock(block: nat, c: nat, r: nat, ghost i: nat, ghost others: set<nat>)
      requires r <= c && heads.Length == MAX_BUDDY_ORDERS
      requires block == AddressOf(base, i) && Detached(lists, others, maxOrder, c, i)
      requires Linked(base, heads[..], next, lists)
      modifies this`next, this`lists, heads
      ensures lists == Split(old(lists), c, r, i)
      ensures Linked(base, heads[..], next, lists)
    {
      hide Canonical, Run;
      var order := c;
      ghost var rest := others;
      while order > r
        invariant r <= order <= c
        invariant Split(lists, order, r, i) == Split(old(lists), c, r, i)
        invariant Detached(lists, rest, maxOrder, order, i)
        invariant Linked(base, heads[..], next, lists)
        decreases order
      {
        HalveStep(lists, rest, maxOrder, order, i);
        ListedIsFree(lists, rest, maxOrder);
        order := order - 1;
        ghost var b := i + Pow2(order);
        var buddy: nat := block + Pow2(order) * PAGE_SIZE;
        PushBlock(order, buddy, b);
        rest := rest + Run(order, b);
      }
    }

    method FreePagesFromDescriptor(address: nat, pages: nat) returns (ok: bool)
      requires Valid()
      // the caller gives back a block that is not free already
      requires Accepts(address, pages) ==> Run(OrderFor(pages), PageOf(address)) !! free
      modifies this`freeCount, this`next, this`lists, this`free, heads
      ensures Valid()
      ensures ok <==> old(Accepts(address, pages))
      ensures !ok ==> free == old(free) && lists == old(lists)
      ensures ok ==>
        var k := OrderFor(pages);
        && free == old(free) + Run(k, PageOf(address))
        && lists == Free(old(lists), k, PageOf(address), maxOrder, total)
    {
      hide Canonical, Run, Linked, Pow2, OrderFor, Aligned, Free;
      if address == 0 || pages == 0 || bitMap == 0 {
        return false;
      }
      if !(base <= address < base + total * PAGE_SIZE) || (address - base) % PAGE_SIZE != 0 {
        return false;
      }
      var k := CeilLog2Pages(pages);
      if k > maxOrder {
        return false;
      }
      var blockPages := Pow2(k);
      var start := (address - base) / PAGE_SIZE;
      if start + blockPages > total || start % blockPages != 0 {
        return false;
      }
      AlignedIsRemainder(k, start);
      FreeCanonical(lists, free, maxOrder, total, k, start);
      ListBlock(k, start);
      free := free + Run(k, start);
      RunBelow(k, start, total);
      RunSize(k, start);
      BoundedSize(free, total);
      freeCount := freeCount + blockPages;
      freeCount := Smaller(freeCount, total);
      return true;
    }

    /** Merge the block of order k at page start with its free siblings and list the result. */
    method ListBlock(k: nat, start: nat)
      requires heads.Length == MAX_BUDDY_ORDERS && base > 0
      requires Detached(lists, free, maxOrder, k, start) && Linked(base, heads[..], next, lists)
      modifies this`next, this`lists, heads
      ensures lists == Free(old(lists), k, start, maxOrder, total)
      ensures Linked(base, heads[..], next, lists)
    {
      hide Canonical, Run, Aligned, Linked;
      var current: nat, order := base + start * PAGE_SIZE, k;
      ghost var i: nat, rest := start, free;
      while order < maxOrder
        invariant k <= order <= maxOrder && current == AddressOf(base, i)
        invariant Detached(lists, rest, maxOrder, order, i)
        invariant Linked(base, heads[..], next, lists)
        invariant Coalesce(lists, order, i, maxOrder, total) == Coalesce(old(lists), k, start, maxOrder, total)
        decreases maxOrder - order
      {
        var size := Pow2(order);
        var index := (current - base) / PAGE_SIZE;
        assert index == i;
        var buddyIndex := Xor(index, size);
        assert buddyIndex == Sibling(order, i);
        if buddyIndex + size > total {
          break;
        }
        CanonicalDistinct(lists, rest, maxOrder);
        ghost var L := lists;
        var found := RemoveBlockFromFreeList(order, buddyIndex);
        if !found {
          break;
        }
        MergeStep(L, rest, maxOrder, order, i);
        rest := rest - Run(order, buddyIndex);
        var buddy: nat := base + buddyIndex * PAGE_SIZE;
        if buddy < current {
          current := buddy;
        }
        i := if buddyIndex < i then buddyIndex else i;
        order := order + 1;
      }
      assert Coalesce(lists, order, i, maxOrder, total) == Merged(order, i, lists);
      ListedIsFree(lists, rest, maxOrder);
      assert i in Run(order, i);
      PushBlock(order, current, i);
    }
  }

  /** The offset is aligned to a block larger than what remains. */
  ghost predicate Fitting(top: nat, offset: nat, remaining: nat) {
    exists j: nat :: j <= top + 1 && remaining < Pow2(j) && Aligned(j, offset)
  }

  lemma FittingStep(top: nat, offset: nat, remaining: nat, k: nat)
    requires Fitting(top, offset, remaining) && top < MAX_BUDDY_ORDERS
    requires Pow2(k) <= remaining && (k + 1 < MAX_BUDDY_ORDERS ==> remaining < Pow2(k + 1))
    ensures k <= top && Aligned(k, offset) && Aligned(k + 1, offset)
    ensures Fitting(top, offset + Pow2(k), remaining - Pow2(k))
  {
    var j: nat :| j <= top + 1 && remaining < Pow2(j) && Aligned(j, offset);
    hide Aligned;
    if j <= k { Pow2Monotone(j, k); }
    AlignedDown(k + 1, j, offset);
    AlignedDown(k, j, offset);
    AlignedPlus(k, offset);
    assert remaining - Pow2(k) < Pow2(if k + 1 < MAX_BUDDY_ORDERS then k else j);
  }

  /** The pages before the offset are carved, and the offset fits every block still to come. */
  ghost predicate Carved(L: Lists, free: set<nat>, top: nat, offset: nat, remaining: nat) {
    && Canonical(L, free, top)
    && (forall p: nat :: p in free <==> p < offset)
    && Fitting(top, offset, remaining)
  }

  lemma CarvedNothing(top: nat, total: nat)
    requires top < MAX_BUDDY_ORDERS && total < Pow2(top + 1)
    ensures Carved(seq(MAX_BUDDY_ORDERS, _ => []), {}, top, 0, total)
  {
    forall k: nat, i: nat
      ensures !Maximal({}, top, k, i)
    {
      assert i in Run(k, i);
    }
    ZeroAligned(top + 1);
  }

  /** The largest block that fits is aligned where the carving stands, and its sibling is not free. */
  lemma CarveStep(L: Lists, free: set<nat>, top: nat, offset: nat, remaining: nat, k: nat)
    requires Carved(L, free, top, offset, remaining) && top < MAX_BUDDY_ORDERS
    requires Pow2(k) <= remaining && (k + 1 < MAX_BUDDY_ORDERS ==> remaining < Pow2(k + 1))
    ensures k <= top && Aligned(k, offset)
    ensures forall k, j | 0 <= k < MAX_BUDDY_ORDERS && 0 <= j < |L[k]| :: L[k][j] != offset
    ensures Carved(Push(L, k, offset), free + Run(k, offset), top, offset + Pow2(k), remaining - Pow2(k))
  {
    hide Canonical, Aligned, Pow2, Fitting;
    FittingStep(top, offset, remaining, k);
    ListedIsFree(L, free, top);
    assert Sibling(k, offset) in Run(k, Sibling(k, offset));
    assert forall p | p in Run(k, offset) :: InRun(k, offset, p);
    PushCanonical(L, free, top, k, offset);
    forall p: nat
      ensures p in free + Run(k, offset) <==> p < offset + Pow2(k)
    {
      assert p in Run(k, offset) <==> InRun(k, offset, p);
    }
  }

  lemma FirstIsListed(L: Lists, free: set<nat>, top: nat, c: nat)
    requires Canonical(L, free, top) && c <= top < MAX_BUDDY_ORDERS && L[c] != []
    ensures Detached(L[c := L[c][1..]], free - Run(c, L[c][0]), top, c, L[c][0])
    ensures FreeRun(free, c, L[c][0])
  {
    var i := L[c][0];
    assert i in L[c];
    assert Maximal(free, top, c, i);
    UnlistCanonical(L, free, top, c, i);
    assert Unlist(L, c, i) == L[c := L[c][1..]];
  }

  lemma RunBelow(k: nat, i: nat, n: nat)
    requires i + Pow2(k) <= n
    ensures forall p | p in Run(k, i) :: p < n
  {
    forall p | p in Run(k, i) ensures p < n { assert InRun(k, i, p); }
  }

  lemma PageOfAddress(base: nat, page: nat)
    ensures (AddressOf(base, page) - base) / PAGE_SIZE == page
  {
  }

  lemma ListedIsFree(L: Lists, free: set<nat>, top: nat)
    requires Canonical(L, free, top)
    ensures forall k, j | 0 <= k < MAX_BUDDY_ORDERS && 0 <= j < |L[k]| :: L[k][j] in free
  {
    forall k, j | 0 <= k < MAX_BUDDY_ORDERS && 0 <= j < |L[k]|
      ensures L[k][j] in free
    {
      assert L[k][j] in L[k];
      assert L[k][j] in Run(k, L[k][j]);
    }
  }

  /** The early refusals: such a request fits in no run of free pages. */
  lemma RequestTooLarge(free: set<nat>, total: nat, top: nat, pages: nat)
    requires forall p | p in free :: p < total
    requires total * PAGE_SIZE <= PMM_BUDDY_PHYSICAL_LIMIT && (total > 0 ==> total < Pow2(top + 1))
    ensures total == 0 || pages > |free| || OrderFor(pages) > top ==>
      forall i: nat :: !FreeRun(free, OrderFor(pages), i)
  {
    var r := OrderFor(pages);
    OrderForIsLeast(pages);
    BoundedSize(free, total);
    if i: nat :| FreeRun(free, r, i) {
      FreeRunSize(free, r, i);
      Pow2At20();
      if r > top { Pow2Monotone(top + 1, r); }
      if r + 1 == MAX_BUDDY_ORDERS { Pow2Monotone(20, r); }
    }
  }

  lemma CarvedAll(L: Lists, free: set<nat>, top: nat, total: nat)
    requires Carved(L, free, top, total, 0)
    ensures Canonical(L, free, top) && |free| == total && forall p: nat :: p in free <==> p < total
  {
    IntervalSize(0, total, free);
  }
}
