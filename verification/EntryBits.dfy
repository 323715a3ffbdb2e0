/**
 Page-table entries bit by bit. An entry's record of fields loses nothing of its 64
 bits, and the program's mask arithmetic does to the bits what the builders of
 PageTables do to the record.
 */
module EntryBits {
  import opened Powers
  import opened PageTables
  import opened PageTableCopy

  const VALID_PHYSICAL_ADDR_MASK: bv64 := 0x0000_0000_FFFF_F000
  const MAX_SUPPORTED_PHYSICAL_ADDR: bv64 := 0x1_0000_0000
  const PAGE_SIZE: bv64 := 4096

  const PRESENT: bv64 := 0x1
  const WRITEABLE: bv64 := 0x2
  const USER: bv64 := 0x4
  const WRITE_THROUGH: bv64 := 0x8
  const CACHE_DISABLED: bv64 := 0x10
  const ACCESSED: bv64 := 0x20
  const DIRTY: bv64 := 0x40
  const SIZE: bv64 := 0x80             // PAT in a page table's entries
  const GLOBAL: bv64 := 0x100
  const AVAILABLE_MASK: bv64 := 0xE00
  const EXECUTION_DISABLED: bv64 := 0x8000_0000_0000_0000

  const LEAF_ALLOWED_FLAG_MASK: bv64 :=
    PRESENT | WRITEABLE | USER | WRITE_THROUGH | CACHE_DISABLED | ACCESSED | DIRTY | SIZE | GLOBAL | AVAILABLE_MASK
  const NON_LEAF_ALLOWED_FLAG_MASK: bv64 :=
    PRESENT | WRITEABLE | USER | WRITE_THROUGH | CACHE_DISABLED | ACCESSED | AVAILABLE_MASK
  const NON_PRESENT_COPY_FLAG_MASK: bv64 := LEAF_ALLOWED_FLAG_MASK & !PRESENT

  function BuildNonLeafEntryValue(physicalAddress: bv64, existingFlags: bv64, userAccess: bool): bv64 {
    var flags := existingFlags & NON_LEAF_ALLOWED_FLAG_MASK;
    var present := flags | (PRESENT | WRITEABLE);
    (physicalAddress & VALID_PHYSICAL_ADDR_MASK) | if userAccess then present | USER else present
  }

  function BuildLeafEntryValue(physicalAddress: bv64, existingFlags: bv64, userAccess: bool, writeable: bool): bv64 {
    var flags := (existingFlags & LEAF_ALLOWED_FLAG_MASK & !EXECUTION_DISABLED) | PRESENT;
    var user := if userAccess then flags | USER else flags & !USER;
    (physicalAddress & VALID_PHYSICAL_ADDR_MASK) | if writeable then user | WRITEABLE else user & !WRITEABLE
  }

  predicate PageAligned(address: bv64) {
    address & (PAGE_SIZE - 1) == 0
  }

  predicate IsValidLeafPhysicalAddress(physicalAddress: bv64) {
    physicalAddress != 0 && PageAligned(physicalAddress) && physicalAddress < MAX_SUPPORTED_PHYSICAL_ADDR
  }

  function SanitizeNonPresentCopiedEntry(value: bv64): bv64 {
    (value & VALID_PHYSICAL_ADDR_MASK) | (value & NON_PRESENT_COPY_FLAG_MASK)
  }

  // ---- numbers in bits ----

  function Low(x: bv64): (b: nat)
    ensures b < 2
  {
    if x & 1 == 1 then 1 else 0
  }

  function Half(x: bv64): bv64 {
    x >> 1
  }

  function Meet(x: bv64, mask: bv64): bv64 {
    x & mask
  }

  function Widen(mask: bv64): bv64 {
    (mask << 1) | 1
  }

  /** The number in the low n bits. */
  function Number(x: bv64, n: nat): nat
    decreases n
  {
    if n == 0 then 0 else Low(x) + 2 * Number(Half(x), n - 1)
  }

  /** A mask of the low k bits. */
  function Ones(k: nat): bv64 {
    if k == 0 then 0 else Widen(Ones(k - 1))
  }

  lemma OnesValues()
    ensures Ones(3) == 0x7 && Ones(11) == 0x7FF && Ones(20) == 0xF_FFFF && Ones(40) == 0xFF_FFFF_FFFF
    ensures Ones(52) == 0xF_FFFF_FFFF_FFFF
  {
    assert Ones(8) == 0xFF;
    assert Ones(16) == 0xFFFF;
    assert Ones(24) == 0xFF_FFFF;
    assert Ones(28) == 0xFFF_FFFF;
    assert Ones(32) == 0xFFFF_FFFF;
    assert Ones(36) == 0xF_FFFF_FFFF;
    assert Ones(40) == 0xFF_FFFF_FFFF;
    assert Ones(44) == 0xFFF_FFFF_FFFF;
    assert Ones(48) == 0xFFFF_FFFF_FFFF;
  }

  lemma MaskBits(x: bv64, mask: bv64)
    ensures Low(Meet(x, Widen(mask))) == Low(x) && Half(Meet(x, Widen(mask))) == Meet(Half(x), mask)
  {
  }

  lemma JoinBits(x: bv64, y: bv64, mask: bv64)
    requires Low(x) == Low(y) && Meet(Half(x), mask) == Meet(Half(y), mask)
    ensures Meet(x, Widen(mask)) == Meet(y, Widen(mask))
  {
    hide Low, Half, Meet, Widen;
    SameLow(x, y);
    SplitBits(x, mask);
    SplitBits(y, mask);
  }

  lemma SplitBits(x: bv64, mask: bv64)
    ensures Meet(x, Widen(mask)) == (Meet(Half(x), mask) << 1) | (x & 1)
  {
  }

  lemma SameLow(x: bv64, y: bv64)
    requires Low(x) == Low(y)
    ensures x & 1 == y & 1
  {
  }

  lemma Nothing(x: bv64)
    ensures Meet(x, 0) == 0 && Low(0) == 0 && Half(0) == 0
  {
  }

  lemma {:induction false} NumberOfZero(n: nat)
    ensures Number(0, n) == 0
  {
    hide Low, Half;
    Nothing(0);
    if n > 0 {
      NumberOfZero(n - 1);
    }
  }

  lemma {:induction false} NumberMasked(x: bv64, k: nat, n: nat)
    requires k <= n
    ensures Number(Meet(x, Ones(k)), n) == Number(x, k)
    decreases k
  {
    hide Low, Half, Meet, Widen;
    if k > 0 {
      MaskBits(x, Ones(k - 1));
      NumberMasked(Half(x), k - 1, n - 1);
    } else {
      Nothing(x);
      NumberOfZero(n);
    }
  }

  lemma {:induction false} NumberModulo(x: bv64, k: nat, n: nat)
    requires k <= n
    ensures Number(x, n) % Pow2(k) == Number(x, k)
    decreases k
  {
    hide Low, Half;
    if k > 0 {
      NumberModulo(Half(x), k - 1, n - 1);
      DoubleRemainder(Number(Half(x), n - 1), Pow2(k - 1), Low(x));
    }
  }

  lemma DoubleRemainder(y: nat, p: nat, b: nat)
    requires p > 0 && b < 2
    ensures (b + 2 * y) % (2 * p) == b + 2 * (y % p)
  {
    var q, r := y / p, y % p;
    assert b + 2 * y == (2 * p) * q + (b + 2 * r);
    RemainderUnique(b + 2 * y, 2 * p, q, b + 2 * r);
  }

  /** The number determines the bits. */
  lemma {:induction false} NumberInjective(x: bv64, y: bv64, n: nat)
    requires Number(x, n) == Number(y, n)
    ensures Meet(x, Ones(n)) == Meet(y, Ones(n))
    decreases n
  {
    hide Low, Half, Meet, Widen;
    if n == 0 {
      Nothing(x);
      Nothing(y);
    } else {
      NumberInjective(Half(x), Half(y), n - 1);
      JoinBits(x, y, Ones(n - 1));
    }
  }

  // ---- entries ----

  function Flag(v: bv64, mask: bv64): bool {
    v & mask != 0
  }

  function From9(v: bv64): bv64 {
    v >> 9
  }

  function From12(v: bv64): bv64 {
    v >> 12
  }

  function From52(v: bv64): bv64 {
    v >> 52
  }

  /** The fields of an entry. */
  function Decode(v: bv64): Entry {
    Entry(Flag(v, PRESENT), Flag(v, WRITEABLE), Flag(v, USER), Flag(v, WRITE_THROUGH), Flag(v, CACHE_DISABLED),
          Flag(v, ACCESSED), Flag(v, DIRTY), Flag(v, SIZE), Flag(v, GLOBAL), Number(From9(v), 3),
          Number(From12(v), 40), Number(From52(v), 11), Flag(v, EXECUTION_DISABLED))
  }

  /** The number of the page an address lies in. */
  function FrameOf(address: bv64): nat {
    Number(From12(address), 52)
  }

  predicate SameFlags(v: bv64, w: bv64) {
    && Flag(v, PRESENT) == Flag(w, PRESENT) && Flag(v, WRITEABLE) == Flag(w, WRITEABLE)
    && Flag(v, USER) == Flag(w, USER) && Flag(v, WRITE_THROUGH) == Flag(w, WRITE_THROUGH)
    && Flag(v, CACHE_DISABLED) == Flag(w, CACHE_DISABLED) && Flag(v, ACCESSED) == Flag(w, ACCESSED)
    && Flag(v, DIRTY) == Flag(w, DIRTY) && Flag(v, SIZE) == Flag(w, SIZE) && Flag(v, GLOBAL) == Flag(w, GLOBAL)
    && Flag(v, EXECUTION_DISABLED) == Flag(w, EXECUTION_DISABLED)
  }

  /** A one-bit field determines its bit. */
  lemma FlagBits(v: bv64, w: bv64)
    requires SameFlags(v, w)
    ensures v & 0x1 == w & 0x1 && v & 0x2 == w & 0x2 && v & 0x4 == w & 0x4 && v & 0x8 == w & 0x8
    ensures v & 0x10 == w & 0x10 && v & 0x20 == w & 0x20 && v & 0x40 == w & 0x40 && v & 0x80 == w & 0x80
    ensures v & 0x100 == w & 0x100 && v & 0x8000_0000_0000_0000 == w & 0x8000_0000_0000_0000
  {
  }

  lemma SameParts(v: bv64, w: bv64)
    requires SameFlags(v, w)
    requires Meet(From9(v), 0x7) == Meet(From9(w), 0x7)
    requires Meet(From12(v), 0xFF_FFFF_FFFF) == Meet(From12(w), 0xFF_FFFF_FFFF)
    requires Meet(From52(v), 0x7FF) == Meet(From52(w), 0x7FF)
    ensures v == w
  {
    FlagBits(v, w);
    hide SameFlags, Flag;
  }

  /** The fields lose nothing: two entries with the same fields are the same entry. */
  lemma DecodeInjective(v: bv64, w: bv64)
    requires Decode(v) == Decode(w)
    ensures v == w
  {
    hide Number, Ones, Meet, Flag, From9, From12, From52;
    OnesValues();
    NumberInjective(From9(v), From9(w), 3);
    NumberInjective(From12(v), From12(w), 40);
    NumberInjective(From52(v), From52(w), 11);
    SameParts(v, w);
  }

  /** An entry whose address is another one cut to 32 bits and whose available bits are another entry's. */
  predicate PutTogether(e: bv64, address: bv64, flags: bv64) {
    From12(e) == Meet(From12(address), 0xF_FFFF) && Meet(From9(e), 0x7) == Meet(From9(flags), 0x7) && From52(e) == 0
  }

  lemma WideFields(e: bv64, address: bv64, flags: bv64)
    requires PutTogether(e, address, flags)
    ensures Number(From12(e), 40) == FrameOf(address) % SUPPORTED_FRAMES
    ensures Number(From9(e), 3) == Number(From9(flags), 3) && Number(From52(e), 11) == 0
  {
    hide Number, Ones, Meet, From9, From12, From52;
    OnesValues();
    Pow2At20();
    NumberMasked(From12(address), 20, 40);
    NumberModulo(From12(address), 20, 52);
    NumberMasked(From9(e), 3, 3);
    NumberMasked(From9(flags), 3, 3);
    NumberOfZero(11);
  }

  lemma NonLeafBits(address: bv64, flags: bv64, user: bool)
    ensures var e := BuildNonLeafEntryValue(address, flags, user);
      && PutTogether(e, address, flags)
      && Flag(e, PRESENT) && Flag(e, WRITEABLE) && Flag(e, USER) == (Flag(flags, USER) || user)
      && Flag(e, WRITE_THROUGH) == Flag(flags, WRITE_THROUGH) && Flag(e, CACHE_DISABLED) == Flag(flags, CACHE_DISABLED)
      && Flag(e, ACCESSED) == Flag(flags, ACCESSED)
      && !Flag(e, DIRTY) && !Flag(e, SIZE) && !Flag(e, GLOBAL) && !Flag(e, EXECUTION_DISABLED)
  {
  }

  lemma LeafBits(address: bv64, flags: bv64, user: bool, writeable: bool)
    ensures var e := BuildLeafEntryValue(address, flags, user, writeable);
      && PutTogether(e, address, flags)
      && Flag(e, PRESENT) && Flag(e, WRITEABLE) == writeable && Flag(e, USER) == user
      && Flag(e, WRITE_THROUGH) == Flag(flags, WRITE_THROUGH) && Flag(e, CACHE_DISABLED) == Flag(flags, CACHE_DISABLED)
      && Flag(e, ACCESSED) == Flag(flags, ACCESSED) && Flag(e, DIRTY) == Flag(flags, DIRTY)
      && Flag(e, SIZE) == Flag(flags, SIZE) && Flag(e, GLOBAL) == Flag(flags, GLOBAL) && !Flag(e, EXECUTION_DISABLED)
  {
  }

  lemma SanitizedBits(v: bv64)
    ensures var e := SanitizeNonPresentCopiedEntry(v);
      && PutTogether(e, v, v)
      && !Flag(e, PRESENT) && Flag(e, WRITEABLE) == Flag(v, WRITEABLE) && Flag(e, USER) == Flag(v, USER)
      && Flag(e, WRITE_THROUGH) == Flag(v, WRITE_THROUGH) && Flag(e, CACHE_DISABLED) == Flag(v, CACHE_DISABLED)
      && Flag(e, ACCESSED) == Flag(v, ACCESSED) && Flag(e, DIRTY) == Flag(v, DIRTY)
      && Flag(e, SIZE) == Flag(v, SIZE) && Flag(e, GLOBAL) == Flag(v, GLOBAL) && !Flag(e, EXECUTION_DISABLED)
  {
  }

  /** The masks of a table entry do what BuildNonLeaf does to its fields. */
  lemma NonLeafDecoded(address: bv64, flags: bv64, user: bool)
    ensures Decode(BuildNonLeafEntryValue(address, flags, user)) == BuildNonLeaf(FrameOf(address), Decode(flags), user)
  {
    hide Number, Flag, From9, From12, From52, PutTogether, BuildNonLeafEntryValue, FrameOf;
    NonLeafBits(address, flags, user);
    WideFields(BuildNonLeafEntryValue(address, flags, user), address, flags);
  }

  /** The masks of a leaf do what BuildLeaf does to its fields. */
  lemma LeafDecoded(address: bv64, flags: bv64, user: bool, writeable: bool)
    ensures Decode(BuildLeafEntryValue(address, flags, user, writeable))
            == BuildLeaf(FrameOf(address), Decode(flags), user, writeable)
  {
    hide Number, Flag, From9, From12, From52, PutTogether, BuildLeafEntryValue, FrameOf;
    LeafBits(address, flags, user, writeable);
    WideFields(BuildLeafEntryValue(address, flags, user, writeable), address, flags);
  }

  /** The masks of a sanitized entry do what Sanitize does to its fields. */
  lemma SanitizedDecoded(v: bv64)
    ensures Decode(SanitizeNonPresentCopiedEntry(v)) == Sanitize(Decode(v))
  {
    hide Number, Flag, From9, From12, From52, PutTogether, SanitizeNonPresentCopiedEntry;
    SanitizedBits(v);
    WideFields(SanitizeNonPresentCopiedEntry(v), v, v);
    Pow2At20();
    NumberModulo(From12(v), 20, 40);
    NumberModulo(From12(v), 20, 52);
  }

  lemma ValidBits(a: bv64)
    ensures IsValidLeafPhysicalAddress(a) <==>
      PageAligned(a) && From12(a) != 0 && Meet(From12(a), 0xF_FFFF) == From12(a)
    ensures Meet(From12(a), 0xF_FFFF_FFFF_FFFF) == From12(a)
    ensures Meet(Meet(From12(a), 0xF_FFFF), 0xF_FFFF_FFFF_FFFF) == Meet(From12(a), 0xF_FFFF)
    ensures Meet(0, 0xF_FFFF_FFFF_FFFF) == 0
  {
  }

  lemma SmallNumber(x: bv64)
    requires Meet(x, 0xF_FFFF_FFFF_FFFF) == x && Meet(Meet(x, 0xF_FFFF), 0xF_FFFF_FFFF_FFFF) == Meet(x, 0xF_FFFF)
    ensures Number(x, 52) < SUPPORTED_FRAMES <==> Meet(x, 0xF_FFFF) == x
  {
    hide Number, Ones, Meet;
    OnesValues();
    Pow2At20();
    NumberModulo(x, 20, 52);
    NumberMasked(x, 20, 52);
    if Number(x, 52) < SUPPORTED_FRAMES {
      NumberInjective(Meet(x, 0xF_FFFF), x, 52);
    }
  }

  lemma ZeroNumber(x: bv64)
    requires Meet(x, 0xF_FFFF_FFFF_FFFF) == x && Meet(0, 0xF_FFFF_FFFF_FFFF) == 0
    ensures Number(x, 52) == 0 <==> x == 0
  {
    hide Number, Ones, Meet;
    OnesValues();
    NumberOfZero(52);
    if Number(x, 52) == 0 {
      NumberInjective(x, 0, 52);
    }
  }

  /** A page-aligned address passes the check exactly if its frame number does. */
  lemma ValidLeafAddress(address: bv64)
    ensures IsValidLeafPhysicalAddress(address) <==> PageAligned(address) && IsValidLeafFrame(FrameOf(address))
  {
    hide Number, Meet, From12, IsValidLeafPhysicalAddress, PageAligned;
    ValidBits(address);
    SmallNumber(From12(address));
    ZeroNumber(From12(address));
  }
}
