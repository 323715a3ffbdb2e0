/**
 How the free lists are stored: a head address for each order, and in the first
 word of every free block the address of the next one. Address 0 ends a list.
 */
module FreeListLinks {
  import opened Common
  import opened Powers
  import opened FreeLists

  const PAGE_SIZE := 4096

  function AddressOf(base: nat, page: nat): nat {
    base + page * PAGE_SIZE
  }

  /** The address of entry j of list s, or 0 past its end. */
  function EntryAddress(base: nat, s: seq<nat>, j: nat): nat {
    if j < |s| then AddressOf(base, s[j]) else 0
  }

  ghost predicate Linked(base: nat, heads: seq<nat>, next: map<nat, nat>, L: Lists) {
    && |heads| == MAX_BUDDY_ORDERS
    && (forall k | 0 <= k < MAX_BUDDY_ORDERS :: heads[k] == EntryAddress(base, L[k], 0))
    && (forall k | 0 <= k < MAX_BUDDY_ORDERS :: Chained(base, next, L[k]))
  }

  /** Every entry of list s leads to the one after it. */
  ghost predicate Chained(base: nat, next: map<nat, nat>, s: seq<nat>) {
    forall j | 0 <= j < |s| ::
      AddressOf(base, s[j]) in next && next[AddressOf(base, s[j])] == EntryAddress(base, s, j + 1)
  }

  /** No page starts two listed blocks. */
  ghost predicate Distinct(L: Lists) {
    forall k, j, k', j' | 0 <= k < MAX_BUDDY_ORDERS && 0 <= j < |L[k]| &&
                          0 <= k' < MAX_BUDDY_ORDERS && 0 <= j' < |L[k']| && L[k][j] == L[k'][j'] ::
      k == k' && j == j'
  }

  lemma CanonicalDistinct(L: Lists, free: set<nat>, top: nat)
    requires Canonical(L, free, top)
    ensures Distinct(L)
  {
    forall k, j, k', j' | 0 <= k < MAX_BUDDY_ORDERS && 0 <= j < |L[k]| &&
                          0 <= k' < MAX_BUDDY_ORDERS && 0 <= j' < |L[k']| && L[k][j] == L[k'][j']
      ensures k == k' && j == j'
    {
      assert L[k][j] in L[k] && L[k'][j'] in L[k'];
      MaximalDisjoint(free, top, k, L[k][j], k', L[k'][j'], L[k][j]);
    }
  }

  /** Writing the link of a page changes no list that the page is not on. */
  lemma ChainedElsewhere(base: nat, next: map<nat, nat>, s: seq<nat>, page: nat, target: nat)
    requires Chained(base, next, s) && page !in s
    ensures Chained(base, next[AddressOf(base, page) := target], s)
  {
    hide EntryAddress;
    assert forall j | 0 <= j < |s| :: s[j] != page;
  }

  /** Linking a new block in front. */
  lemma PushLinked(base: nat, heads: seq<nat>, next: map<nat, nat>, L: Lists, k: nat, i: nat)
    requires Linked(base, heads, next, L) && k < MAX_BUDDY_ORDERS
    requires forall k', j | 0 <= k' < MAX_BUDDY_ORDERS && 0 <= j < |L[k']| :: L[k'][j] != i
    ensures Linked(base, heads[k := AddressOf(base, i)], next[AddressOf(base, i) := heads[k]], Push(L, k, i))
  {
    var L', next' := Push(L, k, i), next[AddressOf(base, i) := heads[k]];
    forall k' | 0 <= k' < MAX_BUDDY_ORDERS
      ensures Chained(base, next', L'[k'])
    {
      ChainedElsewhere(base, next, L[k'], i, heads[k]);
      if k' == k { ChainedPush(base, next', L[k], i); }
    }
  }

  lemma ChainedPush(base: nat, next: map<nat, nat>, s: seq<nat>, i: nat)
    requires Chained(base, next, s)
    requires AddressOf(base, i) in next && next[AddressOf(base, i)] == EntryAddress(base, s, 0)
    ensures Chained(base, next, [i] + s)
  {
    var t := [i] + s;
    assert forall j | 0 < j < |t| :: t[j] == s[j - 1];
  }

  /** Unlinking the first block. */
  lemma PopLinked(base: nat, heads: seq<nat>, next: map<nat, nat>, L: Lists, k: nat)
    requires Linked(base, heads, next, L) && k < MAX_BUDDY_ORDERS && L[k] != []
    ensures AddressOf(base, L[k][0]) in next
    ensures Linked(base, heads[k := next[AddressOf(base, L[k][0])]], next, L[k := L[k][1..]])
  {
    hide AddressOf;
    assert Chained(base, next, L[k]);
    assert forall j | 0 <= j < |L[k][1..]| :: L[k][1..][j] == L[k][j + 1];
  }

  /** Unlinking a later block by redirecting its predecessor's link. */
  lemma UnlinkLinked(base: nat, heads: seq<nat>, next: map<nat, nat>, L: Lists, k: nat, j: nat)
    requires Linked(base, heads, next, L) && Distinct(L) && k < MAX_BUDDY_ORDERS && 0 < j < |L[k]|
    ensures AddressOf(base, L[k][j]) in next
    ensures Linked(base, heads, next[AddressOf(base, L[k][j - 1]) := next[AddressOf(base, L[k][j])]],
                   L[k := L[k][..j] + L[k][j + 1..]])
  {
    hide AddressOf, Chained, EntryAddress;
    assert Chained(base, next, L[k]);
    ListDistinct(L, k);
    ChainedUnlink(base, next, L[k], j);
    HeadWithout(base, L[k], j);
    var page, target := L[k][j - 1], next[AddressOf(base, L[k][j])];
    forall k' | 0 <= k' < MAX_BUDDY_ORDERS && k' != k
      ensures Chained(base, next[AddressOf(base, page) := target], L[k'])
    {
      assert Chained(base, next, L[k']);
      assert page !in L[k'];
      ChainedElsewhere(base, next, L[k'], page, target);
    }
  }

  lemma ListDistinct(L: Lists, k: nat)
    requires Distinct(L) && k < MAX_BUDDY_ORDERS
    ensures NoDuplicates(L[k])
  {
  }

  lemma HeadAt(base: nat, heads: seq<nat>, next: map<nat, nat>, L: Lists, k: nat)
    requires Linked(base, heads, next, L) && k < MAX_BUDDY_ORDERS
    ensures |heads| == MAX_BUDDY_ORDERS && heads[k] == EntryAddress(base, L[k], 0)
  {
  }

  lemma LinkAt(base: nat, heads: seq<nat>, next: map<nat, nat>, L: Lists, k: nat, j: nat)
    requires Linked(base, heads, next, L) && k < MAX_BUDDY_ORDERS && j < |L[k]|
    ensures AddressOf(base, L[k][j]) in next && next[AddressOf(base, L[k][j])] == EntryAddress(base, L[k], j + 1)
  {
    assert Chained(base, next, L[k]);
  }

  lemma HeadWithout(base: nat, s: seq<nat>, j: nat)
    requires 0 < j < |s|
    ensures EntryAddress(base, s[..j] + s[j + 1..], 0) == EntryAddress(base, s, 0)
  {
  }

  /** The link of entry i of a list that entry j was taken out of. */
  lemma EntryUnlinked(base: nat, next: map<nat, nat>, s: seq<nat>, j: nat, i: nat, target: nat)
    requires 0 < j < |s| && i + 1 < |s| && target == EntryAddress(base, s, j + 1)
    requires var o := if i < j then i else i + 1;
      && AddressOf(base, s[o]) in next && next[AddressOf(base, s[o])] == EntryAddress(base, s, o + 1)
      && (o != j - 1 ==> s[o] != s[j - 1])
    ensures var t, next' := s[..j] + s[j + 1..], next[AddressOf(base, s[j - 1]) := target];
      AddressOf(base, t[i]) in next' && next'[AddressOf(base, t[i])] == EntryAddress(base, t, i + 1)
  {
  }

  lemma ChainedUnlink(base: nat, next: map<nat, nat>, s: seq<nat>, j: nat)
    requires Chained(base, next, s) && NoDuplicates(s) && 0 < j < |s|
    ensures AddressOf(base, s[j]) in next
    ensures Chained(base, next[AddressOf(base, s[j - 1]) := next[AddressOf(base, s[j])]], s[..j] + s[j + 1..])
  {
    hide AddressOf, EntryAddress;
    var t := s[..j] + s[j + 1..];
    var target := next[AddressOf(base, s[j])];
    var next' := next[AddressOf(base, s[j - 1]) := target];
    forall i | 0 <= i < |t|
      ensures AddressOf(base, t[i]) in next' && next'[AddressOf(base, t[i])] == EntryAddress(base, t, i + 1)
    {
      var o := if i < j then i else i + 1;
      assert AddressOf(base, s[o]) in next;
      EntryUnlinked(base, next, s, j, i, target);
    }
  }

  lemma UnlistAt(L: Lists, k: nat, j: nat)
    requires k < MAX_BUDDY_ORDERS && j < |L[k]| && NoDuplicates(L[k])
    ensures Unlist(L, k, L[k][j]) == L[k := L[k][..j] + L[k][j + 1..]]
    ensures j == 0 ==> L[k][..j] + L[k][j + 1..] == L[k][1..]
  {
    WithoutAt(L[k], j);
  }

  lemma UnlistAbsent(L: Lists, k: nat, i: nat)
    requires k < MAX_BUDDY_ORDERS && i !in L[k]
    ensures Unlist(L, k, i) == L
  {
  }
}
