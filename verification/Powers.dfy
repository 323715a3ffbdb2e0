/** Powers of two, alignment and the bitwise exclusive-or on naturals. */
module Powers {

  function Pow2(k: nat): (r: nat)
    ensures r > 0
  {
    if k == 0 then 1 else 2 * Pow2(k - 1)
  }

  lemma {:induction false} Pow2Monotone(j: nat, k: nat)
    requires j <= k
    ensures Pow2(j) <= Pow2(k)
    ensures j < k ==> 2 * Pow2(j) <= Pow2(k)
    decreases k
  {
    if j < k {
      Pow2Monotone(j, k - 1);
    }
  }

  lemma Pow2At20()
    ensures Pow2(20) == 0x100000
  {
    assert Pow2(5) == 32;
    assert Pow2(10) == 1024;
    assert Pow2(15) == 0x8000;
  }

  /** i is a multiple of 2^k: its k low bits are zero. */
  predicate Aligned(k: nat, i: nat) {
    k == 0 || (i % 2 == 0 && Aligned(k - 1, i / 2))
  }

  /** The program tests alignment with the remainder operator. */
  lemma {:induction false} AlignedIsRemainder(k: nat, i: nat)
    ensures Aligned(k, i) <==> i % Pow2(k) == 0
    decreases k
  {
    if k > 0 {
      AlignedIsRemainder(k - 1, i / 2);
      RemainderOfDouble(i, Pow2(k - 1));
    }
  }

  lemma RemainderOfDouble(i: nat, p: nat)
    requires p > 0
    ensures i % (2 * p) == 2 * ((i / 2) % p) + i % 2
  {
    var q, r := (i / 2) / p, (i / 2) % p;
    assert i / 2 == q * p + r;
    assert i == q * (2 * p) + (2 * r + i % 2);
    RemainderUnique(i, 2 * p, q, 2 * r + i % 2);
  }

  lemma RemainderUnique(a: nat, d: nat, q: nat, r: nat)
    requires 0 <= r < d && a == q * d + r
    ensures a / d == q && a % d == r
  {
    QuotientUnique(d, a / d, a % d, q, r);
  }

  lemma QuotientUnique(d: nat, q: nat, r: nat, q': nat, r': nat)
    requires r < d && r' < d && q * d + r == q' * d + r'
    ensures q == q' && r == r'
  {
    if q < q' {
      MultipleAtLeast(q' - q, d);
    } else if q' < q {
      MultipleAtLeast(q - q', d);
    }
  }

  lemma MultipleAtLeast(n: nat, d: nat)
    requires n > 0
    ensures n * d >= d
  {
  }

  lemma {:induction false} ZeroAligned(k: nat)
    ensures Aligned(k, 0)
  {
    if k > 0 {
      ZeroAligned(k - 1);
    }
  }

  lemma {:induction false} AlignedDown(j: nat, k: nat, i: nat)
    requires j <= k && Aligned(k, i)
    ensures Aligned(j, i)
    decreases k
  {
    if j > 0 {
      AlignedDown(j - 1, k - 1, i / 2);
    }
  }

  lemma {:induction false} AlignedPlus(k: nat, i: nat)
    requires Aligned(k, i)
    ensures Aligned(k, i + Pow2(k))
    ensures i >= Pow2(k) ==> Aligned(k, i - Pow2(k))
    decreases k
  {
    if k > 0 {
      AlignedPlus(k - 1, i / 2);
    }
  }

  /** Distinct aligned numbers lie at least one block apart. */
  lemma {:induction false} AlignedGap(k: nat, i: nat, j: nat)
    requires Aligned(k, i) && Aligned(k, j) && i < j
    ensures i + Pow2(k) <= j
    decreases k
  {
    if k > 0 {
      AlignedGap(k - 1, i / 2, j / 2);
    }
  }

  /** Of the two halves of a double block exactly one starts at an aligned place. */
  lemma {:induction false} AlignedUp(k: nat, i: nat)
    requires Aligned(k, i)
    ensures !Aligned(k + 1, i) ==> i >= Pow2(k) && Aligned(k + 1, i - Pow2(k))
    ensures Aligned(k + 1, i) ==> !Aligned(k + 1, i + Pow2(k))
    decreases k
  {
    if k > 0 {
      AlignedUp(k - 1, i / 2);
    } else {
      assert Aligned(0, i / 2);
    }
  }

  /** Bitwise exclusive or, from the least significant bit up. */
  function Xor(a: nat, b: nat): nat
    decreases a + b
  {
    if a == 0 && b == 0 then 0
    else 2 * Xor(a / 2, b / 2) + (a % 2 + b % 2) % 2
  }

  lemma {:induction false} XorZero(a: nat)
    ensures Xor(a, 0) == a
  {
    if a > 0 {
      XorZero(a / 2);
    }
  }

  /** Exclusive-or with a power of two moves an aligned block to its sibling. */
  lemma {:induction false} XorIsSibling(k: nat, i: nat)
    requires Aligned(k, i)
    ensures Xor(i, Pow2(k)) == if Aligned(k + 1, i) then i + Pow2(k) else i - Pow2(k)
    decreases k
  {
    AlignedUp(k, i);
    if k == 0 {
      XorZero(i / 2);
      assert Aligned(0, i / 2);
    } else {
      XorIsSibling(k - 1, i / 2);
    }
  }
}
