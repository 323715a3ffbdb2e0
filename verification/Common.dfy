/** What several components share. */
module Common {

  datatype Option<+T> = None | Some(value: T)

  function Smaller(a: nat, b: nat): nat {
    if a < b then a else b
  }

  function Larger(a: nat, b: nat): nat {
    if a < b then b else a
  }

  /** How much of what is wanted goes short. */
  function Short(wanted: nat, available: nat): nat {
    if wanted <= available then 0 else wanted - available
  }

  ghost predicate NoDuplicates<T>(s: seq<T>) {
    forall a, b | 0 <= a < b < |s| :: s[a] != s[b]
  }

  /** A sequence without the first occurrence of x. */
  function Without<T(==)>(s: seq<T>, x: T): (r: seq<T>)
    ensures x !in s ==> r == s
  {
    if s == [] then []
    else if s[0] == x then s[1..]
    else [s[0]] + Without(s[1..], x)
  }

  lemma {:induction false} WithoutElements<T>(s: seq<T>, x: T)
    requires NoDuplicates(s)
    ensures NoDuplicates(Without(s, x))
    ensures forall y | y in Without(s, x) :: y in s && y != x
    ensures forall y | y in s && y != x :: y in Without(s, x)
    ensures x in s ==> |Without(s, x)| == |s| - 1
  {
    if s != [] && s[0] != x {
      var t := s[1..];
      assert forall a | 0 <= a < |t| :: t[a] == s[a + 1];
      WithoutElements(t, x);
      assert forall y | y in s :: y == s[0] || y in t;
      assert s[0] !in t;
    } else if s != [] {
      assert forall a | 0 <= a < |s[1..]| :: s[1..][a] == s[a + 1];
      assert forall y | y in s :: y == s[0] || y in s[1..];
    }
  }

  lemma {:induction false} WithoutAt<T>(s: seq<T>, j: nat)
    requires j < |s| && NoDuplicates(s)
    ensures Without(s, s[j]) == s[..j] + s[j + 1..]
    decreases j
  {
    if j > 0 {
      var t := s[1..];
      assert forall a | 0 <= a < |t| :: t[a] == s[a + 1];
      WithoutAt(t, j - 1);
      assert s[..j] + s[j + 1..] == [s[0]] + (t[..j - 1] + t[j..]);
    }
  }
}
