/** The contents of a kernel list as a sequence, first element first. */
module Lists {
  ghost predicate NoDuplicates<T>(s: seq<T>) {
    forall i, j :: 0 <= i < j < |s| ==> s[i] != s[j]
  }

  /** The sequence without the first occurrence of x. */
  function Without<T(==)>(s: seq<T>, x: T): (r: seq<T>)
  {
    if s == [] then [] else if s[0] == x then s[1..] else [s[0]] + Without(s[1..], x)
  }

  lemma {:induction false} WithoutRemoves<T>(s: seq<T>, x: T)
    requires x in s && NoDuplicates(s)
    ensures |Without(s, x)| == |s| - 1 && NoDuplicates(Without(s, x))
    ensures forall y :: y in Without(s, x) <==> y in s && y != x
  {
    if s[0] != x {
      var r := Without(s[1..], x);
      WithoutRemoves(s[1..], x);
      assert s[0] !in s[1..];
      assert Without(s, x) == [s[0]] + r;
      forall y ensures y in [s[0]] + r <==> y in s && y != x {
        assert y in s <==> y == s[0] || y in s[1..];
      }
    }
  }

  /** Removing the element at position k cuts it out. */
  lemma {:induction false} WithoutAt<T>(s: seq<T>, k: nat)
    requires k < |s| && NoDuplicates(s)
    ensures Without(s, s[k]) == s[..k] + s[k + 1..]
  {
    if k > 0 {
      assert s[0] != s[k];
      WithoutAt(s[1..], k - 1);
    }
  }
}
