/** Doctrine's `ArrayCollection` operations used on the inverse sides of the
    associations, on sequences of ids. */
module Collections {
  import opened Strings

  /** Appending is associative. */
  lemma AppendAssoc<T>(a: seq<T>, b: seq<T>, c: seq<T>)
    ensures a + b + c == a + (b + c)
  {
  }

  /** The position of the first occurrence of `x` (`array_search`). */
  function IndexOf<T(==)>(s: seq<T>, x: T): (k: nat)
    requires x in s
    ensures k < |s| && s[k] == x && x !in s[..k]
    decreases |s|
  {
    if s[0] == x then 0
    else
      assert x in s[1..] by {
        assert s == [s[0]] + s[1..];
      }
      var k := IndexOf(s[1..], x);
      assert s[..k + 1] == [s[0]] + s[1..][..k];
      k + 1
  }

  /** A position holding `x` with no earlier `x` is the first occurrence. */
  lemma IndexOfUnique<T>(s: seq<T>, x: T, k: nat)
    requires k < |s| && s[k] == x && x !in s[..k]
    ensures IndexOf(s, x) == k
  {
    var m := IndexOf(s, x);
    assert forall i :: 0 <= i < k ==> s[..k][i] == s[i];
    assert forall i :: 0 <= i < m ==> s[..m][i] == s[i];
  }

  /** The first occurrence of a value of a prefix is the same in the whole
      sequence. */
  lemma IndexOfPrefix<T>(s: seq<T>, n: nat, x: T)
    requires n <= |s| && x in s[..n]
    ensures x in s && IndexOf(s, x) == IndexOf(s[..n], x) < n
  {
    var k := IndexOf(s[..n], x);
    assert s[..n][..k] == s[..k];
    IndexOfUnique(s, x, k);
  }

  /** `r` lists its values in the order of their first occurrences in `s`. */
  predicate FirstOccurrenceOrder<T(==)>(s: seq<T>, r: seq<T>)
    requires forall i :: 0 <= i < |r| ==> r[i] in s
  {
    forall i, j :: 0 <= i < j < |r| ==> IndexOf(s, r[i]) < IndexOf(s, r[j])
  }

  /** `array_unique`: keeps the first occurrence of every value, in the
      order those occurrences come. */
  function Dedupe<T(==,!new)>(s: seq<T>): (r: seq<T>)
    ensures forall x :: x in r <==> x in s
    ensures NoDuplicates(r)
    ensures FirstOccurrenceOrder(s, r)
    decreases |s|
  {
    if |s| == 0 then []
    else
      var init := s[..|s| - 1];
      var kept := Dedupe(init);
      var last := s[|s| - 1];
      assert forall x :: x in s <==> x in init || x == last;
      assert forall i :: 0 <= i < |kept| ==> IndexOf(s, kept[i]) == IndexOf(init, kept[i]) < |init| by {
        forall i | 0 <= i < |kept|
          ensures IndexOf(s, kept[i]) == IndexOf(init, kept[i]) < |init|
        {
          IndexOfPrefix(s, |init|, kept[i]);
        }
      }
      if last in kept then kept
      else
        IndexOfUnique(s, last, |init|);
        kept + [last]
  }

  /** `removeElement`: drops the first occurrence of `x`, if any. */
  function RemoveFirst<T(==)>(s: seq<T>, x: T): (r: seq<T>)
    ensures x !in s ==> r == s
    ensures x in s ==> |r| == |s| - 1
    ensures multiset(r) == multiset(s) - multiset{x}
  {
    if x in s then
      var k := IndexOf(s, x);
      assert s == s[..k] + [x] + s[k + 1..];
      s[..k] + s[k + 1..]
    else
      s
  }

  /** Dropping position `k` of a duplicate-free sequence drops exactly
      its element. */
  lemma DropDistinct<T>(s: seq<T>, k: nat)
    requires NoDuplicates(s) && k < |s|
    ensures NoDuplicates(s[..k] + s[k + 1..])
    ensures s[k] !in s[..k] + s[k + 1..]
    ensures forall y :: y != s[k] && y in s ==> y in s[..k] + s[k + 1..]
    ensures forall y :: y in s[..k] + s[k + 1..] ==> y in s
  {
    var r := s[..k] + s[k + 1..];
    assert |r| == |s| - 1;
    assert forall i :: 0 <= i < k ==> r[i] == s[i];
    assert forall i :: k <= i < |r| ==> r[i] == s[i + 1];
    forall y | y in s && y != s[k]
      ensures y in r
    {
      var i :| 0 <= i < |s| && s[i] == y;
      if i < k {
        assert r[i] == y;
      } else {
        assert r[i - 1] == y;
      }
    }
  }

  /** On a duplicate-free sequence, removing `x` removes exactly `x` and
      keeps the rest duplicate-free. */
  lemma RemoveFirstDistinct<T>(s: seq<T>, x: T)
    requires NoDuplicates(s)
    ensures NoDuplicates(RemoveFirst(s, x))
    ensures x !in RemoveFirst(s, x)
    ensures forall y :: y != x ==> (y in RemoveFirst(s, x) <==> y in s)
  {
    if x in s {
      DropDistinct(s, IndexOf(s, x));
    }
  }
}
