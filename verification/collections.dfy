/**
 * Doctrine's `ArrayCollection` and PHP array helpers, as operations on
 * sequences: membership is identity (`in_array(..., true)`), insertion appends.
 */
module Collections {

  /** No element occurs twice. */
  predicate NoDup<T(==)>(s: seq<T>)
  {
    forall i, j :: 0 <= i < j < |s| ==> s[i] != s[j]
  }

  /** Index of the first occurrence of `x` (PHP `array_search`). */
  function FirstIndex<T(==)>(s: seq<T>, x: T): (i: nat)
    requires x in s
    ensures i < |s| && s[i] == x && x !in s[..i]
    decreases |s|
  {
    if s[0] == x then 0
    else
      var k := FirstIndex(s[1..], x);
      assert s[..k + 1] == [s[0]] + s[1..][..k];
      k + 1
  }

  /** An index holding `x` with no `x` before it is the first index. */
  lemma FirstIndexUnique<T>(s: seq<T>, x: T, i: nat)
    requires i < |s| && s[i] == x && x !in s[..i]
    ensures FirstIndex(s, x) == i
  {
    var k := FirstIndex(s, x);
    assert forall j :: 0 <= j < i ==> s[..i][j] == s[j];
    assert forall j :: 0 <= j < k ==> s[..k][j] == s[j];
  }

  /** Appending elements does not move first occurrences already present, and a new last element is first found at the end. */
  lemma FirstIndexAppend<T>(s: seq<T>, x: T)
    ensures forall y :: y in s ==> FirstIndex(s + [x], y) == FirstIndex(s, y)
    ensures x !in s ==> FirstIndex(s + [x], x) == |s|
  {
    var t := s + [x];
    forall y | y in s
      ensures FirstIndex(t, y) == FirstIndex(s, y)
    {
      var k := FirstIndex(s, y);
      assert t[..k] == s[..k];
      FirstIndexUnique(t, y, k);
    }
    if x !in s {
      assert t[..|s|] == s;
      FirstIndexUnique(t, x, |s|);
    }
  }

  /** `if (!$c->contains($x)) { $c->add($x); }`: add `x` unless already present. */
  function AddIfAbsent<T(==,!new)>(s: seq<T>, x: T): (r: seq<T>)
    ensures x in r
    ensures forall y :: y in r <==> y in s || y == x
    ensures x in s ==> r == s
    ensures x !in s ==> |r| == |s| + 1 && r[..|s|] == s
    ensures NoDup(s) ==> NoDup(r)
  {
    if x in s then s else s + [x]
  }

  /**
   * `$c->removeElement($x)`: removes the first occurrence of `x` and tells
   * whether there was one.
   */
  function RemoveFirst<T(==)>(s: seq<T>, x: T): (r: (seq<T>, bool))
    ensures r.1 <==> x in s
    ensures !r.1 ==> r.0 == s
    ensures r.1 ==> |r.0| == |s| - 1
    ensures r.1 ==> forall j :: 0 <= j < FirstIndex(s, x) ==> r.0[j] == s[j]
    ensures r.1 ==> forall j :: FirstIndex(s, x) <= j < |r.0| ==> r.0[j] == s[j + 1]
    decreases |s|
  {
    if |s| == 0 then (s, false)
    else if s[0] == x then (s[1..], true)
    else
      var rest := RemoveFirst(s[1..], x);
      assert s == [s[0]] + s[1..];
      assert rest.1 ==> FirstIndex(s, x) == FirstIndex(s[1..], x) + 1;
      ([s[0]] + rest.0, rest.1)
  }

  /** Removing an element that was just appended to a collection lacking it gives the collection back. */
  lemma {:induction false} RemoveFirstOfAppended<T>(s: seq<T>, x: T)
    requires x !in s
    ensures RemoveFirst(s + [x], x) == (s, true)
    decreases |s|
  {
    var t := s + [x];
    if |s| == 0 {
      assert t[1..] == [];
    } else {
      var u := s[1..];
      assert t[0] == s[0] && t[1..] == u + [x];
      RemoveFirstOfAppended(u, x);
      assert RemoveFirst(t, x) == ([s[0]] + RemoveFirst(u + [x], x).0, true);
      assert s == [s[0]] + u;
    }
  }

  /** Every element except `x`, in order: the reference for removing `x` from a set-like collection. */
  function Without<T(==,!new)>(s: seq<T>, x: T): (r: seq<T>)
    ensures x !in r
    ensures forall y :: y != x ==> (y in r <==> y in s)
    ensures NoDup(s) ==> NoDup(r)
    decreases |s|
  {
    if |s| == 0 then []
    else if s[0] == x then Without(s[1..], x)
    else
      var t := Without(s[1..], x);
      assert forall j :: 0 < j < |s| ==> s[j] == s[1..][j - 1];
      assert NoDup(s) ==> s[0] !in s[1..] && NoDup(s[1..]);
      [s[0]] + t
  }

  /** On a duplicate-free collection, `removeElement` removes `x` completely and keeps the rest in order. */
  lemma {:induction false} RemoveFirstOfNoDup<T(!new)>(s: seq<T>, x: T)
    requires NoDup(s)
    ensures RemoveFirst(s, x).0 == Without(s, x)
    ensures x !in RemoveFirst(s, x).0
    ensures NoDup(RemoveFirst(s, x).0)
    decreases |s|
  {
    if |s| > 0 {
      assert NoDup(s[1..]) by {
        assert forall i :: 0 <= i < |s| - 1 ==> s[1..][i] == s[i + 1];
      }
      RemoveFirstOfNoDup(s[1..], x);
      if s[0] == x {
        assert x !in s[1..] by {
          assert forall i :: 0 <= i < |s| - 1 ==> s[1..][i] == s[i + 1];
        }
        WithoutAbsent(s[1..], x);
      }
    }
  }

  /** Removing an absent element changes nothing. */
  lemma {:induction false} WithoutAbsent<T(!new)>(s: seq<T>, x: T)
    requires x !in s
    ensures Without(s, x) == s
    decreases |s|
  {
    if |s| > 0 {
      WithoutAbsent(s[1..], x);
      assert s == [s[0]] + s[1..];
    }
  }

  /**
   * First-occurrence de-duplication, as PHP's `array_unique` and the
   * "add unless contained" loop both compute it: the values of `s`, each
   * once, in the order in which they first appear.
   */
  function Distinct<T(==,!new)>(s: seq<T>): (r: seq<T>)
    ensures NoDup(r)
    ensures forall x :: x in r <==> x in s
    ensures forall i, j :: 0 <= i < j < |r| ==> FirstIndex(s, r[i]) < FirstIndex(s, r[j])
    decreases |s|
  {
    if |s| == 0 then []
    else
      var init := s[..|s| - 1];
      var last := s[|s| - 1];
      var d := Distinct(init);
      assert s == init + [last];
      FirstIndexAppend(init, last);
      if last in d then d
      else
        assert forall i :: 0 <= i < |d| ==> FirstIndex(init, d[i]) < |init|;
        d + [last]
  }
  /** Deduplication keeps the relative order of first occurrences. */
  lemma DistinctKeepsOrder<T(!new)>(s: seq<T>, x: T, y: T)
    requires x in s && y in s && FirstIndex(s, x) < FirstIndex(s, y)
    ensures x in Distinct(s) && y in Distinct(s)
    ensures FirstIndex(Distinct(s), x) < FirstIndex(Distinct(s), y)
  {
    var r := Distinct(s);
    var i, j := FirstIndex(r, x), FirstIndex(r, y);
    assert x != y;
    assert i != j;
    assert !(0 <= j < i < |r|);
  }


  /** The elements of `s` that satisfy `p`, in order. */
  function Filter<T(==,!new)>(s: seq<T>, p: T -> bool): (r: seq<T>)
    ensures forall x :: x in r <==> x in s && p(x)
    ensures forall x :: multiset(r)[x] == if p(x) then multiset(s)[x] else 0
    ensures |r| <= |s|
    decreases |s|
  {
    if |s| == 0 then []
    else
      var t := Filter(s[1..], p);
      assert s == [s[0]] + s[1..];
      if p(s[0]) then [s[0]] + t else t
  }
}
