/**
 * `ORDER BY` as the queries use it: a sort key per row, an ascending or
 * descending direction, and sorting that keeps every row. Ties among equal
 * keys are left in an order the database does not promise.
 */
module Ordering {
  import opened Nullable

  /**
   * A column value as ORDER BY sees it. `Null` sorts before every value
   * (MySQL's rule); non-null values compare lexicographically as integer
   * sequences: numbers as one-element sequences, dates field by field,
   * strings code point by code point.
   */
  datatype Key = Null | Lex(items: seq<int>)

  /** `ASC` or `DESC`. */
  datatype Order = Asc | Desc

  /** Lexicographic order on integer sequences; a prefix comes first. */
  predicate LexLe(a: seq<int>, b: seq<int>)
    decreases |a|
  {
    |a| == 0 || (|b| > 0 && (a[0] < b[0] || (a[0] == b[0] && LexLe(a[1..], b[1..]))))
  }

  lemma {:induction false} LexLeReflexive(a: seq<int>)
    ensures LexLe(a, a)
    decreases |a|
  {
    if |a| > 0 {
      LexLeReflexive(a[1..]);
    }
  }

  lemma {:induction false} LexLeTotal(a: seq<int>, b: seq<int>)
    ensures LexLe(a, b) || LexLe(b, a)
    decreases |a|
  {
    if |a| > 0 && |b| > 0 && a[0] == b[0] {
      LexLeTotal(a[1..], b[1..]);
    }
  }

  lemma {:induction false} LexLeTransitive(a: seq<int>, b: seq<int>, c: seq<int>)
    requires LexLe(a, b) && LexLe(b, c)
    ensures LexLe(a, c)
    decreases |a|
  {
    if |a| > 0 && a[0] == b[0] && b[0] == c[0] {
      LexLeTransitive(a[1..], b[1..], c[1..]);
    }
  }

  lemma {:induction false} LexLeAntisymmetric(a: seq<int>, b: seq<int>)
    requires LexLe(a, b) && LexLe(b, a)
    ensures a == b
    decreases |a|
  {
    if |a| > 0 {
      LexLeAntisymmetric(a[1..], b[1..]);
      assert a == [a[0]] + a[1..] && b == [b[0]] + b[1..];
    }
  }

  /** The database's comparison of two column values. */
  predicate KeyLe(a: Key, b: Key)
  {
    a.Null? || (b.Lex? && LexLe(a.items, b.items))
  }

  /** `a` may come before `b` in a result ordered by `o`. */
  predicate Precedes(a: Key, b: Key, o: Order)
  {
    if o == Asc then KeyLe(a, b) else KeyLe(b, a)
  }

  /** Key comparison is a total order, so each direction is one too. */
  lemma PrecedesTotalOrder(o: Order)
    ensures forall a :: Precedes(a, a, o)
    ensures forall a, b :: Precedes(a, b, o) || Precedes(b, a, o)
    ensures forall a, b :: Precedes(a, b, o) && Precedes(b, a, o) ==> a == b
    ensures forall a, b, c :: Precedes(a, b, o) && Precedes(b, c, o) ==> Precedes(a, c, o)
  {
    forall a ensures Precedes(a, a, o) {
      if a.Lex? { LexLeReflexive(a.items); }
    }
    forall a, b ensures Precedes(a, b, o) || Precedes(b, a, o) {
      if a.Lex? && b.Lex? { LexLeTotal(a.items, b.items); }
    }
    forall a, b | Precedes(a, b, o) && Precedes(b, a, o) ensures a == b {
      if a.Lex? && b.Lex? { LexLeAntisymmetric(a.items, b.items); }
    }
    forall a, b, c | Precedes(a, b, o) && Precedes(b, c, o) ensures Precedes(a, c, o) {
      PrecedesTransitive(a, b, c, o);
    }
  }

  lemma PrecedesTransitive(a: Key, b: Key, c: Key, o: Order)
    requires Precedes(a, b, o) && Precedes(b, c, o)
    ensures Precedes(a, c, o)
  {
    if o == Asc && a.Lex? {
      LexLeTransitive(a.items, b.items, c.items);
    } else if o == Desc && c.Lex? {
      LexLeTransitive(c.items, b.items, a.items);
    }
  }

  lemma PrecedesTotal(a: Key, b: Key, o: Order)
    ensures Precedes(a, b, o) || Precedes(b, a, o)
  {
    if a.Lex? && b.Lex? { LexLeTotal(a.items, b.items); }
  }

  /** A number as a sort key (an id, a count). */
  function IntKey(n: int): Key
  {
    Lex([n])
  }

  /** Number keys compare as the numbers do. */
  lemma IntKeyOrder(m: int, n: int)
    ensures Precedes(IntKey(m), IntKey(n), Asc) <==> m <= n
    ensures Precedes(IntKey(m), IntKey(n), Desc) <==> m >= n
  {
    assert [m][1..] == [] && [n][1..] == [];
    assert LexLe([m][1..], [n][1..]) && LexLe([n][1..], [m][1..]);
    assert LexLe([m], [n]) <==> m <= n;
    assert LexLe([n], [m]) <==> n <= m;
  }

  /** A nullable string column as a sort key, compared by code point. */
  function TextKey(s: Option<string>): Key
  {
    match s
    case None => Null
    case Some(t) => Lex(seq(|t|, i requires 0 <= i < |t| => t[i] as int))
  }

  /** The rows of `s` appear in the order `o` of their keys. */
  predicate Sorted<T>(s: seq<T>, key: T -> Key, o: Order)
  {
    forall i, j :: 0 <= i < j < |s| ==> Precedes(key(s[i]), key(s[j]), o)
  }

  /** A head that precedes every row of a sorted tail gives a sorted sequence. */
  lemma SortedCons<T>(h: T, t: seq<T>, key: T -> Key, o: Order)
    requires Sorted(t, key, o)
    requires forall y :: y in t ==> Precedes(key(h), key(y), o)
    ensures Sorted([h] + t, key, o)
  {
    var s := [h] + t;
    forall i, j | 0 <= i < j < |s|
      ensures Precedes(key(s[i]), key(s[j]), o)
    {
      assert s[j] == t[j - 1];
      if i > 0 {
        assert s[i] == t[i - 1];
      }
    }
  }

  /** A row that precedes the first row of a sorted sequence precedes all of it. */
  lemma PrecedesSorted<T>(x: T, s: seq<T>, key: T -> Key, o: Order)
    requires Sorted(s, key, o) && |s| > 0
    requires Precedes(key(x), key(s[0]), o)
    ensures forall y :: y in s ==> Precedes(key(x), key(y), o)
  {
    forall y | y in s
      ensures Precedes(key(x), key(y), o)
    {
      var k :| 0 <= k < |s| && s[k] == y;
      if k > 0 {
        PrecedesTransitive(key(x), key(s[0]), key(y), o);
      }
    }
  }

  /** What the head of a sorted sequence precedes survives inserting one more row it precedes. */
  lemma PrecedesInserted<T(!new)>(h: T, t: seq<T>, x: T, r: seq<T>, key: T -> Key, o: Order)
    requires forall y :: y in t ==> Precedes(key(h), key(y), o)
    requires Precedes(key(h), key(x), o)
    requires multiset(r) == multiset(t) + multiset{x}
    ensures forall y :: y in r ==> Precedes(key(h), key(y), o)
  {
    forall y | y in r
      ensures Precedes(key(h), key(y), o)
    {
      assert y in multiset(r);
      assert y == x || y in multiset(t);
    }
  }

  /** Inserts `x` into a sorted sequence, before the first row it precedes. */
  function Insert<T(!new)>(x: T, s: seq<T>, key: T -> Key, o: Order): (r: seq<T>)
    requires Sorted(s, key, o)
    ensures multiset(r) == multiset(s) + multiset{x}
    ensures Sorted(r, key, o)
    decreases |s|
  {
    if |s| == 0 then [x]
    else if Precedes(key(x), key(s[0]), o) then
      PrecedesSorted(x, s, key, o);
      SortedCons(x, s, key, o);
      [x] + s
    else
      assert s == [s[0]] + s[1..];
      var rest := Insert(x, s[1..], key, o);
      PrecedesTotal(key(x), key(s[0]), o);
      assert forall y :: y in s[1..] ==> Precedes(key(s[0]), key(y), o) by {
        forall y | y in s[1..]
          ensures Precedes(key(s[0]), key(y), o)
        {
          var k :| 0 <= k < |s| - 1 && s[1..][k] == y;
          assert s[k + 1] == y;
        }
      }
      PrecedesInserted(s[0], s[1..], x, rest, key, o);
      SortedCons(s[0], rest, key, o);
      [s[0]] + rest
  }

  /** `ORDER BY key o`: the same rows, ordered. */
  function Sort<T(!new)>(s: seq<T>, key: T -> Key, o: Order): (r: seq<T>)
    ensures multiset(r) == multiset(s)
    ensures Sorted(r, key, o)
    decreases |s|
  {
    if |s| == 0 then []
    else
      assert s == [s[0]] + s[1..];
      Insert(s[0], Sort(s[1..], key, o), key, o)
  }

  /**
   * A prefix of a sorted arrangement of `all` takes rows from `all` and
   * leaves out only rows that its own rows precede.
   */
  lemma SortedPrefixIsTop<T(!new)>(all: seq<T>, s: seq<T>, n: nat, key: T -> Key, o: Order)
    requires multiset(s) == multiset(all) && Sorted(s, key, o) && n <= |s|
    ensures forall x :: multiset(s[..n])[x] <= multiset(all)[x]
    ensures forall x, y :: x in s[..n] && y in all && y !in s[..n] ==> Precedes(key(x), key(y), o)
  {
    var r := s[..n];
    assert s == r + s[n..];
    assert multiset(s) == multiset(r) + multiset(s[n..]);
    assert forall k :: 0 <= k < n ==> s[k] in r;
    forall x, y | x in r && y in all && y !in r
      ensures Precedes(key(x), key(y), o)
    {
      assert y in multiset(s);
      var i :| 0 <= i < n && r[i] == x;
      var j :| 0 <= j < |s| && s[j] == y;
      assert j >= n;
    }
  }

  /** Same multiset, same members. */
  lemma SameMembers<T>(a: seq<T>, b: seq<T>)
    requires multiset(a) == multiset(b)
    ensures forall x :: x in a <==> x in b
  {
    forall x
      ensures x in a <==> x in b
    {
      assert x in a <==> x in multiset(a);
      assert x in b <==> x in multiset(b);
    }
  }

  /**
   * The key among `keys` that ordering by `o` meets first: the least for
   * `Asc`, the greatest for `Desc`.
   */
  function BestKey(keys: seq<Key>, o: Order): (k: Key)
    requires |keys| > 0
    ensures k in keys
    ensures forall j :: 0 <= j < |keys| ==> Precedes(k, keys[j], o)
    decreases |keys|
  {
    if |keys| == 1 then
      PrecedesTotalOrder(o);
      keys[0]
    else
      var b := BestKey(keys[1..], o);
      assert forall j :: 1 <= j < |keys| ==> keys[j] == keys[1..][j - 1];
      PrecedesTotalOrder(o);
      if Precedes(keys[0], b, o) then keys[0] else b
  }
}
