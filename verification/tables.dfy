/**
 * A database table as the sequence of its rows in insertion order, with
 * the entity manager's single-row writes: `persist` + `flush` (insert or
 * update) and `remove` + `flush` (delete).
 */
module Tables {
  import opened Nullable

  /** The primary key is unique across the table. */
  predicate UniqueIds<T>(rows: seq<T>, idOf: T -> nat)
  {
    forall i, j :: 0 <= i < j < |rows| ==> idOf(rows[i]) != idOf(rows[j])
  }

  /** Some row has primary key `id`. */
  predicate HasId<T>(rows: seq<T>, id: nat, idOf: T -> nat)
  {
    exists i :: 0 <= i < |rows| && idOf(rows[i]) == id
  }

  /** `$repository->find($id)`: the row with that key, or null. */
  function FindById<T>(rows: seq<T>, id: nat, idOf: T -> nat): (r: Option<T>)
    ensures r.Some? <==> HasId(rows, id, idOf)
    ensures r.Some? ==> r.value in rows && idOf(r.value) == id
    decreases |rows|
  {
    if |rows| == 0 then None
    else if idOf(rows[0]) == id then Some(rows[0])
    else
      var r := FindById(rows[1..], id, idOf);
      assert HasId(rows, id, idOf) ==> HasId(rows[1..], id, idOf) by {
        if HasId(rows, id, idOf) {
          var i :| 0 <= i < |rows| && idOf(rows[i]) == id;
          assert idOf(rows[1..][i - 1]) == id;
        }
      }
      assert HasId(rows[1..], id, idOf) ==> HasId(rows, id, idOf) by {
        if HasId(rows[1..], id, idOf) {
          var i :| 0 <= i < |rows| - 1 && idOf(rows[1..][i]) == id;
          assert idOf(rows[i + 1]) == id;
        }
      }
      r
  }

  /** In a table with unique keys, a row is what `find` returns for its own key. */
  lemma FindOwnRow<T>(rows: seq<T>, x: T, idOf: T -> nat)
    requires UniqueIds(rows, idOf)
    requires x in rows
    ensures FindById(rows, idOf(x), idOf) == Some(x)
  {
    var r := FindById(rows, idOf(x), idOf);
    var i :| 0 <= i < |rows| && rows[i] == x;
    assert HasId(rows, idOf(x), idOf);
    var j :| 0 <= j < |rows| && rows[j] == r.value;
    assert i == j;
  }

  /** Every row whose key is `idOf(x)` replaced by `x`. */
  function Replace<T>(rows: seq<T>, x: T, idOf: T -> nat): (r: seq<T>)
    ensures |r| == |rows|
    ensures forall i :: 0 <= i < |rows| ==> r[i] == if idOf(rows[i]) == idOf(x) then x else rows[i]
  {
    seq(|rows|, i requires 0 <= i < |rows| => if idOf(rows[i]) == idOf(x) then x else rows[i])
  }

  /**
   * `persist($x); flush()`: updates the row with `x`'s key, or inserts `x`
   * as a new row when no row has that key.
   */
  function Upsert<T>(rows: seq<T>, x: T, idOf: T -> nat): (r: seq<T>)
    requires UniqueIds(rows, idOf)
    ensures UniqueIds(r, idOf)
    ensures x in r
    ensures forall i :: 0 <= i < |r| ==> r[i] == x || (r[i] in rows && idOf(r[i]) != idOf(x))
    ensures forall y :: y in rows && idOf(y) != idOf(x) ==> y in r
    ensures |r| == if HasId(rows, idOf(x), idOf) then |rows| else |rows| + 1
  {
    if HasId(rows, idOf(x), idOf) then
      var r := Replace(rows, x, idOf);
      var k :| 0 <= k < |rows| && idOf(rows[k]) == idOf(x);
      assert r[k] == x;
      r
    else
      rows + [x]
  }

  /** `persist` never loses a key that was already stored. */
  lemma UpsertKeepsKeys<T>(rows: seq<T>, x: T, idOf: T -> nat)
    requires UniqueIds(rows, idOf)
    ensures forall id :: HasId(rows, id, idOf) ==> HasId(Upsert(rows, x, idOf), id, idOf)
  {
    var r := Upsert(rows, x, idOf);
    assert HasId(r, idOf(x), idOf) by {
      var k :| 0 <= k < |r| && r[k] == x;
    }
    forall id | HasId(rows, id, idOf)
      ensures HasId(r, id, idOf)
    {
      var k :| 0 <= k < |rows| && idOf(rows[k]) == id;
      if id != idOf(x) {
        assert rows[k] in r;
        var m :| 0 <= m < |r| && r[m] == rows[k];
      }
    }
  }

  /** `remove($x); flush()`: deletes the row whose key is `id`. */
  function Delete<T>(rows: seq<T>, id: nat, idOf: T -> nat): (r: seq<T>)
    requires UniqueIds(rows, idOf)
    ensures UniqueIds(r, idOf)
    ensures !HasId(r, id, idOf)
    ensures forall i :: 0 <= i < |r| ==> r[i] in rows
    ensures forall y :: y in rows && idOf(y) != id ==> y in r
    ensures |r| == if HasId(rows, id, idOf) then |rows| - 1 else |rows|
    decreases |rows|
  {
    if |rows| == 0 then rows
    else if idOf(rows[0]) == id then
      DeleteHead(rows, id, idOf);
      rows[1..]
    else
      var t := Delete(rows[1..], id, idOf);
      DeleteCons(rows, id, idOf, t);
      [rows[0]] + t
  }

  /** `r` is `rows` without the row keyed `id`. */
  ghost predicate DeletedFrom<T>(rows: seq<T>, id: nat, idOf: T -> nat, r: seq<T>)
  {
    && UniqueIds(r, idOf)
    && !HasId(r, id, idOf)
    && (forall i :: 0 <= i < |r| ==> r[i] in rows)
    && (forall y :: y in rows && idOf(y) != id ==> y in r)
    && |r| == if HasId(rows, id, idOf) then |rows| - 1 else |rows|
  }

  /** Deleting the key of the first row drops exactly that row. */
  lemma DeleteHead<T>(rows: seq<T>, id: nat, idOf: T -> nat)
    requires |rows| > 0 && UniqueIds(rows, idOf) && idOf(rows[0]) == id
    ensures DeletedFrom(rows, id, idOf, rows[1..])
  {
    TailFacts(rows, id, idOf);
    assert rows == [rows[0]] + rows[1..];
    assert forall i :: 0 <= i < |rows| - 1 ==> rows[1..][i] in rows;
  }

  /** Deleting another key keeps the first row in front of the rest's deletion. */
  lemma DeleteCons<T>(rows: seq<T>, id: nat, idOf: T -> nat, t: seq<T>)
    requires |rows| > 0 && UniqueIds(rows, idOf) && idOf(rows[0]) != id
    requires UniqueIds(t, idOf) && !HasId(t, id, idOf)
    requires forall i :: 0 <= i < |t| ==> t[i] in rows[1..]
    requires forall y :: y in rows[1..] && idOf(y) != id ==> y in t
    requires |t| == if HasId(rows[1..], id, idOf) then |rows| - 2 else |rows| - 1
    ensures DeletedFrom(rows, id, idOf, [rows[0]] + t)
  {
    TailFacts(rows, id, idOf);
    var r := [rows[0]] + t;
    assert rows == [rows[0]] + rows[1..];
    assert forall i :: 1 <= i < |r| ==> r[i] == t[i - 1];
    assert forall i :: 0 <= i < |t| ==> idOf(t[i]) != idOf(rows[0]);
  }

  /** What the first row of a table with unique keys tells about the rest. */
  lemma TailFacts<T>(rows: seq<T>, id: nat, idOf: T -> nat)
    requires |rows| > 0 && UniqueIds(rows, idOf)
    ensures UniqueIds(rows[1..], idOf)
    ensures HasId(rows, id, idOf) <==> idOf(rows[0]) == id || HasId(rows[1..], id, idOf)
    ensures idOf(rows[0]) == id ==> !HasId(rows[1..], id, idOf)
    ensures forall y :: y in rows[1..] ==> idOf(y) != idOf(rows[0])
  {
    assert forall i :: 0 <= i < |rows| - 1 ==> rows[1..][i] == rows[i + 1];
    if HasId(rows, id, idOf) && idOf(rows[0]) != id {
      var k :| 0 <= k < |rows| && idOf(rows[k]) == id;
      assert idOf(rows[1..][k - 1]) == id;
    }
  }

  /** The key an auto-increment column hands to the next insert: above every key in use. */
  function NextId<T>(rows: seq<T>, idOf: T -> nat): (id: nat)
    ensures forall i :: 0 <= i < |rows| ==> idOf(rows[i]) < id
    ensures !HasId(rows, id, idOf)
    decreases |rows|
  {
    if |rows| == 0 then 1
    else
      var rest := NextId(rows[1..], idOf);
      assert forall i :: 1 <= i < |rows| ==> rows[i] == rows[1..][i - 1];
      if idOf(rows[0]) < rest then rest else idOf(rows[0]) + 1
  }
}
