/** `CategorieRepository`: category listings, lookup by name, and writes. */
module CategorieRepository {
  import opened Nullable
  import opened Text
  import opened Collections
  import opened Tables
  import opened Ordering
  import opened FormationEntity
  import opened CategorieEntity
  import opened PlaylistEntity
  import opened Store

  /** Category `c` is attached to a formation of playlist `pid` (both inner joins succeed). */
  predicate UsedInPlaylist(db: Db, pid: nat, c: Categorie)
  {
    exists f :: f in db.formations && c.id in f.categories && PlaylistOf(db, f).Some? && PlaylistOf(db, f).value.id == pid
  }

  function UsedInPlaylistIn(db: Db, pid: nat): Categorie -> bool
  {
    (c: Categorie) => UsedInPlaylist(db, pid, c)
  }

  /**
   * `findAllForOnePlaylist`: the categories used by the playlist's
   * formations, each once, by name ascending; unused categories are left out.
   */
  function FindAllForOnePlaylist(db: Db, pid: nat): (r: seq<Categorie>)
    ensures forall c :: c in r <==> c in db.categories && UsedInPlaylist(db, pid, c)
    ensures forall c :: multiset(r)[c] == if UsedInPlaylist(db, pid, c) then multiset(db.categories)[c] else 0
    ensures Sorted(r, CategorieNameKey, Asc)
  {
    var kept := Filter(db.categories, UsedInPlaylistIn(db, pid));
    var r := Sort(kept, CategorieNameKey, Asc);
    SameMembers(r, kept);
    r
  }

  /** `findAllSorted`: every category, by name ascending. */
  function FindAllSorted(db: Db): (r: seq<Categorie>)
    ensures multiset(r) == multiset(db.categories)
    ensures forall c :: c in r <==> c in db.categories
    ensures Sorted(r, CategorieNameKey, Asc)
  {
    var r := Sort(db.categories, CategorieNameKey, Asc);
    SameMembers(r, db.categories);
    r
  }

  /** `LOWER(c.name) = LOWER(:nom)`: a null name matches nothing. */
  predicate NameMatches(name: string, c: Categorie)
  {
    c.name.Some? && SameIgnoringCase(c.name.value, name)
  }

  /** What `getOneOrNullResult` gives: no row, the one row, or an exception for several. */
  datatype Lookup = NotFound | Found(categorie: Categorie) | NonUnique

  /** Row `i` is the only row matching `name`. */
  predicate OnlyMatchAt(rows: seq<Categorie>, name: string, i: int)
  {
    0 <= i < |rows| && NameMatches(name, rows[i])
    && forall j :: 0 <= j < |rows| && j != i ==> !NameMatches(name, rows[j])
  }

  /** `findOneByName` over the rows `rows`. */
  function FindOneByNameIn(rows: seq<Categorie>, name: string): (r: Lookup)
    ensures r.NotFound? <==> forall i :: 0 <= i < |rows| ==> !NameMatches(name, rows[i])
    ensures r.Found? ==> exists i :: OnlyMatchAt(rows, name, i) && rows[i] == r.categorie
    ensures r.NonUnique? <==>
      exists i, j :: 0 <= i < j < |rows| && NameMatches(name, rows[i]) && NameMatches(name, rows[j])
    decreases |rows|
  {
    if |rows| == 0 then NotFound
    else
      var rest := FindOneByNameIn(rows[1..], name);
      if NameMatches(name, rows[0]) then
        var r := if rest.NotFound? then Found(rows[0]) else NonUnique;
        LookupHeadMatches(rows, name, rest, r);
        r
      else
        LookupHeadSkipped(rows, name, rest);
        rest
  }

  /** `r` is what `getOneOrNullResult` gives for the rows matching `name`. */
  ghost predicate LookupOf(rows: seq<Categorie>, name: string, r: Lookup)
  {
    && (r.NotFound? <==> forall i :: 0 <= i < |rows| ==> !NameMatches(name, rows[i]))
    && (r.Found? ==> exists i :: OnlyMatchAt(rows, name, i) && rows[i] == r.categorie)
    && (r.NonUnique? <==>
      exists i, j :: 0 <= i < j < |rows| && NameMatches(name, rows[i]) && NameMatches(name, rows[j]))
  }

  /** A matching first row is the only match when the rest has none, and one of several otherwise. */
  lemma LookupHeadMatches(rows: seq<Categorie>, name: string, rest: Lookup, r: Lookup)
    requires |rows| > 0 && NameMatches(name, rows[0])
    requires LookupOf(rows[1..], name, rest)
    requires r == if rest.NotFound? then Found(rows[0]) else NonUnique
    ensures LookupOf(rows, name, r)
  {
    assert forall i :: 1 <= i < |rows| ==> rows[i] == rows[1..][i - 1];
    if rest.NotFound? {
      assert OnlyMatchAt(rows, name, 0);
    } else {
      var k :| 0 <= k < |rows| - 1 && NameMatches(name, rows[1..][k]);
      assert NameMatches(name, rows[k + 1]);
    }
  }

  /** A first row that does not match changes nothing about the lookup. */
  lemma LookupHeadSkipped(rows: seq<Categorie>, name: string, rest: Lookup)
    requires |rows| > 0 && !NameMatches(name, rows[0])
    requires LookupOf(rows[1..], name, rest)
    ensures LookupOf(rows, name, rest)
  {
    assert forall i :: 1 <= i < |rows| ==> rows[i] == rows[1..][i - 1];
    if rest.Found? {
      var i :| OnlyMatchAt(rows[1..], name, i) && rows[1..][i] == rest.categorie;
      assert OnlyMatchAt(rows, name, i + 1);
    }
    SeveralMatchesInTail(rows, name);
  }

  /** Rows `i < j` both match `name`. */
  predicate SeveralMatch(rows: seq<Categorie>, name: string, i: int, j: int)
  {
    0 <= i < j < |rows| && NameMatches(name, rows[i]) && NameMatches(name, rows[j])
  }

  /** When the first row does not match, two matches lie in the rest. */
  lemma SeveralMatchesInTail(rows: seq<Categorie>, name: string)
    requires |rows| > 0 && !NameMatches(name, rows[0])
    ensures (exists i, j :: SeveralMatch(rows, name, i, j)) <==> (exists i, j :: SeveralMatch(rows[1..], name, i, j))
  {
    if exists i, j :: SeveralMatch(rows, name, i, j) {
      var i, j :| SeveralMatch(rows, name, i, j);
      assert rows[1..][i - 1] == rows[i] && rows[1..][j - 1] == rows[j];
      assert SeveralMatch(rows[1..], name, i - 1, j - 1);
    }
    if exists i, j :: SeveralMatch(rows[1..], name, i, j) {
      var i, j :| SeveralMatch(rows[1..], name, i, j);
      assert SeveralMatch(rows, name, i + 1, j + 1);
    }
  }

  /**
   * `findOneByName`: the category whose name equals `name` once both are
   * lower-cased; null when there is none.
   */
  function FindOneByName(db: Db, name: string): (r: Lookup)
    ensures r.NotFound? <==> forall c :: c in db.categories ==> !NameMatches(name, c)
    ensures r.Found? ==> r.categorie in db.categories && NameMatches(name, r.categorie)
    ensures r.Found? ==> forall c :: c in db.categories && NameMatches(name, c) ==> c == r.categorie
    ensures r.NonUnique? ==> WellFormed(db) ==>
      exists c, d :: c in db.categories && d in db.categories && c.id != d.id && NameMatches(name, c) && NameMatches(name, d)
  {
    var r := FindOneByNameIn(db.categories, name);
    LookupByMembership(db, name, r);
    r
  }

  /** The index-level characterisation of a lookup, restated over the rows as a collection. */
  lemma LookupByMembership(db: Db, name: string, r: Lookup)
    requires LookupOf(db.categories, name, r)
    ensures r.NotFound? <==> forall c :: c in db.categories ==> !NameMatches(name, c)
    ensures r.Found? ==> r.categorie in db.categories && NameMatches(name, r.categorie)
    ensures r.Found? ==> forall c :: c in db.categories && NameMatches(name, c) ==> c == r.categorie
    ensures r.NonUnique? ==> WellFormed(db) ==>
      exists c, d :: c in db.categories && d in db.categories && c.id != d.id && NameMatches(name, c) && NameMatches(name, d)
  {
    var rows := db.categories;
    if r.Found? {
      var i :| OnlyMatchAt(rows, name, i) && rows[i] == r.categorie;
      forall c | c in rows && NameMatches(name, c)
        ensures c == r.categorie
      {
        var k :| 0 <= k < |rows| && rows[k] == c;
      }
    }
    if r.NonUnique? && WellFormed(db) {
      var i, j :| 0 <= i < j < |rows| && NameMatches(name, rows[i]) && NameMatches(name, rows[j]);
      assert rows[i].id != rows[j].id;
    }
  }

  /** Looking up a stored name, in any case, finds that category when no other shares it. */
  lemma FindOneByNameFindsStored(db: Db, c: Categorie, name: string)
    requires c in db.categories && c.name.Some? && SameIgnoringCase(c.name.value, name)
    requires forall d :: d in db.categories && NameMatches(name, d) ==> d == c
    requires WellFormed(db)
    ensures FindOneByName(db, name) == Found(c)
  {
    var r := FindOneByName(db, name);
    assert NameMatches(name, c);
    assert !r.NotFound?;
  }

  /** `add`: stores the category; its formation list is what the formations point at. */
  function Add(db: Db, c: Categorie): (r: Db)
    requires WellFormed(db)
    ensures WellFormed(r) && Hydrated(r)
    ensures r.formations == db.formations
    ensures HasId(r.categories, c.id, CategorieId)
    ensures LoadCategorie(r, c) in r.categories
    ensures OtherCategoriesKept(db, r, c.id)
    ensures PlaylistsKept(db, r)
    ensures |r.categories| == |db.categories| + (if HasId(db.categories, c.id, CategorieId) then 0 else 1)
    ensures Integrity(db) ==> Integrity(r)
  {
    var rows := Upsert(db.categories, c, CategorieId);
    UpsertKeepsKeys(db.categories, c, CategorieId);
    var written := db.(categories := rows);
    assert Integrity(db) ==> Integrity(written);
    Sync(written)
  }

  /** A formation with the category's join-table rows deleted. */
  function Unfile(f: Formation, cid: nat): (r: Formation)
    ensures r == f.(categories := r.categories)
    ensures cid !in r.categories
    ensures forall x :: x != cid ==> (x in r.categories <==> x in f.categories)
    ensures NoDup(f.categories) ==> NoDup(r.categories)
  {
    f.(categories := Without(f.categories, cid))
  }

  /** Every formation with the category's join-table rows deleted. */
  function UnfileAll(fs: seq<Formation>, cid: nat): (r: seq<Formation>)
    ensures |r| == |fs|
    ensures forall i :: 0 <= i < |fs| ==> r[i] == Unfile(fs[i], cid)
    ensures UniqueIds(fs, FormationId) ==> UniqueIds(r, FormationId)
  {
    seq(|fs|, i requires 0 <= i < |fs| => Unfile(fs[i], cid))
  }

  /** Deleting a category with its join-table rows keeps every remaining foreign key valid. */
  lemma UnfileKeepsIntegrity(db: Db, cid: nat)
    requires WellFormed(db) && Integrity(db)
    ensures Integrity(Db(UnfileAll(db.formations, cid), db.playlists, Delete(db.categories, cid, CategorieId)))
  {
    var fs := UnfileAll(db.formations, cid);
    var written := Db(fs, db.playlists, Delete(db.categories, cid, CategorieId));
    forall f | f in fs
      ensures References(written, f)
    {
      var i :| 0 <= i < |fs| && fs[i] == f;
      assert References(db, db.formations[i]);
      forall x | x in f.categories
        ensures HasId(written.categories, x, CategorieId)
      {
        var k :| 0 <= k < |db.categories| && db.categories[k].id == x;
        assert db.categories[k] in written.categories;
        var m :| 0 <= m < |written.categories| && written.categories[m] == db.categories[k];
      }
    }
  }

  /**
   * `remove`: deletes the category's row and its join-table rows, so no
   * formation is filed under it any more.
   */
  function Remove(db: Db, c: Categorie): (r: Db)
    requires WellFormed(db)
    ensures WellFormed(r) && Hydrated(r)
    ensures !HasId(r.categories, c.id, CategorieId)
    ensures |r.categories| == |db.categories| - (if HasId(db.categories, c.id, CategorieId) then 1 else 0)
    ensures |r.formations| == |db.formations|
    ensures forall i :: 0 <= i < |db.formations| ==> r.formations[i] == Unfile(db.formations[i], c.id)
    ensures OtherCategoriesKept(db, r, c.id) && PlaylistsKept(db, r)
    ensures Integrity(db) ==> Integrity(r)
  {
    if Integrity(db) then UnfileKeepsIntegrity(db, c.id); RemoveRows(db, c.id)
    else RemoveRows(db, c.id)
  }

  function RemoveRows(db: Db, cid: nat): Db
    requires WellFormed(db)
  {
    Sync(Db(UnfileAll(db.formations, cid), db.playlists, Delete(db.categories, cid, CategorieId)))
  }
}
