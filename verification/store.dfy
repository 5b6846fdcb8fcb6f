/**
 * The database the repositories query: one table per entity, rows in
 * insertion order. The owning sides (`Formation.playlist`,
 * `Formation.categories`) are what is stored; the inverse collections
 * (`Playlist.formations`, `Categorie.formations`) are what loading an entity
 * reads back from them.
 */
module Store {
  import opened Nullable
  import opened Collections
  import opened Tables
  import opened FormationEntity
  import opened CategorieEntity
  import opened PlaylistEntity

  datatype Db = Db(formations: seq<Formation>, playlists: seq<Playlist>, categories: seq<Categorie>)

  /** Primary keys are unique in every table. */
  predicate WellFormed(db: Db)
  {
    UniqueIds(db.formations, FormationId)
    && UniqueIds(db.playlists, PlaylistId)
    && UniqueIds(db.categories, CategorieId)
  }

  /**
   * The foreign keys of a formation name existing rows, and its join-table
   * rows are distinct (the join table's key is the pair of ids).
   */
  predicate References(db: Db, f: Formation)
  {
    (f.playlist.Some? ==> HasId(db.playlists, f.playlist.value, PlaylistId))
    && (forall cid :: cid in f.categories ==> HasId(db.categories, cid, CategorieId))
    && NoDup(f.categories)
  }

  /** Referential integrity of the whole formation table. */
  predicate Integrity(db: Db)
  {
    forall f :: f in db.formations ==> References(db, f)
  }

  /** Ids of the formations pointing at playlist `pid`, in table order. */
  function MembersOfPlaylist(fs: seq<Formation>, pid: nat): (ids: seq<nat>)
    ensures forall id :: id in ids <==> exists f :: f in fs && f.playlist == Some(pid) && f.id == id
    ensures UniqueIds(fs, FormationId) ==> NoDup(ids)
    decreases |fs|
  {
    if |fs| == 0 then []
    else
      var rest := MembersOfPlaylist(fs[1..], pid);
      assert fs == [fs[0]] + fs[1..];
      assert UniqueIds(fs, FormationId) ==> UniqueIds(fs[1..], FormationId) && fs[0].id !in rest by {
        if UniqueIds(fs, FormationId) {
          forall f | f in fs[1..]
            ensures f.id != fs[0].id
          {
            var k :| 0 <= k < |fs| - 1 && fs[1..][k] == f;
            assert fs[k + 1] == f;
          }
          assert forall k :: 0 <= k < |fs| - 1 ==> fs[1..][k] == fs[k + 1];
        }
      }
      if fs[0].playlist == Some(pid) then [fs[0].id] + rest else rest
  }


  /** Ids of the formations filed under category `cid`, in table order. */
  function MembersOfCategorie(fs: seq<Formation>, cid: nat): (ids: seq<nat>)
    ensures forall id :: id in ids <==> exists f :: f in fs && cid in f.categories && f.id == id
    ensures UniqueIds(fs, FormationId) ==> NoDup(ids)
    decreases |fs|
  {
    if |fs| == 0 then []
    else
      var rest := MembersOfCategorie(fs[1..], cid);
      assert fs == [fs[0]] + fs[1..];
      assert UniqueIds(fs, FormationId) ==> UniqueIds(fs[1..], FormationId) && fs[0].id !in rest by {
        if UniqueIds(fs, FormationId) {
          forall f | f in fs[1..]
            ensures f.id != fs[0].id
          {
            var k :| 0 <= k < |fs| - 1 && fs[1..][k] == f;
            assert fs[k + 1] == f;
          }
          assert forall k :: 0 <= k < |fs| - 1 ==> fs[1..][k] == fs[k + 1];
        }
      }
      if cid in fs[0].categories then [fs[0].id] + rest else rest
  }


  /** The formation points at playlist `pid`. */
  function PointsAt(pid: nat): Formation -> bool
  {
    (f: Formation) => f.playlist == Some(pid)
  }

  /** A playlist has as many members as formations point at it. */
  lemma {:induction false} MembersOfPlaylistCount(fs: seq<Formation>, pid: nat)
    ensures |MembersOfPlaylist(fs, pid)| == |Filter(fs, PointsAt(pid))|
    decreases |fs|
  {
    if |fs| > 0 {
      MembersOfPlaylistCount(fs[1..], pid);
    }
  }

  /** `COUNT(f.id)` over a playlist's left-joined formations. */
  function NbFormations(db: Db, pid: nat): nat
  {
    |MembersOfPlaylist(db.formations, pid)|
  }

  /** A playlist as loading it from `db` gives it: its collection read from the owning side. */
  function LoadPlaylist(db: Db, p: Playlist): Playlist
  {
    p.(formations := MembersOfPlaylist(db.formations, p.id))
  }

  /** A category as loading it from `db` gives it. */
  function LoadCategorie(db: Db, c: Categorie): Categorie
  {
    c.(formations := MembersOfCategorie(db.formations, c.id))
  }

  /** Every stored inverse collection is the one the owning sides determine. */
  predicate Hydrated(db: Db)
  {
    (forall p :: p in db.playlists ==> p == LoadPlaylist(db, p))
    && (forall c :: c in db.categories ==> c == LoadCategorie(db, c))
  }

  /**
   * `r` holds `db`'s playlist table row for row, each playlist with its
   * collection re-read from `r`: a write that leaves the playlists alone.
   */
  predicate PlaylistsKept(db: Db, r: Db)
  {
    |r.playlists| == |db.playlists|
    && forall i :: 0 <= i < |db.playlists| ==> r.playlists[i] == LoadPlaylist(r, db.playlists[i])
  }

  /** `r` holds `db`'s category table row for row, each category reloaded from `r`. */
  predicate CategoriesKept(db: Db, r: Db)
  {
    |r.categories| == |db.categories|
    && forall i :: 0 <= i < |db.categories| ==> r.categories[i] == LoadCategorie(r, db.categories[i])
  }

  /** Every playlist of `db` but the one keyed `id` is in `r`, reloaded from `r`. */
  predicate OtherPlaylistsKept(db: Db, r: Db, id: nat)
  {
    forall q :: q in db.playlists && q.id != id ==> LoadPlaylist(r, q) in r.playlists
  }

  /** Every category of `db` but the one keyed `id` is in `r`, reloaded from `r`. */
  predicate OtherCategoriesKept(db: Db, r: Db, id: nat)
  {
    forall d :: d in db.categories && d.id != id ==> LoadCategorie(r, d) in r.categories
  }

  /**
   * The store after a flush: the inverse collections re-read from the owning
   * sides, every column and key otherwise kept.
   */
  function Sync(db: Db): (r: Db)
    ensures r.formations == db.formations
    ensures |r.playlists| == |db.playlists|
    ensures forall i :: 0 <= i < |db.playlists| ==> r.playlists[i] == LoadPlaylist(db, db.playlists[i])
    ensures |r.categories| == |db.categories|
    ensures forall i :: 0 <= i < |db.categories| ==> r.categories[i] == LoadCategorie(db, db.categories[i])
    ensures PlaylistsKept(db, r) && CategoriesKept(db, r)
    ensures forall q :: q in db.playlists ==> LoadPlaylist(r, q) in r.playlists
    ensures forall d :: d in db.categories ==> LoadCategorie(r, d) in r.categories
    ensures Hydrated(r)
    ensures WellFormed(db) ==> WellFormed(r)
    ensures forall id :: HasId(r.playlists, id, PlaylistId) <==> HasId(db.playlists, id, PlaylistId)
    ensures forall id :: HasId(r.categories, id, CategorieId) <==> HasId(db.categories, id, CategorieId)
    ensures Integrity(db) ==> Integrity(r)
  {
    ReloadKeepsKeys(db);
    ReloadKeepsRows(db);
    Reload(db)
  }

  /** The inverse collections of every playlist and category re-read from `db`'s formations. */
  function Reload(db: Db): (r: Db)
    ensures r.formations == db.formations
    ensures |r.playlists| == |db.playlists|
    ensures forall i :: 0 <= i < |db.playlists| ==> r.playlists[i] == LoadPlaylist(db, db.playlists[i])
    ensures |r.categories| == |db.categories|
    ensures forall i :: 0 <= i < |db.categories| ==> r.categories[i] == LoadCategorie(db, db.categories[i])
  {
    Db(db.formations,
       seq(|db.playlists|, i requires 0 <= i < |db.playlists| => LoadPlaylist(db, db.playlists[i])),
       seq(|db.categories|, i requires 0 <= i < |db.categories| => LoadCategorie(db, db.categories[i])))
  }

  /** Reloading keeps every key, and with them uniqueness and integrity; the result is loaded. */
  lemma ReloadKeepsKeys(db: Db)
    ensures Hydrated(Reload(db))
    ensures WellFormed(db) ==> WellFormed(Reload(db))
    ensures forall id :: HasId(Reload(db).playlists, id, PlaylistId) <==> HasId(db.playlists, id, PlaylistId)
    ensures forall id :: HasId(Reload(db).categories, id, CategorieId) <==> HasId(db.categories, id, CategorieId)
    ensures Integrity(db) ==> Integrity(Reload(db))
  {
    var r := Reload(db);
    assert forall i :: 0 <= i < |r.playlists| ==> r.playlists[i].id == db.playlists[i].id;
    assert forall i :: 0 <= i < |r.categories| ==> r.categories[i].id == db.categories[i].id;
  }

  /** Reloading keeps every row, each with its collection re-read. */
  lemma ReloadKeepsRows(db: Db)
    ensures PlaylistsKept(db, Reload(db)) && CategoriesKept(db, Reload(db))
    ensures forall q :: q in db.playlists ==> LoadPlaylist(Reload(db), q) in Reload(db).playlists
    ensures forall d :: d in db.categories ==> LoadCategorie(Reload(db), d) in Reload(db).categories
  {
    var r := Reload(db);
    forall q | q in db.playlists
      ensures LoadPlaylist(r, q) in r.playlists
    {
      var k :| 0 <= k < |db.playlists| && db.playlists[k] == q;
      assert r.playlists[k] == LoadPlaylist(r, q);
    }
    forall d | d in db.categories
      ensures LoadCategorie(r, d) in r.categories
    {
      var k :| 0 <= k < |db.categories| && db.categories[k] == d;
      assert r.categories[k] == LoadCategorie(r, d);
    }
  }


  /** Loading a store twice is loading it once. */
  lemma SyncIdempotent(db: Db)
    ensures Sync(Sync(db)) == Sync(db)
  {
  }

  /** `$formation->getPlaylist()`: the row the foreign key names, if any. */
  function PlaylistOf(db: Db, f: Formation): (r: Option<Playlist>)
    ensures r.Some? ==> r.value in db.playlists && f.playlist == Some(r.value.id)
    ensures f.playlist.None? ==> r.None?
    ensures Integrity(db) && f in db.formations ==> (r.Some? <==> f.playlist.Some?)
  {
    match f.playlist
    case None => None
    case Some(pid) => FindById(db.playlists, pid, PlaylistId)
  }

  /** The category rows named by `cids`, in collection order; unknown ids name nothing. */
  function CategoriesOfIds(db: Db, cids: seq<nat>): (r: seq<Categorie>)
    ensures forall c :: c in r ==> c in db.categories && c.id in cids
    ensures UniqueIds(db.categories, CategorieId) ==>
      forall c :: c in db.categories && c.id in cids ==> c in r
    decreases |cids|
  {
    if |cids| == 0 then []
    else
      var rest := CategoriesOfIds(db, cids[1..]);
      assert cids == [cids[0]] + cids[1..];
      var found := FindById(db.categories, cids[0], CategorieId);
      assert UniqueIds(db.categories, CategorieId) ==>
        forall c :: c in db.categories && c.id == cids[0] ==> found == Some(c) by {
        if UniqueIds(db.categories, CategorieId) {
          forall c | c in db.categories && c.id == cids[0]
            ensures found == Some(c)
          {
            FindOwnRow(db.categories, c, CategorieId);
          }
        }
      }
      match found
      case None => rest
      case Some(c) => [c] + rest
  }

  /** `$formation->getCategories()` as the inner join sees it. */
  function CategoriesOf(db: Db, f: Formation): seq<Categorie>
  {
    CategoriesOfIds(db, f.categories)
  }

  /**
   * A loaded store satisfies the entity-level invariants: every playlist
   * owns exactly the formations pointing at it, and both sides of each
   * category link agree.
   */
  lemma HydratedLinks(db: Db, p: Playlist, c: Categorie, f: Formation)
    requires WellFormed(db) && Integrity(db) && Hydrated(db)
    requires p in db.playlists && c in db.categories && f in db.formations
    ensures Owns(p, f)
    ensures Linked(c, f)
  {
    assert p.formations == MembersOfPlaylist(db.formations, p.id);
    assert c.formations == MembersOfCategorie(db.formations, c.id);
    assert References(db, f);
    if f.id in p.formations {
      var g :| g in db.formations && g.playlist == Some(p.id) && g.id == f.id;
      SameIdSameRow(db.formations, f, g);
    }
    if f.id in c.formations {
      var g :| g in db.formations && c.id in g.categories && g.id == f.id;
      SameIdSameRow(db.formations, f, g);
    }
  }

  /** With unique keys, two rows with the same key are the same row. */
  lemma SameIdSameRow(fs: seq<Formation>, f: Formation, g: Formation)
    requires UniqueIds(fs, FormationId) && f in fs && g in fs && f.id == g.id
    ensures f == g
  {
    FindOwnRow(fs, f, FormationId);
    FindOwnRow(fs, g, FormationId);
  }
}
