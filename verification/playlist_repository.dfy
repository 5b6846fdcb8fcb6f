/**
 * `PlaylistRepository`: playlist listings. Every query left-joins the
 * playlist's formations and groups by playlist id, so each playlist
 * appears at most once, with or without formations.
 */
module PlaylistRepository {
  import opened Nullable
  import opened Text
  import opened Collections
  import opened Tables
  import opened Ordering
  import opened FormationEntity
  import opened CategorieEntity
  import opened PlaylistEntity
  import opened Store

  /** `findAllOrderByName`: every playlist once, sorted on its name. */
  function FindAllOrderByName(db: Db, o: Order): (r: seq<Playlist>)
    ensures multiset(r) == multiset(db.playlists)
    ensures forall p :: p in r <==> p in db.playlists
    ensures Sorted(r, PlaylistNameKey, o)
  {
    var r := Sort(db.playlists, PlaylistNameKey, o);
    SameMembers(r, db.playlists);
    r
  }

  /** `ORDER BY COUNT(f.id)`: a playlist's number of formations as a sort key. */
  function CountKey(db: Db): Playlist -> Key
  {
    (p: Playlist) => IntKey(NbFormations(db, p.id))
  }

  /**
   * `findAllOrderByNbFormations`: every playlist once, including those
   * without formations, ordered on how many formations point at it.
   */
  function FindAllOrderByNbFormations(db: Db, o: Order): (r: seq<Playlist>)
    ensures multiset(r) == multiset(db.playlists)
    ensures forall p :: p in r <==> p in db.playlists
    ensures forall i, j :: 0 <= i < j < |r| && o == Asc ==> NbFormations(db, r[i].id) <= NbFormations(db, r[j].id)
    ensures forall i, j :: 0 <= i < j < |r| && o == Desc ==> NbFormations(db, r[i].id) >= NbFormations(db, r[j].id)
  {
    var r := Sort(db.playlists, CountKey(db), o);
    SameMembers(r, db.playlists);
    forall i, j | 0 <= i < j < |r|
      ensures o == Asc ==> NbFormations(db, r[i].id) <= NbFormations(db, r[j].id)
      ensures o == Desc ==> NbFormations(db, r[i].id) >= NbFormations(db, r[j].id)
    {
      IntKeyOrder(NbFormations(db, r[i].id), NbFormations(db, r[j].id));
    }
    r
  }

  /** Where the searched column lives: on the playlist, or on a category of one of its formations. */
  datatype Target = OnPlaylist(field: PlaylistField) | OnCategories(categorieField: CategorieField)

  /** The `WHERE ... LIKE '%value%'` condition of the search. */
  predicate Matches(db: Db, target: Target, value: string, p: Playlist)
  {
    match target
    case OnPlaylist(field) => LikeContains(PlaylistText(field, p), value)
    case OnCategories(field) =>
      exists f, c :: f in db.formations && f.playlist == Some(p.id) && c in CategoriesOf(db, f)
        && LikeContains(CategorieText(field, c), value)
  }

  function MatchesIn(db: Db, target: Target, value: string): Playlist -> bool
  {
    (p: Playlist) => Matches(db, target, value, p)
  }

  /** PHP's `$valeur == ""`: a missing or empty search value. */
  predicate IsEmptyValue(value: Option<string>)
  {
    value.None? || value.value == ""
  }

  /**
   * `findByContainValue`: for an empty value, every playlist by name
   * ascending; otherwise the matching playlists, each once, by name ascending.
   */
  function FindByContainValue(db: Db, target: Target, value: Option<string>): (r: seq<Playlist>)
    ensures IsEmptyValue(value) ==> r == FindAllOrderByName(db, Asc)
    ensures !IsEmptyValue(value) ==>
      forall p :: p in r <==> p in db.playlists && Matches(db, target, value.value, p)
    ensures !IsEmptyValue(value) ==>
      forall p :: multiset(r)[p] == if Matches(db, target, value.value, p) then multiset(db.playlists)[p] else 0
    ensures Sorted(r, PlaylistNameKey, Asc)
  {
    if IsEmptyValue(value) then FindAllOrderByName(db, Asc)
    else
      var kept := Filter(db.playlists, MatchesIn(db, target, value.value));
      var r := Sort(kept, PlaylistNameKey, Asc);
      SameMembers(r, kept);
      r
  }

  /** Some formation of the playlist is filed under a category row whose column contains the value. */
  predicate HoldsMatchingCategory(db: Db, field: CategorieField, value: string, p: Playlist)
  {
    exists f, c ::
      f in db.formations && f.playlist == Some(p.id) && c in db.categories && c.id in f.categories
      && LikeContains(CategorieText(field, c), value)
  }

  /**
   * A category search finds the playlists holding a formation filed under a
   * category whose column contains the value.
   */
  lemma SearchByCategory(db: Db, field: CategorieField, value: string, p: Playlist)
    requires WellFormed(db) && value != ""
    ensures p in FindByContainValue(db, OnCategories(field), Some(value)) <==>
      p in db.playlists && HoldsMatchingCategory(db, field, value, p)
  {
    if p in db.playlists && HoldsMatchingCategory(db, field, value, p) {
      var f, c :|
        f in db.formations && f.playlist == Some(p.id) && c in db.categories && c.id in f.categories
        && LikeContains(CategorieText(field, c), value);
      assert c in CategoriesOf(db, f);
    }
  }

  /** `add`: stores the playlist; its formation list is what the formations point at. */
  function Add(db: Db, p: Playlist): (r: Db)
    requires WellFormed(db)
    ensures WellFormed(r) && Hydrated(r)
    ensures r.formations == db.formations
    ensures LoadPlaylist(r, p) in r.playlists
    ensures OtherPlaylistsKept(db, r, p.id)
    ensures CategoriesKept(db, r)
    ensures |r.playlists| == |db.playlists| + (if HasId(db.playlists, p.id, PlaylistId) then 0 else 1)
    ensures Integrity(db) ==> Integrity(r)
  {
    var rows := Upsert(db.playlists, p, PlaylistId);
    UpsertKeepsKeys(db.playlists, p, PlaylistId);
    var written := db.(playlists := rows);
    assert Integrity(db) ==> Integrity(written);
    Sync(written)
  }

  /**
   * `remove`: deletes the playlist's row; the foreign key of a formation
   * still pointing at it makes the delete fail.
   */
  function Remove(db: Db, p: Playlist): (r: Option<Db>)
    requires WellFormed(db)
    ensures r.None? <==> exists f :: f in db.formations && f.playlist == Some(p.id)
    ensures r.Some? ==> WellFormed(r.value) && Hydrated(r.value) && r.value.formations == db.formations
    ensures r.Some? ==> !HasId(r.value.playlists, p.id, PlaylistId)
    ensures r.Some? ==> |r.value.playlists| == |db.playlists| - (if HasId(db.playlists, p.id, PlaylistId) then 1 else 0)
    ensures r.Some? ==> OtherPlaylistsKept(db, r.value, p.id) && CategoriesKept(db, r.value)
    ensures r.Some? && Integrity(db) ==> Integrity(r.value)
  {
    if exists f :: f in db.formations && f.playlist == Some(p.id) then None
    else
      var written := db.(playlists := Delete(db.playlists, p.id, PlaylistId));
      if Integrity(db) then
        UnusedDeleteKeepsIntegrity(db, p.id);
        Some(Sync(written))
      else Some(Sync(written))
  }

  /** Deleting a playlist no formation points at leaves every foreign key valid. */
  lemma UnusedDeleteKeepsIntegrity(db: Db, pid: nat)
    requires WellFormed(db) && Integrity(db)
    requires forall f :: f in db.formations ==> f.playlist != Some(pid)
    ensures Integrity(db.(playlists := Delete(db.playlists, pid, PlaylistId)))
  {
    var rows := Delete(db.playlists, pid, PlaylistId);
    var written := db.(playlists := rows);
    forall f | f in written.formations
      ensures References(written, f)
    {
      assert References(db, f);
      if f.playlist.Some? {
        var k :| 0 <= k < |db.playlists| && db.playlists[k].id == f.playlist.value;
        assert db.playlists[k] in rows;
        var m :| 0 <= m < |rows| && rows[m] == db.playlists[k];
      }
    }
  }
}
