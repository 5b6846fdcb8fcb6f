/** `AdminPlaylistsController`: deleting a playlist only when it holds no formation. */
module AdminPlaylistsController {
  import opened Nullable
  import opened Tables
  import opened PlaylistEntity
  import opened Store
  import opened Responses
  import FormationRepository
  import PlaylistRepository

  /**
   * `suppr`: when the playlist has no formations it is removed with a
   * success message; otherwise the store is kept and a danger message
   * shown. An unknown id reaches `remove(null)`, a fatal error.
   */
  function Suppr(db: Db, id: nat): (r: (Outcome, Db))
    requires WellFormed(db)
    ensures r.0 == Fatal <==> !HasId(db.playlists, id, PlaylistId)
    ensures !HasId(db.playlists, id, PlaylistId) ==> |FormationRepository.FindAllForOnePlaylist(db, id)| == 0
    ensures r.0 == Flashed(Success) <==> HasId(db.playlists, id, PlaylistId) && |FormationRepository.FindAllForOnePlaylist(db, id)| == 0
    ensures r.0 == Flashed(Success) ==>
      !HasId(r.1.playlists, id, PlaylistId) && |r.1.playlists| == |db.playlists| - 1
      && r.1.formations == db.formations && WellFormed(r.1)
      && OtherPlaylistsKept(db, r.1, id) && CategoriesKept(db, r.1)
    ensures r.0 != Flashed(Success) ==> r.1 == db
  {
    var found := FindById(db.playlists, id, PlaylistId);
    var formations := FormationRepository.FindAllForOnePlaylist(db, id);
    match found
    case None =>
      // the inner join finds nothing, so `remove(null)` is reached
      (Fatal, db)
    case Some(p) =>
      if |formations| == 0 then
        assert forall f :: f in db.formations && f.playlist == Some(p.id) ==> FormationRepository.InPlaylist(db, id, f);
        (Flashed(Success), PlaylistRepository.Remove(db, p).value)
      else (Flashed(Danger), db)
  }

  /** Under referential integrity, a playlist is deleted exactly when no formation points at it. */
  lemma SupprDeletesUnusedOnly(db: Db, id: nat)
    requires WellFormed(db) && Integrity(db) && HasId(db.playlists, id, PlaylistId)
    ensures Suppr(db, id).0 == Flashed(Success) <==> NbFormations(db, id) == 0
    ensures Suppr(db, id).0 == Flashed(Danger) <==> NbFormations(db, id) > 0
  {
    FormationRepository.FindAllForOnePlaylistByForeignKey(db, id);
  }
}
