/**
 * The playlist listing pages (public and admin share the same listing
 * logic): the default order and the sort dispatch.
 */
module PlaylistsController {
  import opened Ordering
  import opened PlaylistEntity
  import opened Store
  import opened PlaylistRepository

  /** `index`: every playlist once, by name ascending. */
  function Index(db: Db): (r: seq<Playlist>)
    ensures multiset(r) == multiset(db.playlists)
    ensures Sorted(r, PlaylistNameKey, Asc)
  {
    FindAllOrderByName(db, Asc)
  }

  /**
   * `sort`: the route's field picks the query: `name` and `nbFormations`
   * use the requested order, any other field falls back to name ascending.
   */
  function Sort(db: Db, field: string, o: Order): (r: seq<Playlist>)
    ensures multiset(r) == multiset(db.playlists)
    ensures field == "name" ==> r == FindAllOrderByName(db, o)
    ensures field == "nbFormations" ==> r == FindAllOrderByNbFormations(db, o)
    ensures field != "name" && field != "nbFormations" ==> r == Index(db)
    ensures field != "nbFormations" ==> Sorted(r, PlaylistNameKey, if field == "name" then o else Asc)
  {
    if field == "name" then FindAllOrderByName(db, o)
    else if field == "nbFormations" then FindAllOrderByNbFormations(db, o)
    else FindAllOrderByName(db, Asc)
  }

  /** Sorting on formation count in descending order puts the fullest playlists first. */
  lemma SortByCountDescending(db: Db, i: nat, j: nat)
    requires i < j < |Sort(db, "nbFormations", Desc)|
    ensures NbFormations(db, Sort(db, "nbFormations", Desc)[i].id) >= NbFormations(db, Sort(db, "nbFormations", Desc)[j].id)
  {
  }
}
