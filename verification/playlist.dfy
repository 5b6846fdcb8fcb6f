/**
 * The `Playlist` entity: its inverse side of the one-to-many link with
 * formations (`Formation.playlist` is the owning side) and the list of
 * category names its formations carry.
 */
module PlaylistEntity {
  import opened Nullable
  import opened Collections
  import opened Ordering
  import opened Text
  import opened Tables
  import opened FormationEntity
  import opened CategorieEntity

  datatype Playlist = Playlist(id: nat, name: Option<string>, description: Option<string>, formations: seq<nat>)

  function PlaylistId(p: Playlist): nat
  {
    p.id
  }

  /** The columns a query can sort or search playlists on. */
  datatype PlaylistField = Id | Name | Description

  /** A column's value as SQL `LIKE` reads it. */
  function PlaylistText(field: PlaylistField, p: Playlist): Option<string>
  {
    match field
    case Id => Some(Decimal(p.id))
    case Name => p.name
    case Description => p.description
  }

  /** A column's value as `ORDER BY` compares it. */
  function PlaylistKey(field: PlaylistField): Playlist -> Key
  {
    (p: Playlist) =>
      match field
      case Id => IntKey(p.id)
      case Name => TextKey(p.name)
      case Description => TextKey(p.description)
  }

  /** `ORDER BY p.name`. */
  function PlaylistNameKey(p: Playlist): Key
  {
    TextKey(p.name)
  }

  /**
   * The two sides agree about this formation: the playlist's collection
   * holds it exactly when the formation points at the playlist.
   */
  predicate Owns(p: Playlist, f: Formation)
  {
    NoDup(p.formations) && (f.id in p.formations <==> f.playlist == Some(p.id))
  }

  /**
   * `Playlist::addFormation`: when the formation is not yet in the
   * collection, appends it and points the formation at this playlist;
   * otherwise changes nothing.
   */
  function AddFormation(p: Playlist, f: Formation): (r: (Playlist, Formation))
    ensures r.0 == p.(formations := r.0.formations)
    ensures r.1 == f.(playlist := r.1.playlist)
    ensures f.id in r.0.formations
    ensures f.id in p.formations ==> r == (p, f)
    ensures f.id !in p.formations ==> r.0.formations == p.formations + [f.id] && r.1.playlist == Some(p.id)
    ensures Owns(p, f) ==> Owns(r.0, r.1) && r.1.playlist == Some(p.id)
  {
    if f.id in p.formations then (p, f)
    else (p.(formations := p.formations + [f.id]), f.(playlist := Some(p.id)))
  }

  /** Adding the same formation twice is adding it once. */
  lemma AddFormationIdempotent(p: Playlist, f: Formation)
    ensures AddFormation(AddFormation(p, f).0, AddFormation(p, f).1) == AddFormation(p, f)
  {
  }

  /**
   * `Playlist::removeFormation`: drops the formation's first occurrence and,
   * only when one was dropped and the formation still points at this
   * playlist, nulls the formation's playlist.
   */
  function RemoveFormation(p: Playlist, f: Formation): (r: (Playlist, Formation))
    ensures r.0 == p.(formations := r.0.formations)
    ensures r.1 == f.(playlist := r.1.playlist)
    ensures r.1.playlist.None? <==> f.playlist.None? || (f.id in p.formations && f.playlist == Some(p.id))
    ensures f.id !in p.formations ==> r == (p, f)
    ensures !(f.id in p.formations && f.playlist == Some(p.id)) ==> r.1 == f
    ensures r.0.formations == RemoveFirst(p.formations, f.id).0
    ensures NoDup(p.formations) ==> r.0.formations == Without(p.formations, f.id)
    ensures Owns(p, f) ==> Owns(r.0, r.1) && f.id !in r.0.formations && r.1.playlist != Some(p.id)
  {
    if NoDup(p.formations) then RemoveFirstOfNoDup(p.formations, f.id); Detach(p, f, RemoveFirst(p.formations, f.id))
    else Detach(p, f, RemoveFirst(p.formations, f.id))
  }

  function Detach(p: Playlist, f: Formation, removal: (seq<nat>, bool)): (Playlist, Formation)
  {
    var (rest, removed) := removal;
    (p.(formations := rest), if removed && f.playlist == Some(p.id) then f.(playlist := None) else f)
  }

  /**
   * Removing after adding restores a formation that had no playlist. (One
   * taken from another playlist comes back with none.)
   */
  lemma RemoveUndoesAdd(p: Playlist, f: Formation)
    requires Owns(p, f) && f.id !in p.formations && f.playlist.None?
    ensures RemoveFormation(AddFormation(p, f).0, AddFormation(p, f).1) == (p, f)
  {
    RemoveFirstOfAppended(p.formations, f.id);
  }

  /** Name of the category with key `cid`, looked up in `cs`; nothing when no row has that key. */
  function NamesOfIds(cids: seq<nat>, cs: seq<Categorie>): seq<Option<string>>
    decreases |cids|
  {
    if |cids| == 0 then []
    else
      NamesOfIds(cids[..|cids| - 1], cs)
      + (match FindById(cs, cids[|cids| - 1], CategorieId) case None => [] case Some(c) => [c.name])
  }

  /**
   * The category names of the formations `fids`, formation after formation,
   * each formation's categories in collection order, repeats included.
   */
  function CategoryNames(fids: seq<nat>, fs: seq<Formation>, cs: seq<Categorie>): seq<Option<string>>
    decreases |fids|
  {
    if |fids| == 0 then []
    else
      CategoryNames(fids[..|fids| - 1], fs, cs)
      + (match FindById(fs, fids[|fids| - 1], FormationId) case None => [] case Some(f) => NamesOfIds(f.categories, cs))
  }

  lemma {:induction false} NamesOfIdsMember(cids: seq<nat>, cs: seq<Categorie>, n: Option<string>)
    requires UniqueIds(cs, CategorieId)
    ensures n in NamesOfIds(cids, cs) <==> exists c :: c in cs && c.id in cids && c.name == n
    decreases |cids|
  {
    if |cids| > 0 {
      var init, last := cids[..|cids| - 1], cids[|cids| - 1];
      assert cids == init + [last];
      NamesOfIdsMember(init, cs, n);
      var found := FindById(cs, last, CategorieId);
      if n in NamesOfIds(cids, cs) {
        if n !in NamesOfIds(init, cs) {
          assert found.Some? && found.value.name == n;
          assert found.value in cs && found.value.id in cids;
        } else {
          var c :| c in cs && c.id in init && c.name == n;
          assert c.id in cids;
        }
      } else {
        forall c | c in cs && c.id in cids
          ensures c.name != n
        {
          if c.id == last {
            FindOwnRow(cs, c, CategorieId);
          } else {
            assert c.id in init;
          }
        }
      }
    }
  }

  lemma {:induction false} CategoryNamesMember(fids: seq<nat>, fs: seq<Formation>, cs: seq<Categorie>, n: Option<string>)
    requires UniqueIds(fs, FormationId) && UniqueIds(cs, CategorieId)
    ensures n in CategoryNames(fids, fs, cs) <==>
      exists f, c :: f in fs && f.id in fids && c in cs && c.id in f.categories && c.name == n
    decreases |fids|
  {
    if |fids| > 0 {
      var init, last := fids[..|fids| - 1], fids[|fids| - 1];
      assert fids == init + [last];
      CategoryNamesMember(init, fs, cs, n);
      var found := FindById(fs, last, FormationId);
      if n in CategoryNames(fids, fs, cs) {
        if n !in CategoryNames(init, fs, cs) {
          assert found.Some? && n in NamesOfIds(found.value.categories, cs);
          NamesOfIdsMember(found.value.categories, cs, n);
          var c :| c in cs && c.id in found.value.categories && c.name == n;
          assert found.value in fs && found.value.id in fids;
        } else {
          var f, c :| f in fs && f.id in init && c in cs && c.id in f.categories && c.name == n;
          assert f.id in fids;
        }
      } else {
        forall f, c | f in fs && f.id in fids && c in cs && c.id in f.categories
          ensures c.name != n
        {
          if f.id == last {
            FindOwnRow(fs, f, FormationId);
            NamesOfIdsMember(f.categories, cs, n);
          } else {
            assert f.id in init;
          }
        }
      }
    }
  }

  /**
   * `getCategoriesPlaylist`: the names of the categories of the playlist's
   * formations, each name once, in order of first appearance.
   */
  function CategoriesPlaylist(p: Playlist, fs: seq<Formation>, cs: seq<Categorie>): (names: seq<Option<string>>)
    ensures NoDup(names)
    ensures forall n :: n in names <==> n in CategoryNames(p.formations, fs, cs)
    ensures forall i, j :: 0 <= i < j < |names| ==>
      FirstIndex(CategoryNames(p.formations, fs, cs), names[i]) < FirstIndex(CategoryNames(p.formations, fs, cs), names[j])
  {
    Distinct(CategoryNames(p.formations, fs, cs))
  }

  /**
   * With unique keys, a name is listed exactly when some formation of the
   * playlist has a category of that name.
   */
  lemma CategoriesPlaylistMember(p: Playlist, fs: seq<Formation>, cs: seq<Categorie>, n: Option<string>)
    requires UniqueIds(fs, FormationId) && UniqueIds(cs, CategorieId)
    ensures n in CategoriesPlaylist(p, fs, cs) <==>
      exists f, c :: f in fs && f.id in p.formations && c in cs && c.id in f.categories && c.name == n
  {
    CategoryNamesMember(p.formations, fs, cs, n);
  }
}
