/**
 * `FormationRepository`: the formation queries, as functions of the store.
 * A result lists each matching formation once (object hydration merges the
 * rows a to-many join repeats) and is ordered by the query's `ORDER BY`;
 * formations with equal keys may come in any order.
 */
module FormationRepository {
  import opened Nullable
  import opened Text
  import opened Collections
  import opened Tables
  import opened Ordering
  import opened FormationEntity
  import opened CategorieEntity
  import opened PlaylistEntity
  import opened Store

  /**
   * Where a sort or search column lives: on the formation itself
   * (`$table` empty), on its playlist (`"playlist"`) or on its categories
   * (`"categories"`).
   */
  datatype Source =
    | Own(field: FormationField)
    | ViaPlaylist(playlistField: PlaylistField)
    | ViaCategories(categorieField: CategorieField)

  /** The inner join `f.<table>` keeps this formation: it has a related row. */
  predicate Joined(db: Db, src: Source, f: Formation)
  {
    match src
    case Own(_) => true
    case ViaPlaylist(_) => PlaylistOf(db, f).Some?
    case ViaCategories(_) => |CategoriesOf(db, f)| > 0
  }

  function JoinedIn(db: Db, src: Source): Formation -> bool
  {
    (f: Formation) => Joined(db, src, f)
  }

  /**
   * The key `ORDER BY t.<field> o` sorts a formation by. Through the
   * categories join a formation is met first at its best category key.
   */
  function JoinKey(db: Db, src: Source, o: Order): Formation -> Key
  {
    match src
    case Own(field) => FormationKey(field)
    case ViaPlaylist(field) =>
      (f: Formation) => (match PlaylistOf(db, f) case None => Null case Some(p) => PlaylistKey(field)(p))
    case ViaCategories(field) =>
      (f: Formation) =>
        var cs := CategoriesOf(db, f);
        if |cs| == 0 then Null
        else BestKey(seq(|cs|, i requires 0 <= i < |cs| => CategorieKey(field)(cs[i])), o)
  }

  /** `findAllOrderBy`: the joined formations, each once, sorted on the column. */
  function FindAllOrderBy(db: Db, src: Source, o: Order): (r: seq<Formation>)
    ensures forall f :: f in r <==> f in db.formations && Joined(db, src, f)
    ensures forall f :: multiset(r)[f] == if Joined(db, src, f) then multiset(db.formations)[f] else 0
    ensures Sorted(r, JoinKey(db, src, o), o)
  {
    var kept := Filter(db.formations, JoinedIn(db, src));
    var r := Sort(kept, JoinKey(db, src, o), o);
    SameMembers(r, kept);
    r
  }

  /** Sorting on the formation's own column returns every formation. */
  lemma FindAllOrderByOwnIsPermutation(db: Db, field: FormationField, o: Order)
    ensures multiset(FindAllOrderBy(db, Own(field), o)) == multiset(db.formations)
  {
    var r := FindAllOrderBy(db, Own(field), o);
    assert forall f :: multiset(r)[f] == multiset(db.formations)[f];
  }

  /** The playlist join drops formations without a playlist; the categories join those without categories. */
  lemma InnerJoinOmitsUnlinked(db: Db, f: Formation, o: Order)
    ensures forall field :: f.playlist.None? ==> f !in FindAllOrderBy(db, ViaPlaylist(field), o)
    ensures forall field :: f.categories == [] ==> f !in FindAllOrderBy(db, ViaCategories(field), o)
  {
  }

  /** The `LIKE '%value%'` condition on the searched column. */
  predicate Matches(db: Db, src: Source, value: string, f: Formation)
  {
    match src
    case Own(field) => LikeContains(FormationText(field, f), value)
    case ViaPlaylist(field) =>
      PlaylistOf(db, f).Some? && LikeContains(PlaylistText(field, PlaylistOf(db, f).value), value)
    case ViaCategories(field) =>
      exists c :: c in CategoriesOf(db, f) && LikeContains(CategorieText(field, c), value)
  }

  function MatchesIn(db: Db, src: Source, value: string): Formation -> bool
  {
    (f: Formation) => Matches(db, src, value, f)
  }

  /** PHP's `$valeur == ""`: a missing or empty search value. */
  predicate IsEmptyValue(value: Option<string>)
  {
    value.None? || value.value == ""
  }

  /**
   * `findByContainValue`: every formation for an empty value; otherwise the
   * matching formations, each once, newest first.
   */
  function FindByContainValue(db: Db, src: Source, value: Option<string>): (r: seq<Formation>)
    ensures IsEmptyValue(value) ==> r == db.formations
    ensures !IsEmptyValue(value) ==>
      forall f :: f in r <==> f in db.formations && Matches(db, src, value.value, f)
    ensures !IsEmptyValue(value) ==>
      forall f :: multiset(r)[f] == if Matches(db, src, value.value, f) then multiset(db.formations)[f] else 0
    ensures !IsEmptyValue(value) ==> Sorted(r, PublishedKey, Desc)
  {
    if IsEmptyValue(value) then db.formations
    else
      var kept := Filter(db.formations, MatchesIn(db, src, value.value));
      var r := Sort(kept, PublishedKey, Desc);
      SameMembers(r, kept);
      r
  }

  /**
   * Searching a formation column returns exactly the formations whose
   * column holds the value at some position.
   */
  lemma SearchOwnColumn(db: Db, field: FormationField, value: string, f: Formation)
    requires value != ""
    ensures f in FindByContainValue(db, Own(field), Some(value)) <==>
      f in db.formations && FormationText(field, f).Some?
      && exists i :: OccursAt(value, FormationText(field, f).value, i)
  {
    var r := FindByContainValue(db, Own(field), Some(value));
    assert f in r <==> f in db.formations && LikeContains(FormationText(field, f), value);
    if FormationText(field, f).Some? {
      InfixIffOccurs(value, FormationText(field, f).value);
    }
  }

  /** The first `n` rows (`setMaxResults`). */
  function Take<T>(s: seq<T>, n: nat): (r: seq<T>)
    ensures |r| == if n < |s| then n else |s|
    ensures r == s[..|r|]
  {
    if n < |s| then s[..n] else s
  }

  /**
   * `findAllLasted`: the `nb` most recently published formations, newest
   * first; fewer only when the table holds fewer.
   */
  function FindAllLasted(db: Db, nb: nat): (r: seq<Formation>)
    ensures |r| == if nb < |db.formations| then nb else |db.formations|
    ensures Sorted(r, PublishedKey, Desc)
    ensures forall f :: f in r ==> f in db.formations
    ensures forall f :: multiset(r)[f] <= multiset(db.formations)[f]
    ensures forall f, g :: f in r && g in db.formations && g !in r ==>
      Precedes(PublishedKey(f), PublishedKey(g), Desc)
  {
    var s := Sort(db.formations, PublishedKey, Desc);
    var r := Take(s, nb);
    SortedPrefixIsTop(db.formations, s, |r|, PublishedKey, Desc);
    assert forall f :: f in r ==> multiset(r)[f] > 0;
    r
  }

  /** The playlist join with `p.id = :id`. */
  predicate InPlaylist(db: Db, pid: nat, f: Formation)
  {
    PlaylistOf(db, f).Some? && PlaylistOf(db, f).value.id == pid
  }

  function InPlaylistIn(db: Db, pid: nat): Formation -> bool
  {
    (f: Formation) => InPlaylist(db, pid, f)
  }

  /** `findAllForOnePlaylist`: the playlist's formations, each once, oldest first. */
  function FindAllForOnePlaylist(db: Db, pid: nat): (r: seq<Formation>)
    ensures forall f :: f in r <==> f in db.formations && InPlaylist(db, pid, f)
    ensures forall f :: multiset(r)[f] == if InPlaylist(db, pid, f) then multiset(db.formations)[f] else 0
    ensures Sorted(r, PublishedKey, Asc)
  {
    var kept := Filter(db.formations, InPlaylistIn(db, pid));
    var r := Sort(kept, PublishedKey, Asc);
    SameMembers(r, kept);
    r
  }

  /**
   * Under referential integrity, the formations of a playlist are those
   * whose foreign key names it, and there are `NbFormations` of them.
   */
  lemma FindAllForOnePlaylistByForeignKey(db: Db, pid: nat)
    requires WellFormed(db) && Integrity(db)
    ensures forall f :: f in FindAllForOnePlaylist(db, pid) <==> f in db.formations && f.playlist == Some(pid)
    ensures |FindAllForOnePlaylist(db, pid)| == NbFormations(db, pid)
  {
    var r := FindAllForOnePlaylist(db, pid);
    forall f | f in db.formations
      ensures InPlaylist(db, pid, f) <==> f.playlist == Some(pid)
    {
      assert References(db, f);
    }
    CountMembers(db.formations, pid, r);
  }

  /** A sequence holding the formations that point at `pid`, as often as the table does, has `NbFormations` rows. */
  lemma CountMembers(fs: seq<Formation>, pid: nat, r: seq<Formation>)
    requires forall f :: multiset(r)[f] == if f.playlist == Some(pid) then multiset(fs)[f] else 0
    ensures |r| == |MembersOfPlaylist(fs, pid)|
  {
    var kept := Filter(fs, PointsAt(pid));
    assert multiset(r) == multiset(kept);
    MembersOfPlaylistCount(fs, pid);
  }

  /**
   * `add` (`persist` and `flush`): stores the formation, replacing the row
   * with its key; the write fails when a foreign key names a missing row.
   */
  function Add(db: Db, f: Formation): (r: Option<Db>)
    requires WellFormed(db)
    ensures r.Some? <==> References(db, f)
    ensures r.Some? ==> WellFormed(r.value) && Hydrated(r.value) && f in r.value.formations
    ensures r.Some? ==> |r.value.formations| == |db.formations| + (if HasId(db.formations, f.id, FormationId) then 0 else 1)
    ensures r.Some? ==> forall g :: g in db.formations && g.id != f.id ==> g in r.value.formations
    ensures r.Some? ==> PlaylistsKept(db, r.value) && CategoriesKept(db, r.value)
    ensures r.Some? && Integrity(db) ==> Integrity(r.value)
  {
    if References(db, f) then
      var written := db.(formations := Upsert(db.formations, f, FormationId));
      assert Integrity(db) ==> Integrity(written);
      Some(Sync(written))
    else None
  }

  /**
   * `remove` (`remove` and `flush`): deletes the formation's row; its
   * join-table rows go with it.
   */
  function Remove(db: Db, f: Formation): (r: Db)
    requires WellFormed(db)
    ensures WellFormed(r) && Hydrated(r)
    ensures !HasId(r.formations, f.id, FormationId)
    ensures |r.formations| == |db.formations| - (if HasId(db.formations, f.id, FormationId) then 1 else 0)
    ensures forall g :: g in db.formations && g.id != f.id <==> g in r.formations
    ensures PlaylistsKept(db, r) && CategoriesKept(db, r)
    ensures Integrity(db) ==> Integrity(r)
  {
    Sync(db.(formations := Delete(db.formations, f.id, FormationId)))
  }
}
