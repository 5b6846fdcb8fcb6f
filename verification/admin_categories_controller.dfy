/**
 * `AdminCategoriesController`: adding a category unless its name is taken
 * (ignoring case), and deleting one only when no formation uses it.
 */
module AdminCategoriesController {
  import opened Nullable
  import opened Text
  import opened Tables
  import opened Collections
  import opened FormationEntity
  import opened CategorieEntity
  import opened Store
  import opened Responses
  import opened CategorieRepository

  /** The request `index` handles: a plain page load, or the category form posted with its raw name field. */
  datatype Request = Show | Submit(name: Option<string>)

  /** The form's `NotBlank` passes: some text is left after trimming. */
  predicate NamePresent(raw: Option<string>)
  {
    raw.Some? && Trim(raw.value) != ""
  }

  /** The category a valid submission creates: a fresh key, the trimmed name, no formations. */
  function NewCategorie(db: Db, name: string): Categorie
  {
    Categorie(NextId(db.categories, CategorieId), Some(name), [])
  }

  /**
   * `index`: on a valid submission, stores the new category with a success
   * message unless `findOneByName` finds one, which gives a danger message;
   * several matches throw. Anything else renders the page.
   */
  function Index(db: Db, req: Request): (r: (Outcome, Db))
    requires WellFormed(db)
    ensures r.0 == Flashed(Success) <==>
      req.Submit? && NamePresent(req.name) && forall c :: c in db.categories ==> !NameMatches(Trim(req.name.value), c)
    ensures r.0 == Flashed(Danger) <==>
      req.Submit? && NamePresent(req.name) && FindOneByName(db, Trim(req.name.value)).Found?
    ensures r.0 == Rendered <==> !(req.Submit? && NamePresent(req.name))
    ensures r.0 == Flashed(Success) ==>
      WellFormed(r.1) && r.1.formations == db.formations && |r.1.categories| == |db.categories| + 1
      && LoadCategorie(r.1, NewCategorie(db, Trim(req.name.value))) in r.1.categories
      && (forall d :: d in db.categories ==> LoadCategorie(r.1, d) in r.1.categories)
      && PlaylistsKept(db, r.1)
    ensures r.0 != Flashed(Success) ==> r.1 == db
  {
    match req
    case Show => (Rendered, db)
    case Submit(raw) =>
      if !NamePresent(raw) then (Rendered, db)
      else
        var name := Trim(raw.value);
        match FindOneByName(db, name)
        case Found(_) => (Flashed(Danger), db)
        case NonUnique => (Fatal, db)
        case NotFound =>
          var c := NewCategorie(db, name);
          var r := CategorieRepository.Add(db, c);
          assert forall d :: d in db.categories ==> d.id != c.id;
          (Flashed(Success), r)
  }

  /** No two named categories share a name once case is ignored. */
  predicate NamesDistinct(db: Db)
  {
    forall i, j :: 0 <= i < j < |db.categories| && db.categories[i].name.Some? && db.categories[j].name.Some? ==>
      !SameIgnoringCase(db.categories[i].name.value, db.categories[j].name.value)
  }

  /**
   * As long as names are distinct ignoring case, `index` keeps them so and
   * never meets several matches.
   */
  lemma IndexKeepsNamesDistinct(db: Db, req: Request)
    requires WellFormed(db) && NamesDistinct(db)
    ensures Index(db, req).0 != Fatal
    ensures NamesDistinct(Index(db, req).1)
  {
    if req.Submit? && NamePresent(req.name) {
      var name := Trim(req.name.value);
      DistinctNamesMatchOnce(db, name);
      if Index(db, req).0 == Flashed(Success) {
        AddedNameKeepsDistinct(db, name);
      }
    }
  }

  /** With names distinct ignoring case, two different categories never both match one name. */
  lemma DistinctNamesMatchOnce(db: Db, name: string)
    requires NamesDistinct(db)
    ensures forall c, d :: c in db.categories && d in db.categories && c != d ==>
      !(NameMatches(name, c) && NameMatches(name, d))
  {
    var rows := db.categories;
    forall c, d | c in rows && d in rows && c != d
      ensures !(NameMatches(name, c) && NameMatches(name, d))
    {
      var i :| 0 <= i < |rows| && rows[i] == c;
      var j :| 0 <= j < |rows| && rows[j] == d;
    }
  }

  /** Adding a category whose name matches none keeps names distinct. */
  lemma AddedNameKeepsDistinct(db: Db, name: string)
    requires WellFormed(db) && NamesDistinct(db)
    requires forall c :: c in db.categories ==> !NameMatches(name, c)
    ensures NamesDistinct(CategorieRepository.Add(db, NewCategorie(db, name)))
  {
    var rows := db.categories;
    var c := NewCategorie(db, name);
    var written := db.(categories := Upsert(rows, c, CategorieId));
    var r := CategorieRepository.Add(db, c);
    assert written.categories == rows + [c];
    assert r == Sync(written);
    forall i, j | 0 <= i < j < |r.categories| && r.categories[i].name.Some? && r.categories[j].name.Some?
      ensures !SameIgnoringCase(r.categories[i].name.value, r.categories[j].name.value)
    {
      assert r.categories[i].name == written.categories[i].name;
      assert r.categories[j].name == written.categories[j].name;
      if j == |rows| {
        assert !NameMatches(name, rows[i]);
      }
    }
  }

  /**
   * `suppr`: removes the category with a success message when its loaded
   * formation collection is empty, otherwise keeps it with a danger
   * message. An unknown id dereferences null: a fatal error.
   */
  function Suppr(db: Db, id: nat): (r: (Outcome, Db))
    requires WellFormed(db)
    ensures r.0 == Fatal <==> !HasId(db.categories, id, CategorieId)
    ensures HasId(db.categories, id, CategorieId) ==>
      (r.0 == Flashed(Success) <==> |FindById(db.categories, id, CategorieId).value.formations| == 0)
    ensures HasId(db.categories, id, CategorieId) ==>
      (r.0 == Flashed(Danger) <==> |FindById(db.categories, id, CategorieId).value.formations| > 0)
    ensures r.0 == Flashed(Success) ==>
      WellFormed(r.1) && !HasId(r.1.categories, id, CategorieId) && |r.1.categories| == |db.categories| - 1
      && OtherCategoriesKept(db, r.1, id) && PlaylistsKept(db, r.1)
      && |r.1.formations| == |db.formations|
      && (forall i :: 0 <= i < |db.formations| ==> r.1.formations[i] == Unfile(db.formations[i], id))
    ensures r.0 != Flashed(Success) ==> r.1 == db
  {
    match FindById(db.categories, id, CategorieId)
    case None => (Fatal, db)
    case Some(c) =>
      if |c.formations| == 0 then (Flashed(Success), CategorieRepository.Remove(db, c))
      else (Flashed(Danger), db)
  }

  /**
   * In a loaded store, an existing category is deleted exactly when no
   * formation is filed under it, and then no formation changes.
   */
  lemma SupprDeletesUnusedOnly(db: Db, id: nat)
    requires WellFormed(db) && Hydrated(db) && HasId(db.categories, id, CategorieId)
    ensures Suppr(db, id).0 == Flashed(Success) <==> forall f :: f in db.formations ==> id !in f.categories
    ensures Suppr(db, id).0 == Flashed(Danger) <==> exists f :: f in db.formations && id in f.categories
    ensures Suppr(db, id).0 == Flashed(Success) ==> Suppr(db, id).1.formations == db.formations
  {
    var c := FindById(db.categories, id, CategorieId).value;
    assert c.id == id && c in db.categories;
    assert c.formations == MembersOfCategorie(db.formations, c.id);
    assert |c.formations| > 0 ==> c.formations[0] in c.formations;
    assert forall f :: f in db.formations && id in f.categories ==> f.id in c.formations;
    if Suppr(db, id).0 == Flashed(Success) {
      var r := Suppr(db, id).1;
      forall i | 0 <= i < |db.formations|
        ensures r.formations[i] == db.formations[i]
      {
        var f := db.formations[i];
        assert id !in f.categories by {
          assert f.id !in c.formations;
        }
        WithoutAbsent(f.categories, id);
      }
    }
  }
}
