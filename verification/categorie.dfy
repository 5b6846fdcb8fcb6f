/**
 * The `Categorie` entity and its inverse side of the many-to-many link with
 * formations. `Formation.categories` is the owning side; the helpers below
 * update both sides together, as the PHP methods do.
 */
module CategorieEntity {
  import opened Nullable
  import opened Collections
  import opened Ordering
  import opened Text
  import opened FormationEntity

  datatype Categorie = Categorie(id: nat, name: Option<string>, formations: seq<nat>)

  function CategorieId(c: Categorie): nat
  {
    c.id
  }

  /** The columns a query can sort or search categories on. */
  datatype CategorieField = Id | Name

  /** A column's value as SQL `LIKE` reads it. */
  function CategorieText(field: CategorieField, c: Categorie): Option<string>
  {
    match field
    case Id => Some(Decimal(c.id))
    case Name => c.name
  }

  /** A column's value as `ORDER BY` compares it. */
  function CategorieKey(field: CategorieField): Categorie -> Key
  {
    (c: Categorie) =>
      match field
      case Id => IntKey(c.id)
      case Name => TextKey(c.name)
  }

  /** `ORDER BY c.name`. */
  function CategorieNameKey(c: Categorie): Key
  {
    TextKey(c.name)
  }

  /**
   * Both sides of the link agree about this pair and neither collection
   * holds an id twice.
   */
  predicate Linked(c: Categorie, f: Formation)
  {
    NoDup(c.formations) && NoDup(f.categories) && (f.id in c.formations <==> c.id in f.categories)
  }

  /**
   * `Categorie::addFormation`: when the formation is not yet in the
   * collection, appends it and calls `Formation::addCategory`; otherwise
   * changes nothing.
   */
  function AddFormation(c: Categorie, f: Formation): (r: (Categorie, Formation))
    ensures r.0 == c.(formations := r.0.formations)
    ensures r.1 == f.(categories := r.1.categories)
    ensures f.id in r.0.formations
    ensures f.id !in c.formations ==> c.id in r.1.categories
    ensures f.id !in c.formations ==>
      r.1.categories == if c.id in f.categories then f.categories else f.categories + [c.id]
    ensures f.id in c.formations ==> r == (c, f)
    ensures f.id !in c.formations ==> r.0.formations == c.formations + [f.id]
    ensures Linked(c, f) ==> Linked(r.0, r.1) && f.id in r.0.formations && c.id in r.1.categories
  {
    if f.id in c.formations then (c, f)
    else (c.(formations := c.formations + [f.id]), AddCategory(f, c.id))
  }

  /** Adding the same formation twice is adding it once. */
  lemma AddFormationIdempotent(c: Categorie, f: Formation)
    ensures AddFormation(AddFormation(c, f).0, AddFormation(c, f).1) == AddFormation(c, f)
  {
  }

  /**
   * `Categorie::removeFormation`: when the collection held the formation,
   * drops it and calls `Formation::removeCategory`; otherwise changes nothing.
   */
  function RemoveFormation(c: Categorie, f: Formation): (r: (Categorie, Formation))
    ensures r.0 == c.(formations := r.0.formations)
    ensures r.1 == f.(categories := r.1.categories)
    ensures f.id !in c.formations ==> r == (c, f)
    ensures r.0.formations == RemoveFirst(c.formations, f.id).0
    ensures NoDup(c.formations) ==> r.0.formations == Without(c.formations, f.id)
    ensures f.id in c.formations ==> r.1.categories == RemoveFirst(f.categories, c.id).0
    ensures f.id in c.formations && NoDup(f.categories) ==> r.1.categories == Without(f.categories, c.id)
    ensures Linked(c, f) ==> Linked(r.0, r.1) && f.id !in r.0.formations && c.id !in r.1.categories
  {
    var (rest, removed) := RemoveFirst(c.formations, f.id);
    if NoDup(c.formations) then RemoveFirstOfNoDup(c.formations, f.id); Pair(c, f, rest, removed)
    else Pair(c, f, rest, removed)
  }

  function Pair(c: Categorie, f: Formation, rest: seq<nat>, removed: bool): (Categorie, Formation)
  {
    if removed then (c.(formations := rest), RemoveCategory(f, c.id)) else (c, f)
  }

  /** Removing after adding restores a linked pair that was not yet linked. */
  lemma RemoveUndoesAdd(c: Categorie, f: Formation)
    requires Linked(c, f) && f.id !in c.formations
    ensures RemoveFormation(AddFormation(c, f).0, AddFormation(c, f).1) == (c, f)
  {
    assert c.id !in f.categories;
    var (c1, f1) := AddFormation(c, f);
    assert c1.formations == c.formations + [f.id];
    assert f1.categories == f.categories + [c.id];
    RemoveFirstOfAppended(c.formations, f.id);
    RemoveFirstOfAppended(f.categories, c.id);
    assert RemoveCategory(f1, c.id) == f;
  }
}
