/**
 * The `Formation` entity: one catalogued video, its derived display values,
 * its side of the playlist and category associations, and its date rule.
 */
module FormationEntity {
  import opened Nullable
  import opened Text
  import opened Collections
  import opened Ordering
  import opened Dates

  /** Base of every thumbnail URL. */
  const ImagePath: string := "https://i.ytimg.com/vi/"
  /** File name of the small thumbnail. */
  const MiniatureFile: string := "/default.jpg"
  /** File name of the high-quality picture. */
  const PictureFile: string := "/hqdefault.jpg"
  /** Message of the entity's publication-date constraint. */
  const FutureDateMessage: string := "La date ne peut pas \U{EA}tre post\U{E9}rieure \U{E0} la date d'aujourd'hui"

  /**
   * A formation. `playlist` is the owning side of the many-to-one link (a
   * playlist id or null); `categories` the owning side of the many-to-many
   * link (category ids, in collection order).
   */
  datatype Formation = Formation(
    id: nat,
    publishedAt: Option<DateTime>,
    title: Option<string>,
    description: Option<string>,
    videoId: Option<string>,
    playlist: Option<nat>,
    categories: seq<nat>)

  function FormationId(f: Formation): nat
  {
    f.id
  }

  /** The columns a query can sort or search formations on. */
  datatype FormationField = Id | PublishedAt | Title | Description | VideoId

  /** A column's value as SQL `LIKE` reads it (numbers and dates as their text). */
  function FormationText(field: FormationField, f: Formation): Option<string>
  {
    match field
    case Id => Some(Decimal(f.id))
    case PublishedAt => (match f.publishedAt case None => None case Some(d) => Some(SqlText(d)))
    case Title => f.title
    case Description => f.description
    case VideoId => f.videoId
  }

  /** A column's value as `ORDER BY` compares it. */
  function FormationKey(field: FormationField): Formation -> Key
  {
    (f: Formation) =>
      match field
      case Id => IntKey(f.id)
      case PublishedAt => NullableDateKey(f.publishedAt)
      case Title => TextKey(f.title)
      case Description => TextKey(f.description)
      case VideoId => TextKey(f.videoId)
  }

  /** `ORDER BY f.publishedAt`. */
  function PublishedKey(f: Formation): Key
  {
    NullableDateKey(f.publishedAt)
  }

  /** `getPublishedAtString`: the date as `d/m/Y`, or "" when none is set. */
  function PublishedAtString(f: Formation): (r: string)
    ensures r == "" <==> f.publishedAt.None?
    ensures f.publishedAt.Some? ==>
      ParseDmy(r) == Some((f.publishedAt.value.day, f.publishedAt.value.month, f.publishedAt.value.year))
    ensures f.publishedAt.Some? && 0 <= f.publishedAt.value.year <= 9999 ==> |r| == 10
  {
    match f.publishedAt
    case None => ""
    case Some(d) =>
      FormatDmyRoundTrip(d);
      FormatDmy(d)
  }

  /** A formation published on 23 November 2025 shows `23/11/2025`. */
  lemma PublishedAtStringExample(f: Formation)
    requires f.publishedAt == Some(CalendarTime(2025, 11, 23, 0, 0, 0))
    ensures PublishedAtString(f) == "23/11/2025"
  {
    FormatDmyExample();
  }

  /** The video id PHP concatenates: a null id contributes nothing. */
  function VideoText(f: Formation): string
  {
    f.videoId.GetOr("")
  }

  /** Reads the video id back from a thumbnail URL ending in `file`. */
  function VideoIdOfUrl(url: string, file: string): Option<string>
  {
    if IsPrefix(ImagePath, url) && |ImagePath| + |file| <= |url| && url[|url| - |file|..] == file
    then Some(url[|ImagePath|..|url| - |file|])
    else None
  }

  lemma ThumbnailRoundTrip(video: string, file: string)
    ensures VideoIdOfUrl(ImagePath + video + file, file) == Some(video)
  {
    var url := ImagePath + video + file;
    assert url[..|ImagePath|] == ImagePath;
    assert url[|url| - |file|..] == file;
    assert url[|ImagePath|..|url| - |file|] == video;
  }

  /** `getMiniature`: the small thumbnail URL, from which the video id reads back. */
  function Miniature(f: Formation): (url: string)
    ensures IsPrefix(ImagePath, url)
    ensures VideoIdOfUrl(url, MiniatureFile) == Some(VideoText(f))
  {
    ThumbnailRoundTrip(VideoText(f), MiniatureFile);
    ImagePath + VideoText(f) + MiniatureFile
  }

  /** `getPicture`: the high-quality picture URL, from which the video id reads back. */
  function Picture(f: Formation): (url: string)
    ensures IsPrefix(ImagePath, url)
    ensures VideoIdOfUrl(url, PictureFile) == Some(VideoText(f))
  {
    ThumbnailRoundTrip(VideoText(f), PictureFile);
    ImagePath + VideoText(f) + PictureFile
  }

  /** `addCategory`: adds the category unless it is already there. */
  function AddCategory(f: Formation, cid: nat): (r: Formation)
    ensures r == f.(categories := r.categories)
    ensures cid in r.categories
    ensures forall x :: x in r.categories <==> x in f.categories || x == cid
    ensures cid in f.categories ==> r == f
    ensures NoDup(f.categories) ==> NoDup(r.categories)
  {
    f.(categories := AddIfAbsent(f.categories, cid))
  }

  /** `addCategory` twice is `addCategory` once. */
  lemma AddCategoryIdempotent(f: Formation, cid: nat)
    ensures AddCategory(AddCategory(f, cid), cid) == AddCategory(f, cid)
  {
  }

  /** `removeCategory`: removes the category's first occurrence. */
  function RemoveCategory(f: Formation, cid: nat): (r: Formation)
    ensures r == f.(categories := r.categories)
    ensures cid !in f.categories ==> r == f
    ensures cid in f.categories ==> |r.categories| == |f.categories| - 1
    ensures NoDup(f.categories) ==>
      cid !in r.categories && r.categories == Without(f.categories, cid) && NoDup(r.categories)
  {
    if NoDup(f.categories) then
      RemoveFirstOfNoDup(f.categories, cid);
      f.(categories := RemoveFirst(f.categories, cid).0)
    else
      f.(categories := RemoveFirst(f.categories, cid).0)
  }

  /**
   * The entity's `LessThanOrEqual("now")` constraint on `publishedAt`: the
   * violations found, at most one. A null date is not checked.
   */
  function Violations(f: Formation, now: DateTime): (errors: seq<string>)
    ensures |errors| <= 1
    ensures errors == [] <==> f.publishedAt.None? || NotAfter(f.publishedAt.value, now)
  {
    match f.publishedAt
    case Some(d) => if NotAfter(d, now) then [] else [FutureDateMessage]
    case None => []
  }

  /**
   * A date equal to now or earlier passes; a strictly later date yields
   * exactly one violation.
   */
  lemma ViolationsOfDates(f: Formation, now: DateTime)
    requires f.publishedAt.Some?
    ensures f.publishedAt.value == now ==> Violations(f, now) == []
    ensures NotAfter(f.publishedAt.value, now) ==> Violations(f, now) == []
    ensures NotAfter(now, f.publishedAt.value) && f.publishedAt.value != now ==> |Violations(f, now)| == 1
  {
    var d := f.publishedAt.value;
    NotAfterReflexiveTotal(d, now);
    if NotAfter(now, d) && NotAfter(d, now) {
      NotAfterAntisymmetric(d, now);
    }
  }
}
