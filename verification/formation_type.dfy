/**
 * `FormationType`: the admin form for a formation, reduced to the checks it
 * adds on submission and the date it pre-fills.
 */
module FormationForm {
  import opened Nullable
  import opened Text
  import opened Collections
  import opened Dates
  import opened FormationEntity

  /** What the form submits; the title is the raw text before trimming. */
  datatype FormData = FormData(
    title: Option<string>,
    description: Option<string>,
    publishedAt: Option<DateTime>,
    categories: seq<nat>,
    playlist: Option<nat>)

  /** The constraint violations the form can report. */
  datatype FormError = TitleBlank | DateBlank | DateInFuture | PlaylistBlank

  function Message(e: FormError): string
  {
    match e
    case TitleBlank => "Le titre est obligatoire"
    case DateBlank => "La date est obligatoire"
    case DateInFuture => "La date ne peut pas \U{EA}tre post\U{E9}rieure \U{E0} la date du jour."
    case PlaylistBlank => "Le choix de la playlist est obligatoire"
  }

  /** `NotBlank` on the text field: missing, or nothing left after the field's trimming. */
  predicate Blank(text: Option<string>)
  {
    text.None? || IsBlank(text.value)
  }

  /**
   * The violations of the form's constraints, in field order. A missing date
   * is reported as blank only: the comparison constraint skips null values.
   */
  function Errors(d: FormData, now: DateTime): (errors: seq<FormError>)
    ensures TitleBlank in errors <==> d.title.None? || Trim(d.title.value) == ""
    ensures DateBlank in errors <==> d.publishedAt.None?
    ensures DateInFuture in errors <==> d.publishedAt.Some? && !NotAfter(d.publishedAt.value, now)
    ensures PlaylistBlank in errors <==> d.playlist.None?
    ensures NoDup(errors)
  {
    (if Blank(d.title) then [TitleBlank] else [])
    + (match d.publishedAt
       case None => [DateBlank]
       case Some(t) => if NotAfter(t, now) then [] else [DateInFuture])
    + (if d.playlist.None? then [PlaylistBlank] else [])
  }

  /**
   * The form is valid exactly when the title is not blank, a date no later
   * than now is given and a playlist is chosen; description and categories
   * are free.
   */
  lemma ValidIff(d: FormData, now: DateTime)
    ensures Errors(d, now) == [] <==>
      d.title.Some? && Trim(d.title.value) != ""
      && d.publishedAt.Some? && NotAfter(d.publishedAt.value, now)
      && d.playlist.Some?
  {
    var e := Errors(d, now);
    if e != [] {
      assert e[0] in e;
    }
  }

  /** The form's date rule and the entity's date constraint agree on a given date. */
  lemma DateRuleMatchesEntity(d: FormData, f: Formation, now: DateTime)
    requires d.publishedAt.Some? && f.publishedAt == d.publishedAt
    ensures DateInFuture in Errors(d, now) <==> Violations(f, now) != []
  {
  }

  /** The date the form shows: the formation's own date, or now when it has none. */
  function DefaultPublishedAt(existing: Option<Formation>, now: DateTime): (r: DateTime)
    ensures existing.Some? && existing.value.publishedAt.Some? ==> r == existing.value.publishedAt.value
    ensures existing.None? || existing.value.publishedAt.None? ==> r == now
  {
    if existing.Some? && existing.value.publishedAt.Some? then existing.value.publishedAt.value else now
  }

  /**
   * Submitting the pre-filled date unchanged raises no date error, unless
   * the formation's stored date is already in the future.
   */
  lemma DefaultDatePasses(existing: Option<Formation>, d: FormData, now: DateTime)
    requires d.publishedAt == Some(DefaultPublishedAt(existing, now))
    requires existing.None? || Violations(existing.value, now) == []
    ensures DateBlank !in Errors(d, now) && DateInFuture !in Errors(d, now)
  {
    NotAfterReflexiveTotal(now, now);
  }
}
