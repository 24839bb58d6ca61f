/**
 The OpenLibrary catalog's JSON shapes as the application reads them, and the two readings of
 them that more than one component shares: the text of a description-or-bio field and the
 cover-image URL built from an identifier list.
 */
module OpenLibrary {
  import opened Wrappers
  import JsNumber

  /** The `{ key }` object inside an author reference. */
  datatype KeyRef = KeyRef(key: string)

  /** A work's raw author reference, `{ author: { key } }`, with a path-shaped key such as "/authors/OL123A". */
  datatype AuthorRef = AuthorRef(author: KeyRef)

  /** A resolved author: the reference's key and the name the author lookup returned. */
  datatype Author = Author(key: string, name: string)

  /** A description or biography: the catalog sends either a plain string or a `{ value }` wrapper. */
  datatype TextOrValue = Plain(text: string) | Wrapped(value: string)

  /**
   A work (`/works/<id>.json`), generic in its author entries: the raw body holds `AuthorRef`s,
   the loaded book `Author`s.
   */
  datatype Work<A> = Work(
    title: string,
    authors: Option<seq<A>>,
    covers: Option<seq<int>>,
    firstPublishDate: Option<string>,
    description: Option<TextOrValue>,
    subjects: Option<seq<string>>)

  /** An author (`/authors/<id>.json`). */
  datatype AuthorDetails = AuthorDetails(
    name: string,
    birthDate: Option<string>,
    deathDate: Option<string>,
    bio: Option<TextOrValue>,
    photos: Option<seq<int>>)

  /** One entry of an author's works list. */
  datatype WorkEntry = WorkEntry(key: string, title: string, covers: Option<seq<int>>, firstPublishDate: Option<string>)

  /** An author's works (`/authors/<id>/works.json`). */
  datatype AuthorWorks = AuthorWorks(entries: seq<WorkEntry>)

  /**
   `field && (typeof field === 'string' ? field : field.value)`: the text shown for a description
   or a bio. A missing field and the empty string are falsy and show nothing; a wrapper object is
   truthy, so it shows its `value` even when that is empty.
   */
  function ShownText(field: Option<TextOrValue>): (shown: Option<string>)
    ensures shown.None? <==> field.None? || field.value == Plain("")
    ensures shown.Some? && field.value.Plain? ==> shown.value == field.value.text
    ensures shown.Some? && field.value.Wrapped? ==> shown.value == field.value.value
  {
    match field
    case None => None
    case Some(Plain(s)) => if s == "" then None else Some(s)
    case Some(Wrapped(v)) => Some(v)
  }

  /** Either wire shape of the same non-empty text shows that text: the union does not leak past this point. */
  lemma ShownTextIgnoresShape(s: string)
    requires s != ""
    ensures ShownText(Some(Plain(s))) == ShownText(Some(Wrapped(s))) == Some(s)
  {
  }

  /**
   `ids?.[0] ? `https://covers.openlibrary.org/<kind>/id/${ids[0]}-<size>.jpg` : none`: a cover URL
   only when the list exists, has a first element, and that identifier is not 0 (0 is falsy).
   */
  function CoverUrl(ids: Option<seq<int>>, kind: string, size: string): (url: Option<string>)
    ensures url.Some? <==> ids.Some? && |ids.value| > 0 && ids.value[0] != 0
    ensures url.Some? ==> url.value == "https://covers.openlibrary.org/" + kind + "/id/" + JsNumber.IntToString(ids.value[0]) + "-" + size + ".jpg"
  {
    if ids.Some? && |ids.value| > 0 && ids.value[0] != 0 then
      Some("https://covers.openlibrary.org/" + kind + "/id/" + JsNumber.IntToString(ids.value[0]) + "-" + size + ".jpg")
    else
      None
  }
}
