/**
 The book metadata panel: the first-publication line, the description and at most ten subjects,
 each shown only when the work has it.
 */
module BookMetadata {
  import opened Wrappers
  import opened JsString
  import opened JsArray
  import opened OpenLibrary

  /** How many subjects the panel shows at most. */
  const MaxSubjects: nat := 10

  /** What the panel shows: each part is absent when its section is not rendered. */
  datatype Metadata = Metadata(published: Option<string>, about: Option<string>, subjects: Option<seq<string>>)

  /**
   The panel for a work's `publishDate`, `description` and `subjects`: the date line only for a
   truthy date; the description section only for a truthy description, with its text whichever
   shape it came in; the subjects section whenever the list exists (an empty array is truthy),
   holding the first ten subjects in their order.
   */
  function Render(publishDate: Option<string>, description: Option<TextOrValue>, subjects: Option<seq<string>>): (m: Metadata)
    ensures m.published.Some? <==> Truthy(publishDate)
    ensures m.published.Some? ==> m.published.value == "First published: " + publishDate.value
    ensures m.about.None? <==> description.None? || description.value == Plain("")
    ensures m.about.Some? && description.value.Plain? ==> m.about.value == description.value.text
    ensures m.about.Some? && description.value.Wrapped? ==> m.about.value == description.value.value
    ensures m.subjects.Some? <==> subjects.Some?
    ensures m.subjects.Some? ==> |m.subjects.value| == if |subjects.value| < MaxSubjects then |subjects.value| else MaxSubjects
    ensures m.subjects.Some? ==> m.subjects.value == subjects.value[..|m.subjects.value|]
    ensures m.subjects.Some? && |subjects.value| <= MaxSubjects ==> m.subjects.value == subjects.value
  {
    Metadata(
      if Truthy(publishDate) then Some("First published: " + publishDate.value) else None,
      ShownText(description),
      if subjects.Some? then Some(SliceTo(subjects.value, MaxSubjects)) else None)
  }
}
