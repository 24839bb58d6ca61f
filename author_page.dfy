/**
 The author page: its two catalog queries, and what it shows from them (photo, name, lifespan,
 biography, and one card per work linking to that work's book page).
 */
module AuthorPage {
  import opened Wrappers
  import opened JsString
  import opened JsArray
  import opened Remote
  import opened OpenLibrary
  import BookHeader

  const AuthorFetchError := "Failed to fetch author details"
  const WorksFetchError := "Failed to fetch author works"

  /** The author query's `queryFn`: a rejected fetch rethrows, a non-ok response throws its own error, otherwise the body is the data. */
  function LoadAuthor(response: Fetched<AuthorDetails>): (r: Result<AuthorDetails, string>)
    ensures r.Failure? <==> !response.Ok?
    ensures response.FetchRejected? ==> r.error == response.reason
    ensures response.NotOk? ==> r.error == AuthorFetchError
    ensures r.Success? ==> r.value == response.body
  {
    match response
    case FetchRejected(reason) => Failure(reason)
    case NotOk => Failure(AuthorFetchError)
    case Ok(body) => Success(body)
  }

  /** The works query's `queryFn`: a rejected fetch rethrows, a non-ok response throws its own error, otherwise the body is the data. */
  function LoadWorks(response: Fetched<AuthorWorks>): (r: Result<AuthorWorks, string>)
    ensures r.Failure? <==> !response.Ok?
    ensures response.FetchRejected? ==> r.error == response.reason
    ensures response.NotOk? ==> r.error == WorksFetchError
    ensures r.Success? ==> r.value == response.body
  {
    match response
    case FetchRejected(reason) => Failure(reason)
    case NotOk => Failure(WorksFetchError)
    case Ok(body) => Success(body)
  }

  /**
   The route a work card links to, `/book/${work.key.split('/').pop()}`: the book page of the
   key's last segment, the same id `getAuthorId` extracts on the book page.
   */
  function WorkLink(workKey: string): (link: string)
    ensures |link| >= 6 && link[..6] == "/book/"
    ensures link[6..] == BookHeader.GetAuthorId(workKey)
  {
    BookHeader.GetAuthorIdIsLastSegment(workKey);
    "/book/" + Last(Split(workKey, '/'))
  }

  /** A catalog work key "/works/<id>" links to the book page "/book/<id>". */
  lemma WorkLinkOfCatalogKey(id: string)
    requires '/' !in id
    ensures WorkLink("/works/" + id) == "/book/" + id
  {
    BookHeader.GetAuthorIdAfterSlash("/works/", id);
    var link := WorkLink("/works/" + id);
    assert link == link[..6] + link[6..];
  }

  /**
   The lifespan line: only for a truthy birth date, which is followed by " - " and the death
   date, or "Present" when that is missing or empty.
   */
  function Lifespan(birthDate: Option<string>, deathDate: Option<string>): (line: Option<string>)
    ensures line.Some? <==> Truthy(birthDate)
    ensures line.Some? && Truthy(deathDate) ==> line.value == birthDate.value + " - " + deathDate.value
    ensures line.Some? && !Truthy(deathDate) ==> line.value == birthDate.value + " - Present"
  {
    if Truthy(birthDate) then
      Some(birthDate.value + " - " + (if Truthy(deathDate) then deathDate.value else "Present"))
    else
      None
  }

  /** One work card: its link, its medium cover when the first cover id is truthy, its title and its date when truthy. */
  datatype WorkCard = WorkCard(link: string, cover: Option<string>, title: string, date: Option<string>)

  function Card(work: WorkEntry): (card: WorkCard)
    ensures card.link == WorkLink(work.key) && card.title == work.title
    ensures card.cover == CoverUrl(work.covers, "b", "M")
    ensures card.date.Some? <==> Truthy(work.firstPublishDate)
    ensures card.date.Some? ==> card.date == work.firstPublishDate
  {
    WorkCard(WorkLink(work.key), CoverUrl(work.covers, "b", "M"), work.title,
      if Truthy(work.firstPublishDate) then work.firstPublishDate else None)
  }

  /** What the page renders. */
  datatype Page =
    | Skeleton
    | Blank
    | Content(name: string, photo: Option<string>, lifespan: Option<string>, bio: Option<string>, cards: seq<WorkCard>)

  /**
   The page from the two queries: the skeleton while either loads; nothing unless both hold data;
   otherwise the author's large photo (when `photos[0]` is truthy), name, lifespan, biography text
   and one card per work, in the order of the works list.
   */
  function RenderPage(authorQ: QueryState<AuthorDetails>, worksQ: QueryState<AuthorWorks>): (page: Page)
    ensures page.Skeleton? <==> authorQ.Loading? || worksQ.Loading?
    ensures page.Content? <==> authorQ.Ready? && worksQ.Ready?
    ensures page.Content? ==> var author := authorQ.value;
      && page.name == author.name
      && page.photo == CoverUrl(author.photos, "a", "L")
      && page.lifespan == Lifespan(author.birthDate, author.deathDate)
      && page.bio == ShownText(author.bio)
    ensures page.Content? ==> var entries := worksQ.value.entries;
      |page.cards| == |entries| && forall i :: 0 <= i < |entries| ==> page.cards[i] == Card(entries[i])
  {
    if authorQ.Loading? || worksQ.Loading? then
      Skeleton
    else if !authorQ.Ready? || !worksQ.Ready? then
      Blank
    else
      var author, entries := authorQ.value, worksQ.value.entries;
      Content(author.name, CoverUrl(author.photos, "a", "L"), Lifespan(author.birthDate, author.deathDate),
        ShownText(author.bio), seq(|entries|, i requires 0 <= i < |entries| => Card(entries[i])))
  }

  /** A rejected or non-ok author or works response leaves the page blank once neither query is loading. */
  lemma FailedFetchGivesBlankPage(authorResponse: Fetched<AuthorDetails>, worksResponse: Fetched<AuthorWorks>)
    requires !authorResponse.Ok? || !worksResponse.Ok?
    ensures RenderPage(Settle(LoadAuthor(authorResponse)), Settle(LoadWorks(worksResponse))) == Blank
  {
  }
}
