# book-haven-search: a verified model of its logic core

book-haven-search is a React application for browsing books. It searches the OpenLibrary
catalog, shows a book's details with its resolved authors, shows an author's page with their
works, and lets readers leave star-rated reviews in a hosted backend. Most of the application
is rendering, routing and network calls. This project models the thin layer of sequential logic
inside it and proves what that logic promises:

- **The book loader** (`useBookData`). A rejected or non-ok work fetch fails the whole load. Each author
  reference is looked up on its own. A non-ok author response is dropped, and a rejected author
  fetch fails the whole load. Resolution keeps input order.
- **The average rating.** It is the mean of the review ratings in exact integer tenths, rounded
  half up like `Math.round`, or 0 when there are no reviews. It also covers the defaults the hook
  hands out while its queries hold no data.
- **The book header.** `getAuthorId` takes the trailing `/`-segment of a catalog key. The header
  also builds the author links, the rating label with its "No ratings yet" sentinel, and the
  pluralised review count.
- **The book metadata block.** It shows the publish-date line, the description (a string or a
  `{ value }` wrapper) and at most ten subjects.
- **The author page.** Its two queries each fail on a rejected fetch or a non-ok response. The page shows the
  skeleton, nothing, or its content. The content has the photo URL, the lifespan line, the
  biography, and one card per work. Each card links to the book page of the work key's last
  segment.
- **The review form.** It is a class holding `rating`, `text`, `isSubmitting` and a log of what
  the form has done. Its submit handler refuses an unrated review. It inserts the row with the
  trimmed text, or `null` when the text is blank. It reports the outcome, and it clears
  `isSubmitting` in every case. The star-fill rule is modelled too.
- **The search bar.** It is a class holding `query`, which starts as `initialValue` and is reset
  when that prop changes. Its submit guard passes on the trimmed query only when the query is
  not blank.

The JavaScript built-ins this logic relies on are modelled exactly over `seq<char>` and `int`:
`trim` (with ECMAScript's whitespace set), `split` with a one-character separator, `pop`,
`slice(0, n)`, `filter(x => x !== null)`, `Math.round`, and the decimal text of integers and of
one-decimal numbers. Network responses, lookups and insert outcomes are inputs
(`Remote.Fetched`, `UseBookData.AuthorLookup`, `ReviewForm.InsertOutcome`).

Two facts about the code that the model keeps as they are:

- The review form rejects only rating 0. The star buttons set only 1..5, so the rating stays in
  0..5 (`ReviewForm.Form.Valid`). The inserted row carries no user id, and nothing checks for an
  existing review by the same reader.
- The average-rating query treats `data` being `null` the same as an empty list.

## Model

| member | source | states |
|---|---|---|
| UseBookData.FetchAll | src/hooks/useBookData.ts:28-39 | one settled promise per author reference, in input order: rejected when that key's fetch rejects, `null` when its response is not ok, and otherwise the reference's key with the looked-up name |
| UseBookData.ResolveAuthors | src/hooks/useBookData.ts:39-40 | the batch rejects exactly when some reference's lookup rejects, and then with that lookup's reason; otherwise it holds at most one author per reference |
| UseBookData.ResolveAuthorsAppend | src/hooks/useBookData.ts:28-40 | resolution goes reference by reference: resolving a concatenation is resolving the parts, the first rejection rejecting the whole; so a non-ok author response never aborts the batch or changes another reference's entry |
| UseBookData.ResolvedPositions | src/hooks/useBookData.ts:28-40 | with no rejection, the resolved authors are exactly the references whose response was ok, in input order (a strictly increasing list of positions covers every such reference and only those); each keeps `ref.author.key` and takes the looked-up name |
| UseBookData.ResolveAuthorsLength | src/hooks/useBookData.ts:31-40 | with no rejection, the output is empty when every response is non-ok, and as long as the input when every response is ok |
| UseBookData.FailedKeyNeverResolved | src/hooks/useBookData.ts:31-40 | with no rejection, no resolved author carries a key whose response was not ok |
| UseBookData.LoadBook | src/hooks/useBookData.ts:22-43 | the load fails exactly for a rejected work fetch (with its reason), a non-ok work response ("Failed to fetch book details") or a rejected author lookup; otherwise every field but `authors` is the body's own, and `authors` is the resolved list when the body has one and absent otherwise |
| UseBookData.LoadBookWithoutAuthorsIgnoresLookup | src/hooks/useBookData.ts:24-43 | a failed response, or a body without `authors`, gives the same outcome whatever the lookups would answer (no lookup happens, and the data is returned unchanged) |
| UseBookData.RejectedAuthorFailsBook | src/hooks/useBookData.ts:28-39 | one rejected author lookup fails the whole book load, with the reason of a rejected lookup, and the hook then has no book |
| UseBookData.LoadBookResolvesAuthors | src/hooks/useBookData.ts:27-41 | with no rejection, a loaded book's authors are the resolved list: at most one per reference, each from a reference with the same key and carrying its looked-up name, and every reference whose response was ok appears |
| UseBookData.Reduce | src/hooks/useBookData.ts:73 | the `reduce` fold from `acc` is `acc` plus the sum of the ratings |
| UseBookData.SumPermutation | src/hooks/useBookData.ts:73 | the sum does not depend on the order of the rows |
| UseBookData.SumBounds | src/hooks/useBookData.ts:73 | n ratings between lo and hi sum to between n·lo and n·hi |
| UseBookData.AverageTenths | src/hooks/useBookData.ts:71-74 | 0 for no ratings; otherwise the t with -n < 2nt - 20·sum <= n, which is `Math.round(sum / n * 10)` in tenths (a half rounds up) |
| UseBookData.AverageNearMean | src/hooks/useBookData.ts:74 | the rounded average differs from the exact mean by at most 0.05 |
| UseBookData.AverageInStarRange | src/hooks/useBookData.ts:73-74 | with every rating in 1..5 and at least one rating, the average lies in [1.0, 5.0] |
| UseBookData.AveragePermutation | src/hooks/useBookData.ts:73 | the average is the same for any reordering of the review rows |
| UseBookData.AverageExamples | src/hooks/useBookData.ts:73-74 | [4, 4, 5] averages 4.3, [3, 4] averages 3.5 and [4, 5] averages 4.5 |
| UseBookData.AverageQuery | src/hooks/useBookData.ts:63-75 | a backend error fails the query; `null` or no rows gives 0; otherwise the result is the rounded average of the rows |
| UseBookData.BookDataOf | src/hooks/useBookData.ts:47-84 | the hook hands out each query's value once it holds data; otherwise there is no book, reviews are [] and the average is 0; `isLoadingBook` and `isLoadingReviews` are true exactly while their queries load |
| Remote.Settle | src/hooks/useBookData.ts:20-45 | a settled query is never loading; it holds data exactly when its `queryFn` returned, and then that value, and otherwise the error it threw |
| Remote.DataOr | src/hooks/useBookData.ts:47 | a destructuring default: the query's value once it holds data, and the fallback otherwise |
| UseBookData.FailedBookFetchGivesNoBook | src/hooks/useBookData.ts:20-24 | a rejected or non-ok work fetch leaves the hook without a book, never with partial data |
| JsArray.SliceTo | src/components/BookMetadata.tsx:32 | `slice(0, end)` keeps min(n, end) elements, and they are the list's prefix |
| JsArray.PromiseAllSpec | src/hooks/useBookData.ts:39 | `Promise.all` rejects exactly when some promise rejects, and then with a rejected promise's reason; otherwise it yields every value in input order |
| JsArray.PromiseAllAppend | src/hooks/useBookData.ts:39 | `Promise.all` over a concatenation is the first part's rejection, else the second's, else the two value lists joined |
| JsArray.DropNullsAppend | src/hooks/useBookData.ts:40 | filtering out nulls distributes over concatenation |
| JsArray.DropNullsPositions | src/hooks/useBookData.ts:40 | the filtered list is the non-null entries in order: strictly increasing positions pick them out, and every non-null position is among them |
| JsString.FalsyStrings | src/components/BookMetadata.tsx:11 | in a boolean context the falsy strings are exactly `undefined` and "" |
| JsString.TrimSpec | src/components/SearchBar.tsx:20-21 | `trim` leaves whitespace at neither end, and returns "" exactly for an all-whitespace string |
| JsString.TrimFrame | src/components/SearchBar.tsx:21 | `trim` only removes whitespace: the input is the result with a run of whitespace on each side |
| JsString.TrimUnique | src/components/SearchBar.tsx:21 | any trimmed infix framed by whitespace is what `trim` returns, so `trim` has one possible result |
| JsString.TrimIdempotent | src/components/SearchBar.tsx:20-21 | trimming twice is trimming once |
| JsString.NonBlankTrim | src/components/ReviewForm.tsx:35 | `text.trim()`-or-`null` never yields the empty string |
| JsString.NonBlankTrimSpec | src/components/ReviewForm.tsx:35 | `text.trim()`-or-`null` is null exactly for blank text; otherwise it is the trimmed text, which is non-empty and trimmed |
| JsString.NonBlankTrimIdempotent | src/components/SearchBar.tsx:20-21 | applying the guard to its own result gives the same result |
| JsString.Split | src/pages/AuthorPage.tsx:124 | `split` gives at least one piece, no piece holds the separator, and joining the pieces gives the input back |
| JsString.SplitJoin | src/pages/AuthorPage.tsx:124 | splitting a join of separator-free pieces gives the pieces back |
| JsString.LastPieceIsTail | src/components/BookHeader.tsx:18 | `split(sep).pop()` holds no separator and ends the string; it is the whole string when there is no separator, and otherwise a separator comes right before it |
| JsString.TailIsLastPiece | src/components/BookHeader.tsx:18 | those properties have one solution, so they define `split(sep).pop()` |
| JsNumber.Round | src/hooks/useBookData.ts:74 | `Math.round(num / den)` is the r with -den < 2·den·r - 2·num <= den |
| JsNumber.RoundUnique | src/hooks/useBookData.ts:74 | only one integer meets that bound, so it specifies `Math.round` fully |
| JsNumber.NatToString | src/components/BookHeader.tsx:42 | `${n}` is digits only, with no leading zero except in "0" |
| JsNumber.NatToStringRoundTrip | src/components/BookHeader.tsx:42 | reading the digits of `${n}` back gives n |
| JsNumber.IntToString | src/pages/AuthorPage.tsx:86 | `${i}` is non-empty, starts with a minus sign exactly for a negative number, and the digits after any sign read back as the magnitude of i |
| JsNumber.FormatTenths | src/components/BookHeader.tsx:39 | `${t / 10}` is non-empty and starts with a minus sign exactly for a negative number |
| JsNumber.UnsignedTenthsRoundTrip | src/components/BookHeader.tsx:39 | the text of a non-negative number of tenths starts with a digit and reads back as that number |
| JsNumber.FormatTenthsRoundTrip | src/components/BookHeader.tsx:39 | `${t / 10}` (no ".0" for whole numbers) reads back as t tenths |
| JsNumber.FormatTenthsInjective | src/components/BookHeader.tsx:39 | different averages print differently |
| OpenLibrary.ShownText | src/components/BookMetadata.tsx:17-23 | a missing field or the empty string shows nothing; a string shows as-is; a `{ value }` wrapper (always truthy) shows its `value` |
| OpenLibrary.ShownTextIgnoresShape | src/components/BookMetadata.tsx:21-23 | the same non-empty text shows the same in either wire shape |
| OpenLibrary.CoverUrl | src/pages/AuthorPage.tsx:84-86 | a URL exists exactly when the id list exists and its first id is truthy (not 0), and it is the covers template with that id, kind and size |
| BookHeader.GetAuthorId | src/components/BookHeader.tsx:16-19 | "" gives ""; a key without '/' is returned unchanged; otherwise the result is the text after the last '/'; it never holds a '/' |
| BookHeader.GetAuthorIdIsLastSegment | src/components/BookHeader.tsx:16-19 | for every key, `getAuthorId` equals the bare `split('/').pop()` used for work links |
| BookHeader.GetAuthorIdIdempotent | src/components/BookHeader.tsx:16-19 | extracting the id of an id gives it back |
| BookHeader.AuthorLink | src/components/BookHeader.tsx:28 | an author link is "/author/" followed by one path segment, with no further '/' |
| BookHeader.GetAuthorIdAfterSlash | src/components/BookHeader.tsx:17-19 | a '/'-free segment after a prefix ending in '/' is exactly what `getAuthorId` extracts |
| BookHeader.AuthorLinkOfCatalogKey | src/components/BookHeader.tsx:28 | the author key "/authors/<id>" links to "/author/<id>" |
| BookHeader.AuthorLinks | src/components/BookHeader.tsx:25-34 | no author list gives no links; otherwise there is one (link, name) pair per author, in order |
| BookHeader.RatingLabel | src/components/BookHeader.tsx:39 | "No ratings yet" exactly when the average is 0; otherwise the printed average followed by " / 5" |
| BookHeader.RatingLabelDeterminesAverage | src/components/BookHeader.tsx:39 | different averages get different labels |
| BookHeader.NoRatingsIffNoReviews | src/components/BookHeader.tsx:39 | with every rating in 1..5, the sentinel shows exactly when there are no ratings |
| BookHeader.ReviewNoun | src/components/BookHeader.tsx:42 | "review" exactly when the count is 1, otherwise "reviews" |
| BookHeader.ReviewCountLabel | src/components/BookHeader.tsx:42 | the count in decimal, a space and the noun, in parentheses |
| BookHeader.ReviewCountLabelDeterminesCount | src/components/BookHeader.tsx:42 | different counts get different labels |
| BookMetadata.Render | src/components/BookMetadata.tsx:11-32 | the publish-date line appears exactly for a non-empty date; the description is shown as `ShownText` says; a subject list is shown exactly when present, as its first min(10, n) subjects in order, so all of them when n <= 10 |
| AuthorPage.LoadAuthor | src/pages/AuthorPage.tsx:31-35 | the query fails exactly when the response is not ok: a rejected fetch with its reason, a non-ok response with "Failed to fetch author details"; an ok one yields its body |
| AuthorPage.LoadWorks | src/pages/AuthorPage.tsx:40-44 | the query fails exactly when the response is not ok: a rejected fetch with its reason, a non-ok response with "Failed to fetch author works"; an ok one yields its body |
| AuthorPage.WorkLink | src/pages/AuthorPage.tsx:124 | a work links to "/book/" followed by the key's last '/'-segment, the same id `getAuthorId` extracts |
| AuthorPage.WorkLinkOfCatalogKey | src/pages/AuthorPage.tsx:124 | the work key "/works/<id>" links to "/book/<id>" |
| AuthorPage.Lifespan | src/pages/AuthorPage.tsx:100-103 | the line appears exactly for a non-empty birth date; it ends with the death date when that is non-empty, and with "Present" otherwise |
| AuthorPage.Card | src/pages/AuthorPage.tsx:121-149 | a card has the work's link and title, the medium cover exactly when `covers[0]` is truthy, and the date exactly when it is non-empty |
| AuthorPage.RenderPage | src/pages/AuthorPage.tsx:47-152 | the skeleton exactly while either query loads; content exactly when both hold data, with the large photo, name, lifespan, biography and one card per work in order; otherwise nothing |
| AuthorPage.FailedFetchGivesBlankPage | src/pages/AuthorPage.tsx:29-66 | a rejected or non-ok author or works fetch renders nothing once neither query is loading |
| ReviewForm.ToastText | src/components/ReviewForm.tsx:23-48 | the three notifications' titles and descriptions; every one but "Review submitted" uses the destructive style |
| ReviewForm.SubmitEffects | src/components/ReviewForm.tsx:20-53 | an unrated submission has one effect; a rated one sets `isSubmitting`, then inserts the row, and ends by clearing `isSubmitting`; it shows the success notice exactly when the insert succeeded and the failure notice exactly when it failed |
| ReviewForm.UnratedSubmitIsRefused | src/components/ReviewForm.tsx:22-29 | rating 0 only shows "Rating required": no insert, no callback, and `isSubmitting` is unchanged |
| ReviewForm.RatedSubmitInsertsOnce | src/components/ReviewForm.tsx:31-35 | a rated submission inserts exactly one row, with the form's book id, the rating and the payload |
| ReviewForm.InsertedRow | src/components/ReviewForm.tsx:35 | the row carries the form's `bookId` and the selected rating; its text is null exactly for blank text, and otherwise the trimmed text, never "" |
| ReviewForm.CallbackOnlyOnSuccess | src/components/ReviewForm.tsx:37-43 | `onReviewSubmitted` is called exactly once when the insert succeeds, and never otherwise |
| ReviewForm.SubmittingDuringInsertOnly | src/components/ReviewForm.tsx:31-52 | `isSubmitting` is true at the insert and false once the handler finishes, on success and on failure alike |
| ReviewForm.Stars | src/components/ReviewForm.tsx:60-73 | five stars; star i is filled exactly when its value is at most the rating |
| ReviewForm.StarsShowRating | src/components/ReviewForm.tsx:69 | the filled stars are exactly the first `rating` stars |
| ReviewForm.Form.constructor | src/components/ReviewForm.tsx:14-17 | a new form has rating 0, no text, is not submitting, and has done nothing |
| ReviewForm.Form.ClickStar | src/components/ReviewForm.tsx:60-64 | a star click sets the rating to that star's value (1..5) and changes nothing else; the rating stays in 0..5 |
| ReviewForm.Form.ChangeText | src/components/ReviewForm.tsx:84-85 | typing sets the text and changes nothing else |
| ReviewForm.Form.HandleSubmit | src/components/ReviewForm.tsx:20-53 | the handler performs exactly the submission's effects in order, with the payload `text.trim()`-or-`null`; rating and text are kept; `isSubmitting` ends false after a rated submission and is unchanged after an unrated one |
| SearchBar.SearchCalls | src/components/SearchBar.tsx:20-21 | one submission calls `onSearch` at most once |
| SearchBar.SearchCallsSpec | src/components/SearchBar.tsx:18-23 | a blank query makes no `onSearch` call; any other query makes exactly one, with the trimmed query, which is non-empty and trimmed |
| SearchBar.ResubmitSearchesSame | src/components/SearchBar.tsx:20-21 | submitting the passed-on term again searches for the same term |
| SearchBar.Bar.constructor | src/components/SearchBar.tsx:11-12 | `initialValue` defaults to "", and the query starts as it |
| SearchBar.Bar.Rerender | src/components/SearchBar.tsx:14-16 | a changed `initialValue` resets the query to it; an unchanged one keeps whatever was typed |
| SearchBar.Bar.ChangeQuery | src/components/SearchBar.tsx:31 | typing sets the query and changes nothing else |
| SearchBar.Bar.HandleSubmit | src/components/SearchBar.tsx:18-23 | submitting appends exactly the calls the guard allows; every term ever passed on is non-empty and trimmed |

## Left out

- Network and backend calls (`fetch` to OpenLibrary, the backend's select and insert): these are external I/O. Responses, author lookups and insert outcomes are inputs to the model.
- The query cache (caching, de-duplication, invalidation after a review): this is foreign library behaviour with asynchronous interleaving. A query is modelled only by the state it settles in (`Remote.QueryState`).
- The reviews-list query, which passes the backend's rows through in the backend's newest-first order: the ordering is the backend's concern. Only its `[]` default is modelled.
- `Math.round` on doubles: the average is computed in exact integer tenths. Double-precision artefacts on non-representable `.x5` means are not reproduced.
- UseBookData.AverageTenths: assumes integer ratings, as the backend's rating column holds.
- JsNumber.IntToString: gives the plain decimal form for every integer. JavaScript switches to exponent notation from 10^21, which no cover id reaches.
- JsNumber.NatToString: the review count is likewise given in plain decimal form; exponent notation from 10^21 is not modelled.
- JsNumber.FormatTenths: the rating text is likewise given in plain decimal form; exponent notation from 10^21 is not modelled.
- UseBookData.LoadBook: the in-place overwrite of `data.authors` is modelled by returning a new value. An author response without a `name` field (which would give `undefined`) is not modelled; an ok lookup gives a name. A reference without its `author` object, which throws and so fails the load, is not modelled either; every reference is taken to have the `{ author: { key } }` shape.
- UseBookData.LoadBook: when several author fetches reject, which reason `Promise.all` reports depends on timing; the model reports the first rejected reference in input order.
- UseBookData.FailedKeyNeverResolved: lookups are modelled as a function of the key, so every reference with the same key gets the same answer. The code fetches once per reference, and two fetches of the same key could answer differently.
- ReviewForm.Form.HandleSubmit: the asynchronous handler is modelled as one atomic step. A second submission interleaved with a pending insert, and an `onReviewSubmitted` callback that throws, are not modelled.
- Toast, JSX, animation and routing presentation: these are not logic. Only the toast texts (`ReviewForm.ToastText`) and the values that are rendered are modelled.
- The `isLoading` prop that disables the search input, and the disabled submit button while `isSubmitting`: these are presentation only.
- `src/services/api.ts`, the other pages and presentational components, the date formatting in the review list, and `src/types/index.ts`: these are not part of this model.
- User identity and duplicate reviews: the form has neither, so the model has neither.
