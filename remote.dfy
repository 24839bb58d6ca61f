/**
 The boundary to the two external services: what an HTTP fetch of the catalog yields, what a
 backend query yields, and the settled state of a cached query as a component sees it.
 */
module Remote {
  import opened Wrappers

  /**
   A catalog `fetch` followed by `response.json()`: either one of the two promises rejected (a
   network error, a body that is not JSON), or `response.ok` is false, or the parsed JSON body.
   */
  datatype Fetched<T> = FetchRejected(reason: string) | NotOk | Ok(body: T)

  /** The `{ data, error }` pair the review backend answers a select with (`data` may be `null`). */
  datatype Rows<T> = Rows(data: Option<seq<T>>, error: Option<string>)

  /** A review row as inserted: the book it belongs to, the star rating and the optional text. */
  datatype Review = Review(bookId: string, rating: int, text: Option<string>)

  /**
   A query as a component sees it: still loading (`isLoading`), failed (its `queryFn` threw,
   `data` is `undefined`), or holding the value its `queryFn` returned.
   */
  datatype QueryState<T> = Loading | Errored(message: string) | Ready(value: T)

  /** The state a query settles in once its `queryFn` has returned or thrown. */
  function Settle<T>(outcome: Result<T, string>): (q: QueryState<T>)
    ensures !q.Loading?
    ensures q.Ready? <==> outcome.Success?
    ensures q.Ready? ==> q.value == outcome.value
    ensures q.Errored? ==> q.message == outcome.error
  {
    match outcome
    case Success(v) => Ready(v)
    case Failure(e) => Errored(e)
  }

  /** `const { data: x = fallback } = useQuery(...)`: the query's value, or the fallback while there is none. */
  function DataOr<T>(q: QueryState<T>, fallback: T): (v: T)
    ensures q.Ready? ==> v == q.value
    ensures !q.Ready? ==> v == fallback
  {
    if q.Ready? then q.value else fallback
  }
}
