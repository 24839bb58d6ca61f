/**
 The book-detail hook: loading a work with its authors resolved, the average review rating,
 and the values the hook hands out while its queries have no data.
 */
module UseBookData {
  import opened Wrappers
  import opened Remote
  import opened OpenLibrary
  import JsNumber
  import JsArray

  // ---------------------------------------------------------------------------
  // Author resolution
  // ---------------------------------------------------------------------------

  /**
   How one author `fetch` ends: the request or the JSON parsing rejects (with its reason), the
   response is not ok, or the body's `name`.
   */
  datatype AuthorAnswer = Rejected(reason: string) | NotOkAuthor | Named(name: string)

  /** The author lookups, one answer per key (`fetch(openlibrary.org + key + ".json")`). */
  type AuthorLookup = string -> AuthorAnswer

  /** How the promise one reference maps to settles: rejected, `null` for a non-ok response, else `{ key, name }`. */
  function FetchAuthor(ref: AuthorRef, lookup: AuthorLookup): Result<Option<Author>, string> {
    match lookup(ref.author.key)
    case Rejected(reason) => Failure(reason)
    case NotOkAuthor => Success(None)
    case Named(name) => Success(Some(Author(ref.author.key, name)))
  }

  /** `refs.map(...)`: one settled promise per reference, in input order. */
  function FetchAll(refs: seq<AuthorRef>, lookup: AuthorLookup): (results: seq<Result<Option<Author>, string>>)
    ensures |results| == |refs|
    ensures forall i :: 0 <= i < |refs| ==> results[i] == FetchAuthor(refs[i], lookup)
  {
    if refs == [] then [] else [FetchAuthor(refs[0], lookup)] + FetchAll(refs[1..], lookup)
  }

  /** No reference's lookup rejects. */
  predicate NoneRejected(refs: seq<AuthorRef>, lookup: AuthorLookup) {
    forall i :: 0 <= i < |refs| ==> !lookup(refs[i].author.key).Rejected?
  }

  /**
   `Promise.all` of the lookups, then `filter(author => author !== null)`: a rejected lookup
   rejects the whole batch; otherwise the authors whose response was ok, in input order, at most
   one per reference.
   */
  function ResolveAuthors(refs: seq<AuthorRef>, lookup: AuthorLookup): (r: Result<seq<Author>, string>)
    ensures r.Failure? <==> !NoneRejected(refs, lookup)
    ensures r.Failure? ==> exists i :: 0 <= i < |refs| && lookup(refs[i].author.key) == Rejected(r.error)
    ensures r.Success? ==> |r.value| <= |refs|
  {
    var results := FetchAll(refs, lookup);
    JsArray.PromiseAllSpec(results);
    match JsArray.PromiseAll(results)
    case Failure(e) =>
      var i :| 0 <= i < |results| && results[i] == Failure(e);
      assert lookup(refs[i].author.key) == Rejected(e);
      Failure(e)
    case Success(settled) =>
      assert forall i :: 0 <= i < |refs| ==> results[i].Success?;
      DropNullsShorter(settled);
      Success(JsArray.DropNulls(settled))
  }

  lemma {:induction false} DropNullsShorter<T>(xs: seq<Option<T>>)
    ensures |JsArray.DropNulls(xs)| <= |xs|
  {
    if xs != [] {
      DropNullsShorter(xs[1..]);
    }
  }

  /**
   Resolution works reference by reference: resolving a concatenation is resolving the parts,
   the first rejection (in input order) rejecting the whole, so a non-ok author response never
   aborts the batch or changes another reference's entry.
   */
  lemma ResolveAuthorsAppend(a: seq<AuthorRef>, b: seq<AuthorRef>, lookup: AuthorLookup)
    ensures ResolveAuthors(a + b, lookup) ==
      if ResolveAuthors(a, lookup).Failure? then ResolveAuthors(a, lookup)
      else if ResolveAuthors(b, lookup).Failure? then ResolveAuthors(b, lookup)
      else Success(ResolveAuthors(a, lookup).value + ResolveAuthors(b, lookup).value)
  {
    var ab, fa, fb := FetchAll(a + b, lookup), FetchAll(a, lookup), FetchAll(b, lookup);
    assert forall i :: 0 <= i < |ab| ==> ab[i] == (fa + fb)[i] by {
      forall i | 0 <= i < |ab| ensures ab[i] == (fa + fb)[i] {
        if i < |a| { assert (a + b)[i] == a[i]; } else { assert (a + b)[i] == b[i - |a|]; }
      }
    }
    assert ab == fa + fb;
    JsArray.PromiseAllAppend(fa, fb);
    var pa, pb := JsArray.PromiseAll(fa), JsArray.PromiseAll(fb);
    if pa.Success? && pb.Success? {
      JsArray.DropNullsAppend(pa.value, pb.value);
    }
  }

  /**
   When no lookup rejects, the resolved authors are exactly the references whose response was
   ok, in input order: there is a strictly increasing list of input positions, holding every such
   position and only those, such that each output entry keeps that reference's key and takes the
   looked-up name.
   */
  lemma ResolvedPositions(refs: seq<AuthorRef>, lookup: AuthorLookup) returns (pos: seq<nat>)
    requires NoneRejected(refs, lookup)
    ensures ResolveAuthors(refs, lookup).Success?
    ensures var out := ResolveAuthors(refs, lookup).value;
      && |pos| == |out|
      && (forall j :: 0 <= j < |pos| ==>
        && pos[j] < |refs|
        && lookup(refs[pos[j]].author.key).Named?
        && out[j] == Author(refs[pos[j]].author.key, lookup(refs[pos[j]].author.key).name))
      && (forall j, k :: 0 <= j < k < |pos| ==> pos[j] < pos[k])
      && (forall i :: 0 <= i < |refs| && lookup(refs[i].author.key).Named? ==> i in pos)
  {
    var results := FetchAll(refs, lookup);
    JsArray.PromiseAllSpec(results);
    var settled := JsArray.PromiseAll(results).value;
    assert forall i :: 0 <= i < |refs| ==> results[i] == Success(settled[i]);
    pos := JsArray.DropNullsPositions(settled);
  }

  /** With no rejection, the list is empty when every response is non-ok, and full when every one is ok. */
  lemma {:induction false} ResolveAuthorsLength(refs: seq<AuthorRef>, lookup: AuthorLookup)
    requires NoneRejected(refs, lookup)
    ensures var out := ResolveAuthors(refs, lookup).value;
      && ((forall i :: 0 <= i < |refs| ==> lookup(refs[i].author.key).NotOkAuthor?) ==> out == [])
      && ((forall i :: 0 <= i < |refs| ==> lookup(refs[i].author.key).Named?) ==> |out| == |refs|)
    decreases |refs|
  {
    if refs != [] {
      var head, rest := [refs[0]], refs[1..];
      assert refs == head + rest;
      assert forall i :: 0 <= i < |rest| ==> rest[i] == refs[i + 1];
      ResolveAuthorsAppend(head, rest, lookup);
      ResolveAuthorsLength(rest, lookup);
      ResolveOne(refs[0], lookup);
    }
  }

  /** One reference resolves to its author when its response is ok, and to nothing when it is not. */
  lemma ResolveOne(ref: AuthorRef, lookup: AuthorLookup)
    requires !lookup(ref.author.key).Rejected?
    ensures ResolveAuthors([ref], lookup) ==
      if lookup(ref.author.key).Named? then Success([Author(ref.author.key, lookup(ref.author.key).name)]) else Success([])
  {
    var results := FetchAll([ref], lookup);
    assert results == [FetchAuthor(ref, lookup)];
    assert results[1..] == [];
    var v := FetchAuthor(ref, lookup).value;
    assert JsArray.PromiseAll(results[1..]) == Success([]);
    assert [v] + [] == [v];
    assert JsArray.PromiseAll(results) == Success([v]);
    assert [v][1..] == [];
    assert JsArray.DropNulls([v][1..]) == [];
    if v.Some? {
      assert JsArray.DropNulls([v]) == [v.value];
    } else {
      assert JsArray.DropNulls([v]) == [];
    }
    assert ResolveAuthors([ref], lookup) == Success(JsArray.DropNulls([v]));
  }

  /** With no rejection, no resolved author stems from a reference whose response was not ok. */
  lemma FailedKeyNeverResolved(refs: seq<AuthorRef>, lookup: AuthorLookup, key: string)
    requires NoneRejected(refs, lookup)
    requires lookup(key).NotOkAuthor?
    ensures forall a :: a in ResolveAuthors(refs, lookup).value ==> a.key != key
  {
    var pos := ResolvedPositions(refs, lookup);
  }

  // ---------------------------------------------------------------------------
  // Loading a book
  // ---------------------------------------------------------------------------

  const BookFetchError := "Failed to fetch book details"

  /**
   The book query's `queryFn`: a rejected work fetch rethrows its reason, a non-ok work response
   throws, and so does a rejected author lookup; otherwise the body is returned with its
   `authors` replaced by the resolved list when it has one, and untouched otherwise.
   */
  function LoadBook(response: Fetched<Work<AuthorRef>>, lookup: AuthorLookup): (r: Result<Work<Author>, string>)
    ensures r.Failure? <==> !response.Ok? || (response.body.authors.Some? && !NoneRejected(response.body.authors.value, lookup))
    ensures response.FetchRejected? ==> r.error == response.reason
    ensures response.NotOk? ==> r.error == BookFetchError
    ensures r.Success? ==> var raw := response.body;
      && r.value.title == raw.title
      && r.value.covers == raw.covers
      && r.value.firstPublishDate == raw.firstPublishDate
      && r.value.description == raw.description
      && r.value.subjects == raw.subjects
      && r.value.authors == if raw.authors.Some? then Some(ResolveAuthors(raw.authors.value, lookup).value) else None
  {
    match response
    case FetchRejected(reason) => Failure(reason)
    case NotOk => Failure(BookFetchError)
    case Ok(raw) =>
      if raw.authors.None? then
        Success(Work(raw.title, None, raw.covers, raw.firstPublishDate, raw.description, raw.subjects))
      else
        match ResolveAuthors(raw.authors.value, lookup)
        case Failure(e) => Failure(e)
        case Success(authors) =>
          Success(Work(raw.title, Some(authors), raw.covers, raw.firstPublishDate, raw.description, raw.subjects))
  }

  /**
   A failed work response, or a work without `authors`, issues no author lookup: the outcome is the
   same whatever the lookups would answer.
   */
  lemma LoadBookWithoutAuthorsIgnoresLookup(response: Fetched<Work<AuthorRef>>, lookup1: AuthorLookup, lookup2: AuthorLookup)
    requires response.Ok? ==> response.body.authors.None?
    ensures LoadBook(response, lookup1) == LoadBook(response, lookup2)
  {
  }

  /**
   A rejected author lookup fails the whole book load with that lookup's reason, and the hook
   then has no book.
   */
  lemma RejectedAuthorFailsBook(raw: Work<AuthorRef>, lookup: AuthorLookup, i: nat,
                                reviewsQ: QueryState<seq<Review>>, ratingQ: QueryState<int>)
    requires raw.authors.Some? && i < |raw.authors.value| && lookup(raw.authors.value[i].author.key).Rejected?
    ensures var r := LoadBook(Ok(raw), lookup);
      && r.Failure?
      && exists j :: 0 <= j < |raw.authors.value| && lookup(raw.authors.value[j].author.key) == Rejected(r.error)
    ensures BookDataOf(Settle(LoadBook(Ok(raw), lookup)), reviewsQ, ratingQ).book.None?
  {
  }

  /**
   When no lookup rejects, a loaded book's authors are the ok references of the body it came
   from, in input order: every one comes from a reference with the same key and the name its
   lookup gave, and every reference whose response was ok appears.
   */
  lemma LoadBookResolvesAuthors(raw: Work<AuthorRef>, lookup: AuthorLookup)
    requires raw.authors.Some? && NoneRejected(raw.authors.value, lookup)
    ensures var r := LoadBook(Ok(raw), lookup);
      && r.Success? && r.value.authors.Some?
      && r.value.authors.value == ResolveAuthors(raw.authors.value, lookup).value
      && |r.value.authors.value| <= |raw.authors.value|
      && (forall a :: a in r.value.authors.value ==>
        exists i :: 0 <= i < |raw.authors.value| && raw.authors.value[i].author.key == a.key && lookup(a.key) == Named(a.name))
      && (forall i :: 0 <= i < |raw.authors.value| && lookup(raw.authors.value[i].author.key).Named? ==>
        Author(raw.authors.value[i].author.key, lookup(raw.authors.value[i].author.key).name) in r.value.authors.value)
  {
    var refs := raw.authors.value;
    var pos := ResolvedPositions(refs, lookup);
    var out := ResolveAuthors(refs, lookup).value;
    forall a | a in out
      ensures exists i :: 0 <= i < |refs| && refs[i].author.key == a.key && lookup(a.key) == Named(a.name)
    {
      var j :| 0 <= j < |out| && out[j] == a;
      assert refs[pos[j]].author.key == a.key;
    }
    forall i | 0 <= i < |refs| && lookup(refs[i].author.key).Named?
      ensures Author(refs[i].author.key, lookup(refs[i].author.key).name) in out
    {
      var j :| 0 <= j < |pos| && pos[j] == i;
      assert out[j] == Author(refs[i].author.key, lookup(refs[i].author.key).name);
    }
  }

  // ---------------------------------------------------------------------------
  // Average rating
  // ---------------------------------------------------------------------------

  /** The sum of the ratings. */
  function Sum(ratings: seq<int>): int {
    if ratings == [] then 0 else ratings[0] + Sum(ratings[1..])
  }

  /** `ratings.reduce((sum, r) => sum + r, acc)`: a left fold from `acc`, which adds the ratings to `acc`. */
  function Reduce(ratings: seq<int>, acc: int): (total: int)
    ensures total == acc + Sum(ratings)
  {
    if ratings == [] then acc else Reduce(ratings[1..], acc + ratings[0])
  }

  lemma {:induction false} SumAppend(a: seq<int>, b: seq<int>)
    ensures Sum(a + b) == Sum(a) + Sum(b)
  {
    if a != [] {
      assert (a + b)[0] == a[0];
      assert (a + b)[1..] == a[1..] + b;
      SumAppend(a[1..], b);
    } else {
      assert a + b == b;
    }
  }

  lemma SumCons(x: int, xs: seq<int>)
    ensures Sum([x] + xs) == x + Sum(xs)
  {
    assert ([x] + xs)[1..] == xs;
  }

  /** Taking one rating out of the list takes it out of the sum. */
  lemma SumRemove(b: seq<int>, i: nat)
    requires i < |b|
    ensures Sum(b) == b[i] + Sum(b[..i] + b[i + 1..])
  {
    var pre, post := b[..i], b[i + 1..];
    assert b == pre + ([b[i]] + post);
    SumAppend(pre, [b[i]] + post);
    SumCons(b[i], post);
    SumAppend(pre, post);
  }

  /** The sum does not depend on the order of the rows. */
  lemma {:induction false} SumPermutation(a: seq<int>, b: seq<int>)
    requires multiset(a) == multiset(b)
    ensures Sum(a) == Sum(b)
    decreases |a|
  {
    if a != [] {
      assert a[0] in multiset(b);
      var i :| 0 <= i < |b| && b[i] == a[0];
      var rest := b[..i] + b[i + 1..];
      MultisetRemove(a, b, i);
      SumPermutation(a[1..], rest);
      SumRemove(b, i);
    }
  }

  /** Matching the first of `a` with an equal element of `b` leaves equal multisets behind. */
  lemma MultisetRemove(a: seq<int>, b: seq<int>, i: nat)
    requires multiset(a) == multiset(b)
    requires a != [] && i < |b| && b[i] == a[0]
    ensures multiset(a[1..]) == multiset(b[..i] + b[i + 1..])
  {
    assert b == b[..i] + [b[i]] + b[i + 1..];
    assert a == [a[0]] + a[1..];
    calc {
      multiset(a[1..]);
      multiset(a) - multiset{a[0]};
      multiset(b) - multiset{b[i]};
      multiset(b[..i] + b[i + 1..]);
    }
  }

  /** Ratings between `lo` and `hi` sum to between `n * lo` and `n * hi`. */
  lemma {:induction false} SumBounds(ratings: seq<int>, lo: int, hi: int)
    requires forall i :: 0 <= i < |ratings| ==> lo <= ratings[i] <= hi
    ensures |ratings| * lo <= Sum(ratings) <= |ratings| * hi
  {
    if ratings != [] {
      SumBounds(ratings[1..], lo, hi);
      assert (|ratings| - 1) * lo + lo == |ratings| * lo;
      assert (|ratings| - 1) * hi + hi == |ratings| * hi;
    }
  }

  /**
   The average rating in tenths, `Math.round(sum / n * 10)` (the value the hook returns is this
   divided by 10): 0 for no ratings, otherwise 10 * sum / n rounded half up.
   */
  function AverageTenths(ratings: seq<int>): (t: int)
    ensures |ratings| == 0 ==> t == 0
    ensures |ratings| > 0 ==> -|ratings| < 2 * |ratings| * t - 20 * Sum(ratings) <= |ratings|
  {
    if |ratings| == 0 then
      0
    else
      JsNumber.Round(10 * Reduce(ratings, 0), |ratings|)
  }

  /** Rounding to tenths moves the mean by at most 0.05: |t / 10 - sum / n| <= 1 / 20. */
  lemma AverageNearMean(ratings: seq<int>)
    requires |ratings| > 0
    ensures var n, t := |ratings|, AverageTenths(ratings);
      20 * (n * t - 10 * Sum(ratings)) <= 10 * n && -10 * n <= 20 * (n * t - 10 * Sum(ratings))
  {
    ScaleBound(|ratings|, AverageTenths(ratings), Sum(ratings));
  }

  /** The rounding bound, scaled by ten. */
  lemma ScaleBound(n: int, t: int, s: int)
    requires -n < 2 * n * t - 20 * s <= n
    ensures 20 * (n * t - 10 * s) <= 10 * n && -10 * n <= 20 * (n * t - 10 * s)
  {
    assert 2 * n * t == 2 * (n * t);
  }

  /** With every rating in 1..5, a non-empty set of reviews averages between 1.0 and 5.0. */
  lemma AverageInStarRange(ratings: seq<int>)
    requires |ratings| > 0
    requires forall i :: 0 <= i < |ratings| ==> 1 <= ratings[i] <= 5
    ensures 10 <= AverageTenths(ratings) <= 50
  {
    var n, t := |ratings|, AverageTenths(ratings);
    SumBounds(ratings, 1, 5);
    assert 2 * n * 9 < 2 * n * t;
    assert 2 * n * t < 2 * n * 51;
    JsNumber.CancelFactor(2 * n, 9, t);
    JsNumber.CancelFactor(2 * n, t, 51);
  }

  /** The average does not depend on the order in which the backend returns the rows. */
  lemma AveragePermutation(a: seq<int>, b: seq<int>)
    requires multiset(a) == multiset(b)
    ensures AverageTenths(a) == AverageTenths(b)
  {
    assert |a| == |multiset(a)| == |multiset(b)| == |b|;
    if |a| > 0 {
      SumPermutation(a, b);
      JsNumber.RoundUnique(10 * Sum(a), |a|, AverageTenths(a));
      JsNumber.RoundUnique(10 * Sum(a), |a|, AverageTenths(b));
    }
  }

  /** The exact-tenths and exact-half cases: [4, 4, 5] is 4.3, [3, 4] is 3.5 and [4, 5] is 4.5. */
  lemma AverageExamples()
    ensures AverageTenths([4, 4, 5]) == 43
    ensures AverageTenths([3, 4]) == 35
    ensures AverageTenths([4, 5]) == 45
  {
    JsNumber.RoundUnique(130, 3, 43);
    JsNumber.RoundUnique(70, 2, 35);
    JsNumber.RoundUnique(90, 2, 45);
  }

  /**
   The rating query's `queryFn`: a backend error throws; no rows (`null` or empty) is 0; otherwise
   the rounded average of the rows' ratings.
   */
  function AverageQuery(response: Rows<int>): (r: Result<int, string>)
    ensures response.error.Some? <==> r.Failure?
    ensures r.Success? && (response.data.None? || response.data.value == []) ==> r.value == 0
    ensures r.Success? && response.data.Some? ==> r.value == AverageTenths(response.data.value)
  {
    if response.error.Some? then Failure(response.error.value)
    else if response.data.None? || |response.data.value| == 0 then Success(0)
    else Success(AverageTenths(response.data.value))
  }

  // ---------------------------------------------------------------------------
  // The hook's result
  // ---------------------------------------------------------------------------

  /** What the hook returns to the book page. */
  datatype BookData = BookData(
    book: Option<Work<Author>>,
    reviews: seq<Review>,
    averageRating: int,
    isLoadingBook: bool,
    isLoadingReviews: bool)

  /**
   `useBookData`: the three queries' current states, with `reviews` defaulting to [] and
   `averageRating` to 0 while their queries hold no data.
   */
  function BookDataOf(bookQ: QueryState<Work<Author>>, reviewsQ: QueryState<seq<Review>>, ratingQ: QueryState<int>): (d: BookData)
    ensures d.book.Some? <==> bookQ.Ready?
    ensures bookQ.Ready? ==> d.book == Some(bookQ.value)
    ensures d.reviews == if reviewsQ.Ready? then reviewsQ.value else []
    ensures d.averageRating == if ratingQ.Ready? then ratingQ.value else 0
    ensures d.isLoadingBook <==> bookQ.Loading?
    ensures d.isLoadingReviews <==> reviewsQ.Loading?
  {
    BookData(
      if bookQ.Ready? then Some(bookQ.value) else None,
      DataOr(reviewsQ, []),
      DataOr(ratingQ, 0),
      bookQ.Loading?,
      reviewsQ.Loading?)
  }

  /** A rejected or non-ok work response leaves the hook without a book: no partial data is shown. */
  lemma FailedBookFetchGivesNoBook(response: Fetched<Work<AuthorRef>>, lookup: AuthorLookup,
                                   reviewsQ: QueryState<seq<Review>>, ratingQ: QueryState<int>)
    requires !response.Ok?
    ensures BookDataOf(Settle(LoadBook(response, lookup)), reviewsQ, ratingQ).book.None?
  {
  }
}
