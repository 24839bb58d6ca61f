/**
 The book page header: the link to each author's page, the average-rating label and the
 review-count label.
 */
module BookHeader {
  import opened Wrappers
  import opened JsString
  import opened JsArray
  import JsNumber
  import OpenLibrary
  import UseBookData

  /**
   `getAuthorId`: the part of a catalog key after its last '/', or the whole key when it has none
   (the empty key gives ""). The result holds no '/', ends the key and, when the key has a '/',
   comes right after one.
   */
  function GetAuthorId(authorKey: string): (id: string)
    ensures authorKey == "" ==> id == ""
    ensures '/' !in id
    ensures |id| <= |authorKey| && id == authorKey[|authorKey| - |id|..]
    ensures '/' !in authorKey ==> id == authorKey
    ensures '/' in authorKey ==> authorKey[|authorKey| - |id| - 1] == '/'
  {
    if authorKey == "" then
      ""
    else if '/' in authorKey then
      LastPieceIsTail(authorKey, '/');
      Last(Split(authorKey, '/'))
    else
      authorKey
  }

  /**
   The guard for the empty key and the test for '/' change nothing: `getAuthorId` is the bare
   `split('/').pop()` extraction the author page uses for work links.
   */
  lemma GetAuthorIdIsLastSegment(authorKey: string)
    ensures GetAuthorId(authorKey) == Last(Split(authorKey, '/'))
  {
    TailIsLastPiece(authorKey, '/', GetAuthorId(authorKey));
  }

  /** An extracted id holds no '/', so extracting again gives it back. */
  lemma GetAuthorIdIdempotent(authorKey: string)
    ensures GetAuthorId(GetAuthorId(authorKey)) == GetAuthorId(authorKey)
  {
  }

  /** The route an author's name links to. */
  function AuthorLink(authorKey: string): (link: string)
    ensures |link| >= 8 && link[..8] == "/author/"
    ensures '/' !in link[8..]
  {
    "/author/" + GetAuthorId(authorKey)
  }

  /** A '/'-free segment after a prefix that ends in '/' is what `getAuthorId` extracts. */
  lemma GetAuthorIdAfterSlash(prefix: string, id: string)
    requires |prefix| >= 1 && prefix[|prefix| - 1] == '/'
    requires '/' !in id
    ensures GetAuthorId(prefix + id) == id
  {
    var key := prefix + id;
    assert key[|key| - |id|..] == id;
    assert key[|key| - |id| - 1] == '/';
    assert '/' in key;
    TailIsLastPiece(key, '/', id);
    GetAuthorIdIsLastSegment(key);
  }

  /** A catalog author key "/authors/<id>" links to the author page "/author/<id>". */
  lemma AuthorLinkOfCatalogKey(id: string)
    requires '/' !in id
    ensures AuthorLink("/authors/" + id) == "/author/" + id
  {
    GetAuthorIdAfterSlash("/authors/", id);
  }

  /** `authors?.map(...)`: one (link, name) pair per resolved author, in order; none without an author list. */
  function AuthorLinks(authors: Option<seq<OpenLibrary.Author>>): (links: seq<(string, string)>)
    ensures authors.None? ==> links == []
    ensures authors.Some? ==> |links| == |authors.value|
    ensures authors.Some? ==> forall i :: 0 <= i < |links| ==>
      links[i] == (AuthorLink(authors.value[i].key), authors.value[i].name)
  {
    if authors.None? then []
    else seq(|authors.value|, i requires 0 <= i < |authors.value| => (AuthorLink(authors.value[i].key), authors.value[i].name))
  }

  const NoRatings := "No ratings yet"

  /**
   The rating label for an average of `averageTenths` tenths: the sentinel when the average is 0
   (falsy), otherwise the printed average followed by " / 5".
   */
  function RatingLabel(averageTenths: int): (caption: string)
    ensures averageTenths == 0 <==> caption == NoRatings
    ensures averageTenths != 0 ==> caption == JsNumber.FormatTenths(averageTenths) + " / 5"
  {
    if averageTenths == 0 then
      NoRatings
    else
      var caption := JsNumber.FormatTenths(averageTenths) + " / 5";
      assert caption[|caption| - 1] != NoRatings[|NoRatings| - 1];
      caption
  }

  /** Different averages get different labels, so the label shows the average exactly. */
  lemma RatingLabelDeterminesAverage(a: int, b: int)
    requires RatingLabel(a) == RatingLabel(b)
    ensures a == b
  {
    if a != 0 && b != 0 {
      var la, lb := JsNumber.FormatTenths(a), JsNumber.FormatTenths(b);
      assert la == RatingLabel(a)[..|RatingLabel(a)| - 4];
      assert lb == RatingLabel(b)[..|RatingLabel(b)| - 4];
      JsNumber.FormatTenthsInjective(a, b);
    }
  }

  /** With every rating in 1..5, the header says "No ratings yet" exactly when there are no ratings. */
  lemma NoRatingsIffNoReviews(ratings: seq<int>)
    requires forall i :: 0 <= i < |ratings| ==> 1 <= ratings[i] <= 5
    ensures RatingLabel(UseBookData.AverageTenths(ratings)) == NoRatings <==> ratings == []
  {
    if ratings != [] {
      UseBookData.AverageInStarRange(ratings);
    }
  }

  /** The noun after the count: singular exactly for one review. */
  function ReviewNoun(count: nat): (noun: string)
    ensures noun == "review" <==> count == 1
    ensures count != 1 ==> noun == "reviews"
  {
    if count == 1 then "review" else "reviews"
  }

  /** `({reviewCount} review|reviews)`: the count in decimal, a space, the noun, in parentheses. */
  function ReviewCountLabel(count: nat): (caption: string)
    ensures |caption| >= 2 && caption[0] == '(' && caption[|caption| - 1] == ')'
    ensures caption[1..] == JsNumber.NatToString(count) + [' '] + (ReviewNoun(count) + ")")
  {
    "(" + JsNumber.NatToString(count) + " " + ReviewNoun(count) + ")"
  }

  /** Different counts get different labels: the label's digits read back as the count. */
  lemma ReviewCountLabelDeterminesCount(a: nat, b: nat)
    requires ReviewCountLabel(a) == ReviewCountLabel(b)
    ensures a == b
  {
    var da, db := JsNumber.NatToString(a), JsNumber.NatToString(b);
    assert ' ' !in da by { assert forall i :: 0 <= i < |da| ==> JsNumber.IsDigit(da[i]); }
    assert ' ' !in db by { assert forall i :: 0 <= i < |db| ==> JsNumber.IsDigit(db[i]); }
    SplitPrefix(da, ReviewNoun(a) + ")", ' ');
    SplitPrefix(db, ReviewNoun(b) + ")", ' ');
    assert Split(ReviewCountLabel(a)[1..], ' ')[0] == da;
    assert Split(ReviewCountLabel(b)[1..], ' ')[0] == db;
    JsNumber.NatToStringRoundTrip(a);
    JsNumber.NatToStringRoundTrip(b);
  }
}
