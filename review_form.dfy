/**
 The review form: the star picker, the optional text, and the submit handler that refuses an
 unrated review, inserts the row, reports the outcome and clears its busy flag in every case.
 */
module ReviewForm {
  import opened Wrappers
  import opened JsString
  import opened Remote

  /** The values the five star buttons set. */
  const StarValues: seq<int> := [1, 2, 3, 4, 5]

  /** The three notifications the form shows. */
  datatype Toast = RatingRequired | ReviewSubmitted | SubmitFailed

  /** A notification's title, description, and whether it uses the destructive style: every one but the success notice does. */
  function ToastText(toast: Toast): (shown: (string, string, bool))
    ensures shown.2 <==> toast != ReviewSubmitted
  {
    match toast
    case RatingRequired => ("Rating required", "Please select a rating before submitting", true)
    case ReviewSubmitted => ("Review submitted", "Thank you for your review!", false)
    case SubmitFailed => ("Error", "Failed to submit review. Please try again.", true)
  }

  /**
   How the backend insert ends: without an error, or with one (an `error` in the answer, which the
   handler rethrows, or a rejected request; both reach the same `catch`).
   */
  datatype InsertOutcome = InsertOk | InsertFailed

  /** What the form does that can be observed from outside. */
  datatype Effect =
    | ShowToast(toast: Toast)
    | SetSubmitting(on: bool)
    | Insert(row: Review)
    | CallReviewSubmitted

  /** After the insert: the success toast and the callback, or the error toast. */
  function Report(outcome: InsertOutcome): seq<Effect> {
    if outcome.InsertOk? then [ShowToast(ReviewSubmitted), CallReviewSubmitted] else [ShowToast(SubmitFailed)]
  }

  /**
   The effects of one `handleSubmit`, in the order the handler performs them, where `payload` is the
   row's text, `text.trim() || null` (`NonBlankTrim(text)`).
   */
  function SubmitEffects(bookId: string, rating: int, payload: Option<string>, outcome: InsertOutcome): (effects: seq<Effect>)
    ensures |effects| >= 1
    ensures rating == 0 <==> |effects| == 1
    ensures rating != 0 ==> && effects[0] == SetSubmitting(true)
                            && effects[1] == Insert(Review(bookId, rating, payload))
                            && effects[|effects| - 1] == SetSubmitting(false)
    ensures rating != 0 ==> && (ShowToast(ReviewSubmitted) in effects <==> outcome.InsertOk?)
                            && (ShowToast(SubmitFailed) in effects <==> outcome.InsertFailed?)
  {
    if rating == 0 then
      [ShowToast(RatingRequired)]
    else
      [SetSubmitting(true), Insert(Review(bookId, rating, payload))] + Report(outcome) + [SetSubmitting(false)]
  }

  /** The rows a sequence of effects inserts, in order. */
  function Inserts(effects: seq<Effect>): seq<Review>
    decreases |effects|
  {
    if effects == [] then []
    else (if effects[0].Insert? then [effects[0].row] else []) + Inserts(effects[1..])
  }

  /** The value of `isSubmitting` after the effects, starting from `start`: the last value set, if any. */
  function SubmittingAfter(start: bool, effects: seq<Effect>): bool
    decreases |effects|
  {
    if effects == [] then start
    else SubmittingAfter(if effects[0].SetSubmitting? then effects[0].on else start, effects[1..])
  }

  lemma {:induction false} InsertsAppend(a: seq<Effect>, b: seq<Effect>)
    ensures Inserts(a + b) == Inserts(a) + Inserts(b)
    decreases |a|
  {
    if a != [] {
      assert (a + b)[0] == a[0];
      assert (a + b)[1..] == a[1..] + b;
      InsertsAppend(a[1..], b);
    } else {
      assert a + b == b;
    }
  }

  lemma {:induction false} SubmittingAfterAppend(start: bool, a: seq<Effect>, b: seq<Effect>)
    ensures SubmittingAfter(start, a + b) == SubmittingAfter(SubmittingAfter(start, a), b)
    decreases |a|
  {
    if a != [] {
      assert (a + b)[0] == a[0];
      assert (a + b)[1..] == a[1..] + b;
      SubmittingAfterAppend(if a[0].SetSubmitting? then a[0].on else start, a[1..], b);
    } else {
      assert a + b == b;
    }
  }

  /**
   An unrated submission only shows the "Rating required" toast: it inserts nothing, does not call
   `onReviewSubmitted` and leaves `isSubmitting` as it was.
   */
  lemma UnratedSubmitIsRefused(bookId: string, payload: Option<string>, outcome: InsertOutcome, start: bool)
    ensures var effects := SubmitEffects(bookId, 0, payload, outcome);
      && effects == [ShowToast(RatingRequired)]
      && Inserts(effects) == []
      && CallReviewSubmitted !in effects
      && SubmittingAfter(start, effects) == start
  {
  }

  /** A rated submission inserts exactly one row, carrying the form's book, the selected rating and the payload. */
  lemma RatedSubmitInsertsOnce(bookId: string, rating: int, payload: Option<string>, outcome: InsertOutcome)
    requires rating != 0
    ensures Inserts(SubmitEffects(bookId, rating, payload, outcome)) == [Review(bookId, rating, payload)]
  {
    var row := Review(bookId, rating, payload);
    var e1: seq<Effect> := [SetSubmitting(true), Insert(row)];
    var e2 := Report(outcome);
    var e3: seq<Effect> := [SetSubmitting(false)];
    InsertsAppend(e1 + e2, e3);
    InsertsAppend(e1, e2);
    InsertsAppend([SetSubmitting(true)], [Insert(row)]);
    assert [SetSubmitting(true)] + [Insert(row)] == e1;
    if outcome.InsertOk? {
      InsertsAppend([ShowToast(ReviewSubmitted)], [CallReviewSubmitted]);
      assert [ShowToast(ReviewSubmitted)] + [CallReviewSubmitted] == e2;
    }
  }

  /**
   The row a rated submission inserts: the form's `bookId`, the selected rating, and the trimmed
   text, or `null` when the text is blank; the text is never the empty string.
   */
  lemma InsertedRow(bookId: string, rating: int, text: string, outcome: InsertOutcome)
    requires rating != 0
    ensures var rows := Inserts(SubmitEffects(bookId, rating, NonBlankTrim(text), outcome));
      && |rows| == 1
      && rows[0].bookId == bookId && rows[0].rating == rating
      && (rows[0].text.None? <==> AllWhitespace(text))
      && (rows[0].text.Some? ==> rows[0].text.value == Trim(text) && rows[0].text.value != "")
  {
    RatedSubmitInsertsOnce(bookId, rating, NonBlankTrim(text), outcome);
    NonBlankTrimSpec(text);
  }

  /** `onReviewSubmitted` is called once when the insert succeeds and never otherwise. */
  lemma CallbackOnlyOnSuccess(bookId: string, rating: int, payload: Option<string>, outcome: InsertOutcome)
    ensures multiset(SubmitEffects(bookId, rating, payload, outcome))[CallReviewSubmitted]
      == if rating != 0 && outcome.InsertOk? then 1 else 0
  {
  }

  /**
   A rated submission has `isSubmitting` true while the row is inserted and false once the handler
   is done, whatever the outcome and whatever it was before.
   */
  lemma SubmittingDuringInsertOnly(bookId: string, rating: int, payload: Option<string>, outcome: InsertOutcome, start: bool)
    requires rating != 0
    ensures var effects := SubmitEffects(bookId, rating, payload, outcome);
      && effects[1].Insert?
      && SubmittingAfter(start, effects[..1]) == true
      && SubmittingAfter(start, effects) == false
  {
    var e1: seq<Effect> := [SetSubmitting(true), Insert(Review(bookId, rating, payload))];
    var e2 := Report(outcome);
    var e3: seq<Effect> := [SetSubmitting(false)];
    var effects := e1 + e2 + e3;
    SubmittingAfterAppend(start, e1 + e2, e3);
    SubmittingAfterOne(SubmittingAfter(start, e1 + e2), SetSubmitting(false));
    assert effects[..1] == [SetSubmitting(true)];
    SubmittingAfterOne(start, SetSubmitting(true));
  }

  /** One effect: only a `SetSubmitting` changes the flag. */
  lemma SubmittingAfterOne(start: bool, e: Effect)
    ensures SubmittingAfter(start, [e]) == if e.SetSubmitting? then e.on else start
  {
    assert [e][1..] == [];
  }

  /** Star `value` is drawn filled when it is at most the selected rating. */
  function StarFilled(value: int, rating: int): bool {
    value <= rating
  }

  /** The fill of the five stars, left to right. */
  function Stars(rating: int): (stars: seq<bool>)
    ensures |stars| == |StarValues|
    ensures forall i :: 0 <= i < |stars| ==> stars[i] == StarFilled(StarValues[i], rating)
  {
    seq(|StarValues|, i requires 0 <= i < |StarValues| => StarFilled(StarValues[i], rating))
  }

  /** The filled stars are exactly the first `rating` of them, so a rating in 0..5 fills `rating` stars. */
  lemma StarsShowRating(rating: int)
    ensures forall i :: 0 <= i < 5 ==> (Stars(rating)[i] <==> i < rating)
  {
    assert forall i :: 0 <= i < 5 ==> StarValues[i] == i + 1;
  }

  /**
   The form's state: the book it reviews, the selected rating (0 for none), the text, the busy flag,
   and the log of what it has done.
   */
  class Form {
    const bookId: string
    var rating: int
    var text: string
    var isSubmitting: bool
    var effects: seq<Effect>

    /** The rating stays in 0..5, and `isSubmitting` is the last value the form set. */
    ghost predicate Valid()
      reads this
    {
      && 0 <= rating <= 5
      && isSubmitting == SubmittingAfter(false, effects)
    }

    /** A fresh form: no rating, no text, not submitting, nothing done yet. */
    constructor (bookId: string)
      ensures Valid()
      ensures this.bookId == bookId && rating == 0 && text == "" && !isSubmitting && effects == []
    {
      this.bookId := bookId;
      rating := 0;
      text := "";
      isSubmitting := false;
      effects := [];
    }

    /** A star button's click: the rating becomes that star's value. */
    method ClickStar(value: int)
      requires Valid()
      requires value in StarValues
      modifies this
      ensures Valid()
      ensures rating == value
      ensures text == old(text) && isSubmitting == old(isSubmitting) && effects == old(effects)
    {
      rating := value;
    }

    /** Typing in the text area: the text becomes the area's value. */
    method ChangeText(value: string)
      requires Valid()
      modifies this
      ensures Valid()
      ensures text == value
      ensures rating == old(rating) && isSubmitting == old(isSubmitting) && effects == old(effects)
    {
      text := value;
    }

    /**
     `handleSubmit`, run to completion with the insert ending as `outcome`: the effects of
     `SubmitEffects` are performed in order; rating and text stay; `isSubmitting` is unchanged for an
     unrated submission and false afterwards otherwise.
     */
    method HandleSubmit(outcome: InsertOutcome)
      requires Valid()
      modifies this
      ensures Valid()
      ensures effects == old(effects) + SubmitEffects(bookId, old(rating), NonBlankTrim(old(text)), outcome)
      ensures rating == old(rating) && text == old(text)
      ensures isSubmitting == if old(rating) == 0 then old(isSubmitting) else false
    {
      ghost var before := effects;
      if rating == 0 {
        effects := effects + [ShowToast(RatingRequired)];
        SubmittingAfterAppend(false, before, [ShowToast(RatingRequired)]);
        SubmittingAfterOne(isSubmitting, ShowToast(RatingRequired));
        return;
      }
      isSubmitting := true;
      effects := effects + [SetSubmitting(true)];
      var row := Review(bookId, rating, NonBlankTrim(text));
      effects := effects + [Insert(row)];
      ghost var started := effects;
      if outcome.InsertOk? {
        effects := effects + [ShowToast(ReviewSubmitted)];
        effects := effects + [CallReviewSubmitted];
      } else {
        effects := effects + [ShowToast(SubmitFailed)];
      }
      assert effects == started + Report(outcome);
      isSubmitting := false;
      ghost var body := effects;
      effects := effects + [SetSubmitting(false)];
      assert effects == before + ([SetSubmitting(true), Insert(row)] + Report(outcome) + [SetSubmitting(false)]);
      SubmittingAfterAppend(false, body, [SetSubmitting(false)]);
      SubmittingAfterOne(SubmittingAfter(false, body), SetSubmitting(false));
    }
  }
}
