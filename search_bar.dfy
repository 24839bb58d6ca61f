/**
 The search bar: the query it holds, seeded from and reset to its `initialValue` prop, and the
 submit handler that passes the trimmed query on only when it is not blank.
 */
module SearchBar {
  import opened Wrappers
  import opened JsString

  /** The `onSearch` calls one `handleSubmit` makes for `query`: the trimmed query, or none when it is blank. */
  function SearchCalls(query: string): (calls: seq<string>)
    ensures |calls| <= 1
  {
    match NonBlankTrim(query)
    case None => []
    case Some(term) => [term]
  }

  /**
   A blank query makes no call; any other makes exactly one, with the trimmed query, which is
   non-empty and has whitespace at neither end.
   */
  lemma SearchCallsSpec(query: string)
    ensures SearchCalls(query) == [] <==> AllWhitespace(query)
    ensures SearchCalls(query) != [] ==> SearchCalls(query) == [Trim(query)]
    ensures forall term :: term in SearchCalls(query) ==> term != "" && Trimmed(term)
  {
    NonBlankTrimSpec(query);
  }

  /** Typing the term that was passed on and submitting again searches for the same term. */
  lemma ResubmitSearchesSame(query: string)
    requires SearchCalls(query) != []
    ensures SearchCalls(SearchCalls(query)[0]) == SearchCalls(query)
  {
    NonBlankTrimSpec(query);
    NonBlankTrimIdempotent(query);
  }

  /**
   The bar's state: the `initialValue` it was last rendered with, the query in its input, and the
   terms it has passed to `onSearch`, in order.
   */
  class Bar {
    var initialValue: string
    var query: string
    var searches: seq<string>

    /** Every term passed on is non-empty and has whitespace at neither end. */
    ghost predicate Valid()
      reads this
    {
      forall i :: 0 <= i < |searches| ==> searches[i] != "" && Trimmed(searches[i])
    }

    /** The first render: `initialValue` defaults to "", and the query starts as it. */
    constructor (initialValue: Option<string>)
      ensures Valid()
      ensures this.initialValue == initialValue.GetOr("")
      ensures query == this.initialValue && searches == []
    {
      this.initialValue := initialValue.GetOr("");
      query := initialValue.GetOr("");
      searches := [];
    }

    /**
     A render with the prop `initialValue`: the reset effect runs only when the value differs from
     the one it last ran with, and then replaces whatever was typed.
     */
    method Rerender(initialValue: Option<string>)
      requires Valid()
      modifies this
      ensures Valid()
      ensures this.initialValue == initialValue.GetOr("")
      ensures query == if this.initialValue != old(this.initialValue) then this.initialValue else old(query)
      ensures searches == old(searches)
    {
      var value := initialValue.GetOr("");
      if value != this.initialValue {
        query := value;
      }
      this.initialValue := value;
    }

    /** Typing: the query becomes the input's value. */
    method ChangeQuery(value: string)
      requires Valid()
      modifies this
      ensures Valid()
      ensures query == value
      ensures initialValue == old(initialValue) && searches == old(searches)
    {
      query := value;
    }

    /** `handleSubmit`: passes the trimmed query on when it is not blank; the query itself is kept. */
    method HandleSubmit()
      requires Valid()
      modifies this
      ensures Valid()
      ensures searches == old(searches) + SearchCalls(query)
      ensures query == old(query) && initialValue == old(initialValue)
    {
      var term := NonBlankTrim(query);
      NonBlankTrimSpec(query);
      if term.Some? {
        searches := searches + [term.value];
      }
    }
  }
}
