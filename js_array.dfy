/** The JavaScript array built-ins the application relies on, over `seq`. */
module JsArray {
  import opened Wrappers

  /** `xs.pop()` on a non-empty array: its last element. */
  function Last<T>(xs: seq<T>): T
    requires |xs| >= 1
  {
    xs[|xs| - 1]
  }

  /** `xs.slice(0, end)` for a non-negative `end`: the first `end` elements, or all of them when there are fewer. */
  function SliceTo<T>(xs: seq<T>, end: nat): (ys: seq<T>)
    ensures |ys| == if |xs| < end then |xs| else end
    ensures ys == xs[..|ys|]
  {
    if |xs| <= end then xs else xs[..end]
  }

  /** `results.filter(x => x !== null)`: the non-null results, in order. */
  function DropNulls<T>(results: seq<Option<T>>): seq<T> {
    if results == [] then []
    else if results[0].None? then DropNulls(results[1..])
    else [results[0].value] + DropNulls(results[1..])
  }

  lemma {:induction false} DropNullsAppend<T>(a: seq<Option<T>>, b: seq<Option<T>>)
    ensures DropNulls(a + b) == DropNulls(a) + DropNulls(b)
  {
    if a != [] {
      assert (a + b)[0] == a[0];
      assert (a + b)[1..] == a[1..] + b;
      DropNullsAppend(a[1..], b);
    } else {
      assert a + b == b;
    }
  }

  /**
   `Promise.all` over promises that have already settled, each as its value or its rejection
   reason: all the values in order when none rejects, and otherwise a rejection. Which reason
   wins depends on timing; this model takes the first rejected promise in input order.
   */
  function PromiseAll<T>(settled: seq<Result<T, string>>): Result<seq<T>, string>
    decreases |settled|
  {
    if settled == [] then
      Success([])
    else if settled[0].Failure? then
      Failure(settled[0].error)
    else
      match PromiseAll(settled[1..])
      case Failure(e) => Failure(e)
      case Success(vs) => Success([settled[0].value] + vs)
  }

  /**
   `Promise.all` rejects exactly when some promise rejects, and then with the reason of a rejected
   promise; otherwise it yields every value, in input order.
   */
  lemma {:induction false} PromiseAllSpec<T>(settled: seq<Result<T, string>>)
    ensures var r := PromiseAll(settled);
      && (r.Failure? <==> exists i :: 0 <= i < |settled| && settled[i].Failure?)
      && (r.Failure? ==> exists i :: 0 <= i < |settled| && settled[i] == Failure(r.error))
      && (r.Success? ==> |r.value| == |settled| && forall i :: 0 <= i < |settled| ==> settled[i] == Success(r.value[i]))
    decreases |settled|
  {
    if settled != [] && settled[0].Success? {
      var rest := settled[1..];
      PromiseAllSpec(rest);
      assert forall i :: 1 <= i < |settled| ==> settled[i] == rest[i - 1];
      match PromiseAll(rest)
      case Failure(e) =>
        var i :| 0 <= i < |rest| && rest[i] == Failure(e);
        assert settled[i + 1] == Failure(e);
      case Success(vs) =>
    } else if settled != [] {
      assert settled[0] == Failure(settled[0].error);
    }
  }

  /** Settling two lists of promises one after the other: the first rejection wins, otherwise the values concatenate. */
  lemma {:induction false} PromiseAllAppend<T>(a: seq<Result<T, string>>, b: seq<Result<T, string>>)
    ensures PromiseAll(a + b) ==
      if PromiseAll(a).Failure? then PromiseAll(a)
      else if PromiseAll(b).Failure? then PromiseAll(b)
      else Success(PromiseAll(a).value + PromiseAll(b).value)
    decreases |a|
  {
    if a == [] {
      assert a + b == b;
      if PromiseAll(b).Success? {
        assert [] + PromiseAll(b).value == PromiseAll(b).value;
      }
    } else {
      var ab := a + b;
      assert ab[0] == a[0];
      assert ab[1..] == a[1..] + b;
      if a[0].Success? {
        PromiseAllAppend(a[1..], b);
        var ra, rb := PromiseAll(a[1..]), PromiseAll(b);
        if ra.Success? && rb.Success? {
          assert [a[0].value] + (ra.value + rb.value) == ([a[0].value] + ra.value) + rb.value;
        }
      }
    }
  }

  /** The positions of the non-null results, in increasing order, counting from `from`. */
  function Positions<T>(results: seq<Option<T>>, from: nat): seq<nat>
    decreases |results|
  {
    if results == [] then []
    else (if results[0].Some? then [from] else []) + Positions(results[1..], from + 1)
  }

  lemma {:induction false} PositionsLength<T>(results: seq<Option<T>>, from: nat)
    ensures |Positions(results, from)| == |DropNulls(results)|
    decreases |results|
  {
    if results != [] {
      PositionsLength(results[1..], from + 1);
    }
  }

  /** The `j`th position holds a non-null result, and it is the `j`th output. */
  lemma {:induction false} PositionPicks<T>(results: seq<Option<T>>, from: nat, j: nat)
    requires j < |Positions(results, from)|
    ensures j < |DropNulls(results)|
    ensures var p := Positions(results, from)[j];
      from <= p < from + |results| && results[p - from] == Some(DropNulls(results)[j])
    decreases |results|
  {
    PositionsLength(results, from);
    var rest := results[1..];
    var tail := Positions(rest, from + 1);
    var out := DropNulls(rest);
    if results[0].Some? {
      assert Positions(results, from) == [from] + tail;
      assert DropNulls(results) == [results[0].value] + out;
      if j > 0 {
        PositionPicks(rest, from + 1, j - 1);
        assert results[tail[j - 1] - from] == rest[tail[j - 1] - (from + 1)];
      }
    } else {
      assert Positions(results, from) == tail;
      assert DropNulls(results) == out;
      PositionPicks(rest, from + 1, j);
      assert results[tail[j] - from] == rest[tail[j] - (from + 1)];
    }
  }

  /** Later positions are further on. */
  lemma {:induction false} PositionsIncrease<T>(results: seq<Option<T>>, from: nat, j: nat, k: nat)
    requires j < k < |Positions(results, from)|
    ensures Positions(results, from)[j] < Positions(results, from)[k]
    decreases |results|
  {
    var rest := results[1..];
    var tail := Positions(rest, from + 1);
    if results[0].Some? {
      assert Positions(results, from) == [from] + tail;
      PositionsBelow(rest, from + 1, k - 1);
      if j > 0 {
        PositionsIncrease(rest, from + 1, j - 1, k - 1);
      }
    } else {
      assert Positions(results, from) == tail;
      PositionsIncrease(rest, from + 1, j, k);
    }
  }

  /** Every position is at least the starting count. */
  lemma {:induction false} PositionsBelow<T>(results: seq<Option<T>>, from: nat, j: nat)
    requires j < |Positions(results, from)|
    ensures from <= Positions(results, from)[j]
    decreases |results|
  {
    var rest := results[1..];
    var tail := Positions(rest, from + 1);
    if results[0].Some? {
      assert Positions(results, from) == [from] + tail;
      if j > 0 {
        PositionsBelow(rest, from + 1, j - 1);
      }
    } else {
      assert Positions(results, from) == tail;
      PositionsBelow(rest, from + 1, j);
    }
  }

  /** Every non-null result's position is listed. */
  lemma {:induction false} PositionsComplete<T>(results: seq<Option<T>>, from: nat, i: nat)
    requires i < |results| && results[i].Some?
    ensures from + i in Positions(results, from)
    decreases |results|
  {
    var rest := results[1..];
    var tail := Positions(rest, from + 1);
    if i > 0 {
      assert rest[i - 1] == results[i];
      PositionsComplete(rest, from + 1, i - 1);
    }
  }

  /**
   The non-null results in order: a strictly increasing list of positions, holding every position
   of a non-null result and only those, picks out the output.
   */
  lemma DropNullsPositions<T>(results: seq<Option<T>>) returns (pos: seq<nat>)
    ensures |pos| == |DropNulls(results)|
    ensures forall j :: 0 <= j < |pos| ==> pos[j] < |results| && results[pos[j]] == Some(DropNulls(results)[j])
    ensures forall j, k :: 0 <= j < k < |pos| ==> pos[j] < pos[k]
    ensures forall i :: 0 <= i < |results| && results[i].Some? ==> i in pos
  {
    pos := Positions(results, 0);
    PositionsLength(results, 0);
    forall j | 0 <= j < |pos|
      ensures pos[j] < |results| && results[pos[j]] == Some(DropNulls(results)[j])
    {
      PositionPicks(results, 0, j);
    }
    forall j, k | 0 <= j < k < |pos|
      ensures pos[j] < pos[k]
    {
      PositionsIncrease(results, 0, j, k);
    }
    forall i | 0 <= i < |results| && results[i].Some?
      ensures i in pos
    {
      PositionsComplete(results, 0, i);
    }
  }
}
