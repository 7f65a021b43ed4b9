/** Failure-compatible wrappers and the error kinds of the apt source/index
    pipeline. Each `Error` constructor stands for one exception path of the
    Python scripts; the comment on it names the exception that path raises. */
module Outcome {

  datatype Option<+T> = None | Some(value: T)

  datatype Error =
    /** InvalidListException: no `.list` line survived the filter. */
    | InvalidList
    /** DebSrcLineUnparseable: a line the source-line grammar rejects. */
    | LineUnparseable(line: string)
    /** DebSrcNotImplemented: a well-formed `deb-src` line. */
    | DebSrcNotImplemented
    /** ValueError: fewer than four whitespace-separated fields to unpack. */
    | TooFewFields(line: string)
    /** AttributeError: the index URL does not match URL_MATCHER. */
    | UrlMismatch(url: string)
    /** requests raised before any response (no response is known for the URL). */
    | Unreachable(url: string)
    /** ValueError: the index fetch answered with a status other than 200. */
    | FetchStatus(url: string, status: int)
    /** ValueError: a stanza header line without the `": "` separator. */
    | MalformedLine(line: string)
    /** ValueError: `int()` rejected the value of a `Size` field. */
    | BadSize(text: string)
    /** TypeError: `"\n".join` met the integer of a `Size` field that has continuation lines. */
    | FoldedSize
    /** AttributeError: a record lacks a field the caller reads. */
    | MissingField(name: string)
    /** TypeError: a field the caller uses as text holds an integer. */
    | NotText(name: string)
    /** TypeError: `sum` met a `size` that is text, not an integer. */
    | SizeNotNumber

  datatype Result<+T> = Ok(value: T) | Err(error: Error) {

    predicate IsFailure() {
      Err?
    }

    function PropagateFailure<U>(): Result<U>
      requires Err?
    {
      Err(error)
    }

    function Extract(): T
      requires Ok?
    {
      value
    }
  }

  /** Apply `f` to every element in order and concatenate the results; the
      first failure ends the loop and is the outcome. */
  function FlatMap<X, Y>(f: X -> Result<seq<Y>>, xs: seq<X>): (r: Result<seq<Y>>)
    decreases |xs|
  {
    if xs == [] then Ok([])
    else
      var head :- f(xs[0]);
      var tail :- FlatMap(f, xs[1..]);
      Ok(head + tail)
  }

  /** The loop succeeds exactly when every element does. */
  lemma {:induction false} FlatMapOk<X, Y>(f: X -> Result<seq<Y>>, xs: seq<X>)
    ensures FlatMap(f, xs).Ok? <==> forall i :: 0 <= i < |xs| ==> f(xs[i]).Ok?
    decreases |xs|
  {
    if xs != [] {
      FlatMapOk(f, xs[1..]);
      assert forall i :: 1 <= i < |xs| ==> xs[i] == xs[1..][i - 1];
    }
  }

  /** A failing loop fails with the error of its first failing element. */
  lemma {:induction false} FlatMapFirstError<X, Y>(f: X -> Result<seq<Y>>, xs: seq<X>)
    requires FlatMap(f, xs).Err?
    ensures exists i :: 0 <= i < |xs| && f(xs[i]) == Err(FlatMap(f, xs).error)
                         && forall j :: 0 <= j < i ==> f(xs[j]).Ok?
    decreases |xs|
  {
    if f(xs[0]).Ok? {
      FlatMapFirstError(f, xs[1..]);
      var i :| 0 <= i < |xs[1..]| && f(xs[1..][i]) == Err(FlatMap(f, xs[1..]).error)
                && forall j :: 0 <= j < i ==> f(xs[1..][j]).Ok?;
      assert xs[i + 1] == xs[1..][i];
      assert forall j :: 1 <= j < i + 1 ==> xs[j] == xs[1..][j - 1];
    } else {
      assert f(xs[0]) == Err(FlatMap(f, xs).error);
    }
  }

  /** The results of `a + b` are those of `a` followed by those of `b`, and
      a failure in `a` hides everything in `b`. */
  lemma {:induction false} FlatMapAppend<X, Y>(f: X -> Result<seq<Y>>, a: seq<X>, b: seq<X>)
    ensures var ra := FlatMap(f, a);
            var rb := FlatMap(f, b);
            var r := FlatMap(f, a + b);
            && (ra.Err? ==> r == ra)
            && (ra.Ok? && rb.Err? ==> r == rb)
            && (ra.Ok? && rb.Ok? ==> r == Ok(ra.value + rb.value))
    decreases |a|
  {
    if a == [] {
      assert a + b == b;
      var rb := FlatMap(f, b);
      if rb.Ok? {
        assert [] + rb.value == rb.value;
      }
    } else {
      assert (a + b)[0] == a[0];
      assert (a + b)[1..] == a[1..] + b;
      FlatMapAppend(f, a[1..], b);
      var h := f(a[0]);
      var rt := FlatMap(f, a[1..]);
      var rb := FlatMap(f, b);
      if h.Ok? && rt.Ok? && rb.Ok? {
        assert h.value + (rt.value + rb.value) == (h.value + rt.value) + rb.value;
      }
    }
  }

  /** An element that yields nothing may be dropped without changing the
      outcome. */
  lemma FlatMapSkip<X, Y>(f: X -> Result<seq<Y>>, a: seq<X>, x: X, b: seq<X>)
    requires f(x) == Ok([])
    ensures FlatMap(f, a + [x] + b) == FlatMap(f, a + b)
  {
    assert a + [x] + b == a + ([x] + b);
    FlatMapAppend(f, a, [x] + b);
    FlatMapAppend(f, a, b);
    FlatMapAppend(f, [x], b);
    assert FlatMap(f, [x]) == Ok([]) by {
      assert [x][0] == x && [x][1..] == [];
      assert FlatMap(f, [x][1..]) == Ok([]);
      var e: seq<Y> := [];
      assert e + e == e;
    }
    var rb := FlatMap(f, b);
    if rb.Ok? {
      assert [] + rb.value == rb.value;
    }
  }

  // ---------------------------------------------------------------- sequences

  /** `g` applied to every element, the results concatenated in order. */
  function Concat<X, Y>(g: X -> seq<Y>, xs: seq<X>): seq<Y>
    decreases |xs|
  {
    if xs == [] then [] else g(xs[0]) + Concat(g, xs[1..])
  }

  /** An element of the concatenation comes from some element's result. */
  lemma {:induction false} ConcatMember<X, Y>(g: X -> seq<Y>, xs: seq<X>, y: Y)
    ensures y in Concat(g, xs) <==> exists x :: x in xs && y in g(x)
    decreases |xs|
  {
    if xs != [] {
      ConcatMember(g, xs[1..], y);
      assert xs == [xs[0]] + xs[1..];
    }
  }

  /** `f` applied to every element, built front to back. */
  function Map<X, Y>(f: X -> Y, xs: seq<X>): (r: seq<Y>)
    ensures |r| == |xs|
    decreases |xs|
  {
    if xs == [] then [] else Map(f, xs[..|xs| - 1]) + [f(xs[|xs| - 1])]
  }

  /** Element `i` of the result is `f` of element `i`. */
  lemma {:induction false} MapIndex<X, Y>(f: X -> Y, xs: seq<X>)
    ensures forall i :: 0 <= i < |xs| ==> Map(f, xs)[i] == f(xs[i])
    decreases |xs|
  {
    if xs != [] {
      MapIndex(f, xs[..|xs| - 1]);
    }
  }

  /** Widening a slice by one element appends its image. */
  lemma MapStep<X, Y>(f: X -> Y, xs: seq<X>, a: int, j: int)
    requires 0 <= a <= j < |xs|
    ensures Map(f, xs[a..j + 1]) == Map(f, xs[a..j]) + [f(xs[j])]
  {
    var s := xs[a..j + 1];
    assert s[..|s| - 1] == xs[a..j];
    assert s[|s| - 1] == xs[j];
  }

  /** `f` over a three-element sequence. */
  lemma MapThree<X, Y>(f: X -> Y, x0: X, x1: X, x2: X)
    ensures Map(f, [x0, x1, x2]) == [f(x0), f(x1), f(x2)]
  {
    var xs := [x0, x1, x2];
    assert xs[..2] == [x0, x1] && xs[..2][..1] == [x0] && xs[..2][..1][..0] == [];
    assert Map(f, [x0]) == [f(x0)];
    assert Map(f, [x0, x1]) == [f(x0), f(x1)];
  }

  /** A non-empty sequence is its front followed by its last element;
      stated once generically so that no caller compares its elements. */
  lemma Snoc<T>(s: seq<T>)
    requires s != []
    ensures s == s[..|s| - 1] + [s[|s| - 1]]
  {
  }

  /** The front and last element of `s + [x]`. */
  lemma SnocParts<T>(s: seq<T>, x: T)
    ensures (s + [x])[..|s|] == s && (s + [x])[|s|] == x
  {
  }
}
