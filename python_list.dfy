/**
 Python's list subscription `xs[i]`, which the dataset uses twice: once to
 turn a dataset index into an image id and once to pick a caption. A
 negative index counts from the end of the list; any index outside
 `[-len(xs), len(xs))` raises `IndexError`.
 */
module PythonList {

  /** The outcome of a subscription: the element, or Python's `IndexError`. */
  datatype Result<+T> = Ok(value: T) | IndexError

  /** True iff `xs[i]` does not raise in Python. */
  predicate InBounds<T>(xs: seq<T>, i: int)
  {
    -|xs| <= i < |xs|
  }

  /** `xs[i]` with Python's semantics. */
  function Subscript<T>(xs: seq<T>, i: int): (r: Result<T>)
    ensures r.Ok? <==> InBounds(xs, i)
    ensures r.Ok? ==> r.value in xs
    ensures 0 <= i < |xs| ==> r == Ok(xs[i])
    ensures -|xs| <= i < 0 ==> r == Ok(xs[|xs| + i])
  {
    if 0 <= i < |xs| then Ok(xs[i])
    else if -|xs| <= i < 0 then Ok(xs[|xs| + i])
    else IndexError
  }
}
