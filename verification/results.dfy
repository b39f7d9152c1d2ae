/** Failure-carrying values shared by every part of the model. */
module Results {

  /** A value that may be absent; `None` stands for a C# `null`. */
  datatype Option<+T> = None | Some(value: T)

  /** The exceptions the controller's own code can raise, grouped by .NET type:
      a null dereference (NullReferenceException, or ArgumentNullException from a
      dictionary lookup with a null key), a duplicate key in `ToDictionary`
      (ArgumentException) and a missing dictionary key (KeyNotFoundException). */
  datatype Error =
    | NullReference
    | DuplicateKey(key: string)
    | KeyNotFound(key: string)

  /** A computation that either yields a value or raises one of the errors above. */
  datatype Result<+T> = Ok(value: T) | Err(error: Error)

  /** The values of the present entries of a list, in order. */
  function Somes<T>(xs: seq<Option<T>>): (r: seq<T>)
    ensures |r| <= |xs|
    ensures forall i | 0 <= i < |xs| && xs[i].Some? :: xs[i].value in r
    ensures forall j | 0 <= j < |r| :: Some(r[j]) in xs
    decreases |xs|
  {
    if |xs| == 0 then []
    else
      var rest := Somes(xs[1..]);
      assert forall j | 0 <= j < |rest| :: Some(rest[j]) in xs[1..];
      if xs[0].Some? then [xs[0].value] + rest else rest
  }
}
