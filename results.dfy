/** Failure values of the annotator.
    The program aborts on either condition (an out-of-bounds index panics);
    here each abort is an explicit error value that the callers pass upward. */
module Results {

  datatype Error =
      /** A removed span was the last diff segment, so the reading that should
          follow it is read past the end of the segment list. */
    | UnpairedRemoval(surface: string)
      /** An analyzer line without a space, so its reading field does not exist. */
    | MissingReading(line: string)

  datatype Result<+T> = Ok(value: T) | Err(error: Error) {
    predicate IsFailure() { Err? }

    function PropagateFailure<U>(): Result<U>
      requires Err?
    {
      Err(error)
    }

    function Extract(): T
      requires Ok?
    {
      value
    }
  }

  /** Text already emitted, followed by whatever the rest of the work yields;
      a failure in the rest discards the prefix. */
  function Prepend(prefix: string, rest: Result<string>): Result<string>
  {
    match rest
    case Ok(s) => Ok(prefix + s)
    case Err(e) => Err(e)
  }

  /** Sequential composition: the first failure wins, otherwise the outputs are concatenated. */
  function Then(first: Result<string>, second: Result<string>): Result<string>
  {
    match first
    case Ok(s) => Prepend(s, second)
    case Err(e) => Err(e)
  }

  lemma PrependPrepend(a: string, b: string, rest: Result<string>)
    ensures Prepend(a, Prepend(b, rest)) == Prepend(a + b, rest)
  {
    if rest.Ok? {
      assert a + (b + rest.value) == (a + b) + rest.value;
    }
  }

  lemma PrependEmpty(rest: Result<string>)
    ensures Prepend("", rest) == rest
  {
    if rest.Ok? {
      assert "" + rest.value == rest.value;
    }
  }

  lemma ThenAssoc(a: Result<string>, b: Result<string>, c: Result<string>)
    ensures Then(a, Then(b, c)) == Then(Then(a, b), c)
  {
    if a.Ok? && b.Ok? {
      PrependPrepend(a.value, b.value, c);
    }
  }

  lemma ThenEmpty(a: Result<string>)
    ensures Then(a, Ok("")) == a
    ensures Then(Ok(""), a) == a
  {
    PrependEmpty(a);
    if a.Ok? {
      assert a.value + "" == a.value;
    }
  }
}
