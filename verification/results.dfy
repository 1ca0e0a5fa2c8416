/**
 Failure-carrying values shared by the adapter, the login handler and the
 retry loop. The source signals failure with Java exceptions; the model
 returns them as values.
 */
module Results {

  datatype Option<+T> = None | Some(value: T)

  /** Why an exception other than `IllegalStateException` was raised. */
  datatype Cause =
    | UriSyntax      // `new URI(...)` rejected the request address
    | Io             // the HTTP client failed to deliver or receive
    | Decoding       // Gson could not decode a response body
    | NoLine         // `Scanner.nextLine` found no more input

  /**
   The two classes of exception the program tells apart: an
   `IllegalStateException` carrying a message for the user, and anything
   else.
   */
  datatype Exception =
    | IllegalState(message: string)
    | Unexpected(cause: Cause)

  datatype Result<+T> = Success(value: T) | Failure(error: Exception)

  /** `f` applied to every element, in order, as `stream().map(f).toList()` builds it. */
  function MapSeq<T, U>(xs: seq<T>, f: T -> U): (r: seq<U>)
    ensures |r| == |xs|
    ensures forall i | 0 <= i < |xs| :: r[i] == f(xs[i])
  {
    seq(|xs|, i requires 0 <= i < |xs| => f(xs[i]))
  }
}
