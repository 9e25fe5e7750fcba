/** The error values the resolver produces or passes through, and the
    result wrappers used in place of Go's `(value, error)` pairs. */
module Failures {
  import opened GoStrings

  datatype Option<+T> = None | Some(value: T)

  /** The errors of oembed.go. Errors that come from the network, from
      `ioutil.ReadAll` or from `html.Parse` are wrapped with a stack trace in
      the source and otherwise passed on unchanged; here they keep their kind
      and a detail string. */
  datatype Error =
    | RequestError(detail: GoString)    // http.NewRequest rejected the URL
    | TransportError(detail: GoString)  // http.DefaultClient.Do failed or was cancelled
    | ReadError(detail: GoString)       // ioutil.ReadAll failed
    | ParseError(detail: GoString)      // html.Parse failed
    | NotFound                          // resolution succeeded with an empty endpoint
    | DecodeError(body: GoString, cause: GoString)  // JSON or XML decoding failed

  /** The errors the network, `ioutil.ReadAll` and `html.Parse` can give:
      never the two that oembed.go creates itself. */
  predicate IsIoError(e: Error) {
    e.RequestError? || e.TransportError? || e.ReadError? || e.ParseError?
  }

  /** A Go result `(T, error)` where the value is meaningless on error. */
  datatype Result<+T> = Success(value: T) | Failure(error: Error)

  /** The text `err.Error()` of the two errors oembed.go creates itself;
      the other kinds print their detail. */
  function Message(e: Error): GoString {
    match e
    case NotFound => "couldn't find oembed URL"
    case DecodeError(body, cause) => "couldn't decode body " + body + ": " + cause
    case RequestError(d) => d
    case TransportError(d) => d
    case ReadError(d) => d
    case ParseError(d) => d
  }

  /** A decode error's message embeds the raw body it failed on. */
  lemma {:induction false} DecodeMessageEmbedsBody(body: GoString, cause: GoString)
    ensures Contains(Message(DecodeError(body, cause)), body)
  {
    var m := Message(DecodeError(body, cause));
    var lead: GoString := "couldn't decode body ";
    assert m == lead + body + ": " + cause;
    assert m[|lead|..][..|body|] == body;
    assert HasPrefix(m[|lead|..], body);
  }
}
