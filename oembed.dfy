/** `Get` (oembed.go:16-55): resolve the endpoint, fetch it, and decode the
    body as XML or JSON according to its Content-Type. */
module Oembed {
  import opened GoStrings
  import opened Failures
  import opened Html
  import opened Resolver

  /** `oembed.Data`; `embedType` is the Go field `Type`. */
  datatype Data = Data(embedType: GoString, version: GoString, url: GoString, html: GoString)

  /** The zero `Data{}` returned with every early error. */
  const Zero := Data("", "", "", "")

  /** The endpoint's response once `http.NewRequest`, `http.DefaultClient.Do`
      and `ioutil.ReadAll` have succeeded: `contentType` is
      `resp.Header.Get("Content-Type")` ("" when the header is absent) and
      `body` the whole body. The status code is not part of it: `Get` never
      looks at it. */
  datatype Response = Response(contentType: GoString, body: GoString)

  /** What `xml.Unmarshal` or `json.Unmarshal` leave in `data` and the
      text of the error they return, if any. */
  datatype Decoded = Decoded(data: Data, err: Option<GoString>)

  /** The pair `(Data, error)` that `Get` returns. */
  datatype Reply = Reply(data: Data, err: Option<Error>)

  /** The two wire formats. */
  datatype Format = Json | Xml

  /** The content-type branch of oembed.go:49: XML when the Content-Type
      starts with `application/xml`, JSON otherwise. */
  function FormatOf(contentType: GoString): (f: Format)
    ensures f == Xml <==> exists rest: GoString :: contentType == "application/xml" + rest
  {
    HasPrefixIsSplit(contentType, "application/xml");
    if HasPrefix(contentType, "application/xml") then Xml else Json
  }

  /** Typical Content-Type values: parameters after the media type do not
      matter; other XML media types and JSON select JSON. */
  lemma FormatExamples()
    ensures FormatOf("application/xml; charset=utf-8") == Xml
    ensures FormatOf("application/xml") == Xml
    ensures FormatOf("text/xml") == Json
    ensures FormatOf("application/json") == Json
    ensures FormatOf("") == Json
  {
    var json: GoString := "application/json";
    assert json[12] == 'j' && json[..15][12] == 'j';
    var text: GoString := "text/xml";
    assert |text| < 15;
  }

  /** `Get`: `fetchPage` is the discovery request for a page URL,
      `fetchEndpoint` the request to an endpoint URL, `decodeJson` and
      `decodeXml` the two unmarshallers. A decode failure still returns
      whatever the decoder filled in, together with the wrapped error. */
  function Get(table: seq<Provider>, target: GoString,
               fetchPage: GoString -> Result<Node>,
               fetchEndpoint: GoString -> Result<Response>,
               decodeJson: GoString -> Decoded, decodeXml: GoString -> Decoded): Reply
  {
    match Resolve(table, target, fetchPage)
    case Failure(e) => Reply(Zero, Some(e))
    case Success(endpoint) =>
      if endpoint == "" then Reply(Zero, Some(NotFound))
      else
        match fetchEndpoint(endpoint)
        case Failure(e) => Reply(Zero, Some(e))
        case Success(resp) =>
          var decoded := if FormatOf(resp.contentType) == Xml then decodeXml(resp.body) else decodeJson(resp.body);
          Reply(decoded.data, match decoded.err case None => None case Some(cause) => Some(DecodeError(resp.body, cause)))
  }

  /** When `find` fails or finds nothing, `Get` returns the zero `Data` and
      an error (the one from `find`, or `NotFound`), and no endpoint request
      or decoder can change that. */
  lemma GetEarlyExit(table: seq<Provider>, target: GoString,
                     fetchPage: GoString -> Result<Node>,
                     fetchEndpoint: GoString -> Result<Response>,
                     decodeJson: GoString -> Decoded, decodeXml: GoString -> Decoded,
                     otherFetch: GoString -> Result<Response>,
                     otherJson: GoString -> Decoded, otherXml: GoString -> Decoded)
    requires Resolve(table, target, fetchPage).Failure? || Resolve(table, target, fetchPage) == Success("")
    ensures var reply := Get(table, target, fetchPage, fetchEndpoint, decodeJson, decodeXml);
      reply.data == Zero &&
      reply.err == Some(if Resolve(table, target, fetchPage).Failure? then Resolve(table, target, fetchPage).error else NotFound) &&
      reply == Get(table, target, fetchPage, otherFetch, otherJson, otherXml)
    ensures Choose(table, target) == Fallback
  {
  }

  /** When the I/O steps fail only with I/O errors, the not-found error is
      distinct: `Get` reports it exactly when `find` succeeded with "". */
  lemma GetNotFoundIff(table: seq<Provider>, target: GoString,
                       fetchPage: GoString -> Result<Node>,
                       fetchEndpoint: GoString -> Result<Response>,
                       decodeJson: GoString -> Decoded, decodeXml: GoString -> Decoded)
    requires forall p :: fetchPage(p).Failure? ==> IsIoError(fetchPage(p).error)
    requires forall p :: fetchEndpoint(p).Failure? ==> IsIoError(fetchEndpoint(p).error)
    ensures Get(table, target, fetchPage, fetchEndpoint, decodeJson, decodeXml).err == Some(NotFound)
            <==> Resolve(table, target, fetchPage) == Success("")
  {
  }

  /** Once an endpoint is found, `Get` depends on the response to that
      endpoint only: a failed request is passed on with the zero `Data`;
      otherwise the body goes to the XML decoder exactly when the
      Content-Type starts with `application/xml` and to the JSON decoder
      otherwise, and a decoder error comes back wrapped with the raw body,
      whose message embeds the body. */
  lemma GetAfterResolve(table: seq<Provider>, target: GoString,
                        fetchPage: GoString -> Result<Node>,
                        fetchEndpoint: GoString -> Result<Response>,
                        decodeJson: GoString -> Decoded, decodeXml: GoString -> Decoded,
                        endpoint: GoString)
    requires Resolve(table, target, fetchPage) == Success(endpoint) && endpoint != ""
    ensures var reply := Get(table, target, fetchPage, fetchEndpoint, decodeJson, decodeXml);
      match fetchEndpoint(endpoint)
      case Failure(e) => reply == Reply(Zero, Some(e))
      case Success(resp) =>
        var decoded := if HasPrefix(resp.contentType, "application/xml") then decodeXml(resp.body) else decodeJson(resp.body);
        reply.data == decoded.data &&
        (reply.err.None? <==> decoded.err.None?) &&
        (decoded.err.Some? ==> reply.err == Some(DecodeError(resp.body, decoded.err.value)) &&
                               Contains(Message(reply.err.value), resp.body))
  {
    if fetchEndpoint(endpoint).Success? {
      var resp := fetchEndpoint(endpoint).value;
      HasPrefixIsSplit(resp.contentType, "application/xml");
      var decoded := if HasPrefix(resp.contentType, "application/xml") then decodeXml(resp.body) else decodeJson(resp.body);
      if decoded.err.Some? {
        DecodeMessageEmbedsBody(resp.body, decoded.err.value);
      }
    }
  }

  /** For a target handled by a non-discovery provider, `Get` is the same
      whatever the page itself would have advertised: the page is never
      requested. */
  lemma GetUsesTableEndpoint(table: seq<Provider>, target: GoString,
                             fetchPage: GoString -> Result<Node>, otherPage: GoString -> Result<Node>,
                             fetchEndpoint: GoString -> Result<Response>,
                             decodeJson: GoString -> Decoded, decodeXml: GoString -> Decoded, k: nat)
    requires k < |table| && table[k].matches(target) && !table[k].discovery
    requires forall j :: 0 <= j < k ==> !table[j].matches(target)
    ensures Get(table, target, fetchPage, fetchEndpoint, decodeJson, decodeXml) ==
            Get(table, target, otherPage, fetchEndpoint, decodeJson, decodeXml)
  {
  }
}
