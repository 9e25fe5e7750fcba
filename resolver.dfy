/** `find` (oembed.go:57-74): the scan of the provider table, with discovery
    as the fallback. */
module Resolver {
  import opened GoStrings
  import opened Failures
  import opened Html
  import opened Query
  import Discovery

  /** A parsed `url.URL` as far as the resolver touches it: `base` stands
      for everything `String()` writes before the query (scheme, user, host
      and path), `fragment` for the already-escaped fragment. */
  datatype Url = Url(base: GoString, forceQuery: bool, rawQuery: GoString, fragment: GoString)

  /** `url.URL.String()` for the query and fragment parts: `?` and the raw
      query when the query is forced or not empty, `#` and the fragment when
      there is one. */
  function UrlString(u: Url): GoString {
    u.base
    + (if u.forceQuery || u.rawQuery != "" then "?" + u.rawQuery else "")
    + (if u.fragment != "" then "#" + u.fragment else "")
  }

  /** One entry of `providerEndpoints`: the compiled pattern as a predicate
      on URLs, the endpoint URL, and whether the provider wants discovery. */
  datatype Provider = Provider(matches: GoString -> bool, endpoint: Url, discovery: bool)

  /** The entry's endpoint with its query replaced, not extended, by the
      single parameter `url` (oembed.go:67-68). */
  function WithTarget(endpoint: Url, target: GoString): (u: Url) {
    endpoint.(rawQuery := EncodeUrlParam(target))
  }

  /** The position of the first entry whose pattern matches `target`, or
      `|table|` when none does. */
  function FirstMatch(table: seq<Provider>, target: GoString): (k: nat)
    ensures k <= |table|
    ensures k < |table| ==> table[k].matches(target)
    ensures forall j :: 0 <= j < k ==> !table[j].matches(target)
  {
    if table == [] then 0
    else if table[0].matches(target) then 0
    else 1 + FirstMatch(table[1..], target)
  }

  /** What the scan decides: an endpoint built from the table, or discovery. */
  datatype Lookup = Endpoint(url: Url) | Fallback

  /** The decision of the scan: only the first matching entry counts; it
      gives the endpoint unless it is marked for discovery. */
  function Choose(table: seq<Provider>, target: GoString): Lookup {
    var k := FirstMatch(table, target);
    if k == |table| || table[k].discovery then Fallback
    else Endpoint(WithTarget(table[k].endpoint, target))
  }

  /** What `find` returns, given `fetchPage` for the discovery request. */
  function Resolve(table: seq<Provider>, target: GoString, fetchPage: GoString -> Result<Node>): Result<GoString> {
    match Choose(table, target)
    case Endpoint(u) => Success(UrlString(u))
    case Fallback => Discovery.Discover(fetchPage, target)
  }

  /** `find`: a scan in table order that skips entries that do not match,
      stops at a discovery entry and returns at the first other match. The
      order of `table` is whatever order the Go map happens to be ranged in. */
  method Find(table: seq<Provider>, target: GoString, fetchPage: GoString -> Result<Node>) returns (r: Result<GoString>)
    ensures r == Resolve(table, target, fetchPage)
  {
    var i := 0;
    while i < |table|
      invariant 0 <= i <= |table|
      invariant forall j :: 0 <= j < i ==> !table[j].matches(target)
    {
      var entry := table[i];
      if !entry.matches(target) {
        i := i + 1;
        continue;
      }
      if entry.discovery {
        break;
      }
      var endpoint := WithTarget(entry.endpoint, target);
      return Success(UrlString(endpoint));
    }
    return Discovery.Discover(fetchPage, target);
  }

  /** When the first matching entry is not a discovery entry, `find`
      succeeds with that entry's endpoint whose query is exactly the one
      parameter `url` carrying `target`, everything else of the endpoint
      kept; the answer is not empty, and it is the same whatever discovery
      would have produced, so discovery is not consulted. */
  lemma {:induction false} TableEndpoint(table: seq<Provider>, target: GoString, fetchPage: GoString -> Result<Node>, k: nat)
    requires k < |table| && table[k].matches(target) && !table[k].discovery
    requires forall j :: 0 <= j < k ==> !table[j].matches(target)
    ensures Resolve(table, target, fetchPage).Success?
    ensures var u := Choose(table, target).url;
      Resolve(table, target, fetchPage).value == UrlString(u) &&
      u.base == table[k].endpoint.base && u.forceQuery == table[k].endpoint.forceQuery &&
      u.fragment == table[k].endpoint.fragment &&
      ParseQuery(u.rawQuery) == Some([Param("url", target)])
    ensures Resolve(table, target, fetchPage).value != ""
    ensures forall otherPage: GoString -> Result<Node> :: Resolve(table, target, otherPage) == Resolve(table, target, fetchPage)
  {
    assert FirstMatch(table, target) == k;
    ParseEncodeUrlParam(target);
    var u := Choose(table, target).url;
    assert |UrlString(u)| >= 1 + |u.rawQuery|;
  }

  /** When the first matching entry is marked for discovery, `find` is
      exactly discovery, and no entry after it changes that, however the
      rest of the table looks. */
  lemma {:induction false} DiscoveryEntryStopsScan(table: seq<Provider>, later: seq<Provider>, target: GoString, fetchPage: GoString -> Result<Node>, k: nat)
    requires k < |table| && table[k].matches(target) && table[k].discovery
    requires forall j :: 0 <= j < k ==> !table[j].matches(target)
    ensures Resolve(table, target, fetchPage) == Discovery.Discover(fetchPage, target)
    ensures Resolve(table[..k + 1] + later, target, fetchPage) == Discovery.Discover(fetchPage, target)
  {
    assert FirstMatch(table, target) == k;
    var t := table[..k + 1] + later;
    assert t[k] == table[k];
    assert forall j :: 0 <= j < k ==> t[j] == table[j];
    assert FirstMatch(t, target) == k;
  }

  /** When no entry matches, `find` is exactly discovery. */
  lemma NoMatchDiscovers(table: seq<Provider>, target: GoString, fetchPage: GoString -> Result<Node>)
    requires forall j :: 0 <= j < |table| ==> !table[j].matches(target)
    ensures Resolve(table, target, fetchPage) == Discovery.Discover(fetchPage, target)
  {
  }

  /** The first match wins: whatever follows the first matching entry
      never changes what `find` returns. */
  lemma {:induction false} FirstMatchWins(table: seq<Provider>, later: seq<Provider>, target: GoString, fetchPage: GoString -> Result<Node>)
    requires exists j :: 0 <= j < |table| && table[j].matches(target)
    ensures Resolve(table + later, target, fetchPage) == Resolve(table, target, fetchPage)
  {
    var k := FirstMatch(table, target);
    var t := table + later;
    assert t[k] == table[k];
    assert forall j :: 0 <= j < k ==> t[j] == table[j];
    assert FirstMatch(t, target) == k;
  }

  /** `find` fails only through discovery, and it can succeed with "" only
      through discovery. */
  lemma ResolveFailsOnlyInDiscovery(table: seq<Provider>, target: GoString, fetchPage: GoString -> Result<Node>)
    ensures Resolve(table, target, fetchPage) == Success("") || Resolve(table, target, fetchPage).Failure?
      ==> Choose(table, target) == Fallback
  {
  }
}
