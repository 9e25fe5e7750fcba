# oEmbed resolver, modelled in Dafny

This project models the decision logic of the oEmbed resolver in `oembed.go`.
`Get` turns a page URL into oEmbed `Data` in four steps:

- it looks the URL up in the provider table;
- if the table gives no endpoint, it discovers one from the page's HTML;
- it fetches the endpoint;
- it decodes the response as XML or JSON, chosen by the Content-Type.

The network, the HTML parser, the regular expressions and the decoders are
passed in as parameters. Everything else is modelled as the code does it.

Modules (one file each):

- `GoStrings` (`gostrings.dfy`): a Go string is a sequence of bytes, each a `char` below 256. Also `strings.HasPrefix` and `strings.HasSuffix`.
- `Failures` (`failures.dfy`): the error kinds and the `Result` and `Option` wrappers.
- `Html` (`html.dfy`): the parsed document as a `Node` tree. Each node has a node type, a tag name, attributes and a sequence of children. This sequence replaces the `FirstChild`/`NextSibling` links.
- `Discovery` (`discovery.dfy`): `findHref`, written as the method `FindHref` with the source's two loops and proved equal to the function `HrefOf`. The recursive closure `f` becomes `Search` and `SearchFrom`, proved equal to "the first non-empty answer in pre-order" (`FirstHref` of `PreOrder`). It also holds `discover` on an already-parsed page.
- `Query` (`query.dfy`): the query `url.Values{"url": …}.Encode()` builds, which is `url=` followed by `QueryEscape`. Escaping follows sections 2.1 and 2.3 of RFC 3986. The module also holds `QueryUnescape` and `ParseQuery`, used to prove that decoding gives back the target.
- `Resolver` (`resolver.dfy`): `find`. The method `Find` keeps the source's loop with `continue`, `break` and an early return. It is proved equal to `Resolve`, a declarative definition built on the first matching table entry.
- `Oembed` (`oembed.dfy`): the content-type choice and the control flow of `Get`.

The I/O steps are parameters of the model:

- `fetchPage(url)`: the result of `http.NewRequest`, `http.DefaultClient.Do` and `html.Parse` for a page.
- `fetchEndpoint(url)`: the result of `http.NewRequest`, `Do` and `ioutil.ReadAll` for an endpoint. On success it gives the Content-Type and the body.
- `decodeJson` and `decodeXml`: the two unmarshallers.

"Discovery is not consulted" and "no endpoint request is made" are stated as
follows: the result is the same for any other choice of that parameter.

In these details the model follows the code:

- The endpoint's query is replaced by `url=…`, not extended (oembed.go:68).
- A qualifying `link` whose first `href` attribute is empty does not match. The search goes on past it (oembed.go:95, 125).
- Only the first `href` attribute counts. If it is empty, a later non-empty `href` on the same node is ignored.
- The provider table is a Go map (oembed.go:59), so its scan order is unspecified. Every result is stated for whatever order the sequence is given in.
- On a decode failure, `Get` returns whatever the decoder filled in, together with the wrapped error, not the zero `Data` (oembed.go:54).
- The HTTP status code is never checked (oembed.go:37-54).

## Model

| member | source | states |
|---|---|---|
| `Discovery.FindHref` | oembed.go:108-129 | The two loops of `findHref` (flag-and-break over the `type` attributes, then early return at the first `href`) compute exactly `HrefOf`: "" unless the node is an element with tag `link` and some `type` attribute ends in `+oembed`, and otherwise the value of the first `href` attribute, or "" when there is none |
| `Discovery.HrefOfIsFirstHref` | oembed.go:108-129 | A non-empty answer comes only from a `link` element that announces oEmbed. Any answer is "" or the value of an `href` attribute of that node. On a qualifying node the answer is the value of the first `href` attribute |
| `Discovery.IndexOfKey` | oembed.go:123-127 | The position found is that of the first attribute with the key, or the end when no attribute has it |
| `Discovery.SearchIsFirstInPreOrder` | oembed.go:93-105 | The closure `f` answers the first non-empty `findHref` answer in pre-order: a node before its children, children in sibling order |
| `Discovery.SearchFromIsFirstInPreOrder` | oembed.go:98-102 | The sibling loop of `f` from child `i` on answers the first non-empty answer among the pre-order listings of those children |
| `Discovery.SearchEmptyIff` | oembed.go:93-105 | The search returns "" if and only if no node of the tree yields a non-empty `findHref` answer. Otherwise it returns some node's answer, and every earlier node in pre-order yields "" |
| `Discovery.SkipsLinkWithoutHref` | oembed.go:95-98 | A qualifying `link` with no `href`, or whose first `href` is empty, yields nothing itself, so the search continues into its children |
| `Discovery.SkipExample` | oembed.go:93-105 | On a page whose first oEmbed `link` lacks `href`, the search returns the `href` of the next oEmbed `link` |
| `Discovery.DiscoverOutcome` | oembed.go:76-106 | `discover` fails exactly when fetching or parsing the page fails, and then with that same error. On a parsed page it succeeds, with "" exactly when nothing in the tree is advertised |
| `Discovery.FirstHref` | oembed.go:93-105 | The first non-empty answer in a node list is "" if and only if every answer is "". Otherwise it is the answer of some node preceded only by empty answers |
| `Query.UnescapeEscape` | oembed.go:68 | `QueryUnescape` recovers every byte string from its `QueryEscape` form |
| `Query.EscapeBytes` | oembed.go:68 | The escaped target holds only unreserved bytes (hexadecimal digits among them), `+` and `%`. So it contains no `&`, `;` or `=` |
| `Query.ParseEncodeUrlParam` | oembed.go:68 | Parsing the query built for a target yields exactly one parameter, `url`, whose decoded value is the target |
| `Resolver.FirstMatch` | oembed.go:59-62 | The position found is the first entry whose pattern matches, or the end of the table when none does |
| `Resolver.Find` | oembed.go:57-74 | The scan with `continue`, `break` and early return computes `Resolve`. It returns the endpoint built from the first matching entry if that entry is not a discovery entry; otherwise it returns discovery's result |
| `Resolver.TableEndpoint` | oembed.go:59-69 | The first matching entry is not a discovery entry. Then `find` succeeds with that entry's URL, keeping its base, forced-query flag and fragment. Its query is exactly the single parameter `url`, which decodes to the target. The answer is non-empty and independent of what discovery would give |
| `Resolver.DiscoveryEntryStopsScan` | oembed.go:63-73 | The first matching entry is a discovery entry. Then `find` is exactly discovery, and replacing every later entry does not change that |
| `Resolver.NoMatchDiscovers` | oembed.go:72-73 | When no entry matches, `find` is exactly discovery |
| `Resolver.FirstMatchWins` | oembed.go:59-70 | Entries appended after a matching entry never change the result of `find` |
| `Resolver.ResolveFailsOnlyInDiscovery` | oembed.go:67-73 | `find` fails, or succeeds with "", only when the table sends the target to discovery |
| `Failures.DecodeMessageEmbedsBody` | oembed.go:54 | The message of a decode error contains the raw body |
| `Oembed.FormatOf` | oembed.go:49-53 | XML is chosen if and only if the Content-Type is `application/xml` followed by anything; otherwise JSON |
| `Oembed.FormatExamples` | oembed.go:49-53 | `application/xml; charset=utf-8` and `application/xml` select XML. `text/xml`, `application/json` and a missing header select JSON |
| `Oembed.GetEarlyExit` | oembed.go:24-30 | When `find` fails or returns "", `Get` returns the zero `Data`, with `find`'s error or the not-found error. No endpoint request or decoder changes the reply, and the case arises only through discovery |
| `Oembed.GetAfterResolve` | oembed.go:33-54 | Once an endpoint is found, `Get` depends on that endpoint's response only. A failed request is passed on with the zero `Data`. The XML decoder is used exactly when the Content-Type starts with `application/xml`. The decoder's data is returned, and an error comes back if and only if the decoder failed, wrapped with the raw body and embedding it in its message |
| `Oembed.GetUsesTableEndpoint` | oembed.go:23-30 | For a target handled by a non-discovery provider, `Get`'s reply does not depend on the page: discovery is never requested |
| `Oembed.Get` | oembed.go:23-55 | No contract of its own; `GetEarlyExit`, `GetAfterResolve` and `GetUsesTableEndpoint` characterise it |
| `Discovery.Search` | oembed.go:93-104 | No contract of its own: the closure `f`; `SearchIsFirstInPreOrder` and `SearchEmptyIff` characterise it |
| `Discovery.SearchFrom` | oembed.go:98-102 | No contract of its own: the sibling loop of `f`; `SearchFromIsFirstInPreOrder` characterises it |
| `Discovery.Discover` | oembed.go:76-106 | No contract of its own; `DiscoverOutcome` characterises it |
| `Discovery.HrefOf` | oembed.go:108-129 | No contract of its own; `FindHref` is proved equal to it and `HrefOfIsFirstHref` characterises it |
| `Resolver.Resolve` | oembed.go:57-74 | No contract of its own; `Find` is proved equal to it, and `TableEndpoint`, `DiscoveryEntryStopsScan`, `NoMatchDiscovers` and `FirstMatchWins` characterise it |
| `Resolver.Choose` | oembed.go:59-70 | No contract of its own: the scan's decision from the first matching entry; `TableEndpoint` and `DiscoveryEntryStopsScan` characterise it |
| `Resolver.WithTarget` | oembed.go:67-68 | No contract of its own: the copy with its query replaced; `TableEndpoint` characterises it |
| `Resolver.UrlString` | oembed.go:69 | No contract of its own: `String()` for the query and fragment; `TableEndpoint` shows the built endpoint is never empty |
| `Query.Escape` | oembed.go:68 | No contract of its own: `QueryEscape`; `UnescapeEscape` and `EscapeBytes` characterise it |
| `Query.EncodeUrlParam` | oembed.go:68 | No contract of its own: the single-key `Values.Encode()`; `ParseEncodeUrlParam` characterises it |
| `Discovery.OEmbedTypeIsSuffix` | oembed.go:115 | An attribute announces oEmbed exactly when its key is `type` and its value is something followed by `+oembed` |
| `Failures.Message` | oembed.go:29-54 | No contract of its own: the `Error()` text of `NotFound` and of the wrapped decode error; `DecodeMessageEmbedsBody` characterises it |
| `Oembed.GetNotFoundIff` | oembed.go:24-30 | When the fetches fail only with I/O errors, `Get` reports the not-found error if and only if `find` succeeded with "" |

## Left out

- HTTP request construction, `http.DefaultClient.Do`, `ioutil.ReadAll` and body closing (oembed.go:33-46, 78-86): network and I/O. They are the abstract results `fetchPage` and `fetchEndpoint`, and their errors are passed through unchanged. The model lets them return any `Error`; the source's I/O steps can only give I/O errors (`IsIoError`), never the not-found or decode error, which is the assumption under which `GetNotFoundIff` proves the not-found error distinct.
- `html.Parse` (oembed.go:88): a library parser. The model starts from the parsed tree, and its parse errors are part of `fetchPage`.
- Regular expression matching (oembed.go:60): each provider's pattern is an abstract predicate on URLs.
- `url.URL.String()`: only the query and fragment parts are modelled (`UrlString`). Scheme, user, host and path are one opaque `base` string.
- The copy of `*endpoint.URL` (oembed.go:67): Dafny datatypes are values, so an entry's URL cannot be changed by building the endpoint. Pointer aliasing is not modelled.
- `Query.ParseQuery`: Go keeps parsing after a bad field and reports the first error with a partial result. The model returns `None` for the whole query. It is used only as the decoder in the round trip.
- JSON and XML unmarshalling (oembed.go:50-52): library decoders, given as parameters. Field mappings (only `HTML` carries the tag `xml:"html"`) are not modelled.
- HTTP status codes are not modelled, because the source never looks at them.
- Stack traces from `pkg/errors`: the model keeps the error kind and a detail string. Context cancellation (concurrency) shows up only as a possible `TransportError` from the fetch parameters.
- The `providerEndpoints` data: it is defined in a file that is not part of this model. The table is an input sequence.
- The `Namespace` of attributes and the `DataAtom` of nodes: the core never reads them.
- cmd/web/main.go: the HTTP server, port wiring, template rendering and `extractHTML` are presentation code.
