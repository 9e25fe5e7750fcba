/** oEmbed link discovery over a parsed HTML page (oembed.go:76-129):
    `findHref` inspects one node, the closure `f` in `discover` searches
    the tree in pre-order for the first node with a non-empty answer. */
module Discovery {
  import opened GoStrings
  import opened Html
  import opened Failures

  /** The first check of `findHref`: an element node whose tag is `link`. */
  predicate IsLinkElement(n: Node) {
    n.kind == ElementNode && n.data == "link"
  }

  /** An attribute that announces an oEmbed resource: key `type` and a value
      ending in `+oembed` (both compared byte for byte). */
  predicate IsOEmbedType(a: Attribute) {
    a.key == "type" && HasSuffix(a.val, "+oembed")
  }

  /** The suffix test is the plain one: the value is something followed by
      `+oembed`. */
  lemma OEmbedTypeIsSuffix(a: Attribute)
    ensures IsOEmbedType(a) <==> a.key == "type" && exists front: GoString :: a.val == front + "+oembed"
  {
    HasSuffixIsSplit(a.val, "+oembed");
  }

  /** The second check of `findHref`: some attribute announces oEmbed. */
  predicate HasOEmbedType(attrs: seq<Attribute>) {
    exists i :: 0 <= i < |attrs| && IsOEmbedType(attrs[i])
  }

  /** The position of the first attribute with the given key, or `|attrs|`
      when there is none. */
  function IndexOfKey(attrs: seq<Attribute>, key: GoString): (k: nat)
    ensures k <= |attrs|
    ensures k < |attrs| ==> attrs[k].key == key
    ensures forall j :: 0 <= j < k ==> attrs[j].key != key
  {
    if attrs == [] then 0
    else if attrs[0].key == key then 0
    else 1 + IndexOfKey(attrs[1..], key)
  }

  /** What `findHref` answers for node `n`: the value of the first `href`
      attribute of a `link` element announcing oEmbed, and "" otherwise. */
  function HrefOf(n: Node): GoString {
    if !IsLinkElement(n) || !HasOEmbedType(n.attrs) then ""
    else
      var k := IndexOfKey(n.attrs, "href");
      if k < |n.attrs| then n.attrs[k].val else ""
  }

  /** `findHref` (oembed.go:108-129): the first loop sets a flag and breaks
      at the first announcing attribute, the second returns the value of the
      first `href` attribute. */
  method FindHref(n: Node) returns (href: GoString)
    ensures href == HrefOf(n)
  {
    if n.kind != ElementNode || n.data != "link" {
      return "";
    }
    var ok := false;
    var i := 0;
    while i < |n.attrs|
      invariant 0 <= i <= |n.attrs|
      invariant !ok
      invariant forall j :: 0 <= j < i ==> !IsOEmbedType(n.attrs[j])
    {
      if n.attrs[i].key == "type" && HasSuffix(n.attrs[i].val, "+oembed") {
        ok := true;
        break;
      }
      i := i + 1;
    }
    assert ok ==> i < |n.attrs| && IsOEmbedType(n.attrs[i]);
    if !ok {
      return "";
    }
    for i := 0 to |n.attrs|
      invariant forall j :: 0 <= j < i ==> n.attrs[j].key != "href"
    {
      if n.attrs[i].key == "href" {
        return n.attrs[i].val;
      }
    }
    return "";
  }

  /** Whatever `findHref` answers is "" or the value of an `href` attribute
      of that very node, which is a `link` element announcing oEmbed; and
      the answer is the first `href` attribute's value. */
  lemma HrefOfIsFirstHref(n: Node)
    ensures HrefOf(n) != "" ==> IsLinkElement(n) && HasOEmbedType(n.attrs)
    ensures HrefOf(n) == "" || exists i :: 0 <= i < |n.attrs| && n.attrs[i] == Attribute("href", HrefOf(n))
    ensures IsLinkElement(n) && HasOEmbedType(n.attrs) ==>
      forall i :: 0 <= i < |n.attrs| && n.attrs[i].key == "href" && (forall j :: 0 <= j < i ==> n.attrs[j].key != "href")
        ==> HrefOf(n) == n.attrs[i].val
  {
  }

  /** The closure `f` (oembed.go:93-104): the node's own answer if it is not
      empty, otherwise the search of its children. */
  function Search(n: Node): GoString
    decreases n, 1
  {
    var href := HrefOf(n);
    if href != "" then href else SearchFrom(n, 0)
  }

  /** The loop of `f` over the children of `n`, starting at child `i`: the
      first child whose search is not empty wins. */
  function SearchFrom(n: Node, i: nat): GoString
    requires i <= |n.children|
    decreases n, 0, |n.children| - i
  {
    if i == |n.children| then ""
    else
      var href := Search(n.children[i]);
      if href != "" then href else SearchFrom(n, i + 1)
  }

  /** The nodes of the tree under `n` in pre-order: a node before its
      children, the children in document order. */
  function PreOrder(n: Node): seq<Node>
    decreases n, 1
  {
    [n] + PreOrderFrom(n, 0)
  }

  /** The pre-order listings of the children of `n` from child `i` on. */
  function PreOrderFrom(n: Node, i: nat): seq<Node>
    requires i <= |n.children|
    decreases n, 0, |n.children| - i
  {
    if i == |n.children| then [] else PreOrder(n.children[i]) + PreOrderFrom(n, i + 1)
  }

  /** The first non-empty `findHref` answer in a list of nodes, "" when
      every answer is empty. */
  function FirstHref(ns: seq<Node>): (href: GoString)
    ensures href == "" <==> forall i :: 0 <= i < |ns| ==> HrefOf(ns[i]) == ""
    ensures href != "" ==> exists i :: 0 <= i < |ns| && HrefOf(ns[i]) == href &&
                                       forall j :: 0 <= j < i ==> HrefOf(ns[j]) == ""
  {
    if ns == [] then ""
    else if HrefOf(ns[0]) != "" then HrefOf(ns[0])
    else
      var rest := FirstHref(ns[1..]);
      assert forall i :: 1 <= i < |ns| ==> ns[i] == ns[1..][i - 1];
      rest
  }

  /** The first answer in a concatenation comes from the front part unless
      the front part has none. */
  lemma {:induction false} FirstHrefAppend(a: seq<Node>, b: seq<Node>)
    ensures FirstHref(a + b) == if FirstHref(a) != "" then FirstHref(a) else FirstHref(b)
  {
    if a != [] {
      assert (a + b)[0] == a[0];
      assert (a + b)[1..] == a[1..] + b;
      FirstHrefAppend(a[1..], b);
    } else {
      assert a + b == b;
    }
  }

  /** The tree search `f` answers the first non-empty `findHref` answer in
      pre-order. */
  lemma {:induction false} SearchIsFirstInPreOrder(n: Node)
    ensures Search(n) == FirstHref(PreOrder(n))
    decreases n, 1
  {
    SearchFromIsFirstInPreOrder(n, 0);
    FirstHrefAppend([n], PreOrderFrom(n, 0));
  }

  lemma {:induction false} SearchFromIsFirstInPreOrder(n: Node, i: nat)
    requires i <= |n.children|
    ensures SearchFrom(n, i) == FirstHref(PreOrderFrom(n, i))
    decreases n, 0, |n.children| - i
  {
    if i < |n.children| {
      SearchIsFirstInPreOrder(n.children[i]);
      SearchFromIsFirstInPreOrder(n, i + 1);
      FirstHrefAppend(PreOrder(n.children[i]), PreOrderFrom(n, i + 1));
    }
  }

  /** The search comes back empty exactly when no node of the tree yields a
      non-empty `findHref` answer; otherwise it answers the answer of some
      node, and every node earlier in pre-order yields "". */
  lemma SearchEmptyIff(n: Node)
    ensures Search(n) == "" <==> forall m :: m in PreOrder(n) ==> HrefOf(m) == ""
    ensures Search(n) != "" ==>
      exists i :: 0 <= i < |PreOrder(n)| && HrefOf(PreOrder(n)[i]) == Search(n) &&
                  forall j :: 0 <= j < i ==> HrefOf(PreOrder(n)[j]) == ""
  {
    SearchIsFirstInPreOrder(n);
    var ns := PreOrder(n);
    if Search(n) != "" {
      var i :| 0 <= i < |ns| && HrefOf(ns[i]) == Search(n);
      assert ns[i] in ns;
    }
  }

  /** A qualifying `link` with no `href`, or whose first `href` is empty
      (later ones do not count), answers nothing itself, so
      the search goes on into its children and, through the caller's loop,
      into its later siblings. */
  lemma SkipsLinkWithoutHref(n: Node)
    requires IsLinkElement(n) && HasOEmbedType(n.attrs)
    requires IndexOfKey(n.attrs, "href") == |n.attrs| || n.attrs[IndexOfKey(n.attrs, "href")].val == ""
    ensures Search(n) == SearchFrom(n, 0)
  {
  }

  /** A page whose first oEmbed `link` has no `href` and whose second one
      has: the search skips the first and answers the second. */
  lemma SkipExample()
    ensures var first := Node(ElementNode, "link", [Attribute("type", "application/json+oembed")], []);
            var second := Node(ElementNode, "link", [Attribute("type", "text/xml+oembed"), Attribute("href", "http://e/o")], []);
            var head := Node(ElementNode, "head", [], [first, second]);
            Search(Node(DocumentNode, "", [], [head])) == "http://e/o"
  {
    var first := Node(ElementNode, "link", [Attribute("type", "application/json+oembed")], []);
    var second := Node(ElementNode, "link", [Attribute("type", "text/xml+oembed"), Attribute("href", "http://e/o")], []);
    var head := Node(ElementNode, "head", [], [first, second]);
    var doc := Node(DocumentNode, "", [], [head]);
    assert IsOEmbedType(first.attrs[0]) && IsOEmbedType(second.attrs[0]);
    assert IndexOfKey(first.attrs, "href") == 1;
    assert HrefOf(first) == "";
    assert SearchFrom(first, 0) == "";
    assert IndexOfKey(second.attrs, "href") == 1;
    assert HrefOf(second) == "http://e/o";
    assert Search(first) == "" && Search(second) == "http://e/o";
    assert head.children[1] == second && SearchFrom(head, 1) == "http://e/o";
    assert SearchFrom(head, 0) == "http://e/o";
    assert SearchFrom(doc, 0) == "http://e/o";
  }

  /** `discover` (oembed.go:76-106) once the page has been fetched and
      parsed: `fetchPage(url)` is what `http.NewRequest`, the client and
      `html.Parse` together produce for the page. A failure is passed on;
      a parsed page always succeeds, with "" when nothing is advertised. */
  function Discover(fetchPage: GoString -> Result<Node>, url: GoString): Result<GoString> {
    match fetchPage(url)
    case Failure(e) => Failure(e)
    case Success(doc) => Success(Search(doc))
  }

  /** Discovery fails only when fetching or parsing the page fails, with
      that same error, and on
      a parsed page it succeeds with "" exactly when no node of the tree
      yields a non-empty `findHref` answer. */
  lemma DiscoverOutcome(fetchPage: GoString -> Result<Node>, url: GoString)
    ensures Discover(fetchPage, url).Failure? <==> fetchPage(url).Failure?
    ensures fetchPage(url).Failure? ==> Discover(fetchPage, url) == Failure(fetchPage(url).error)
    ensures fetchPage(url).Success? ==>
      (Discover(fetchPage, url) == Success("") <==> forall m :: m in PreOrder(fetchPage(url).value) ==> HrefOf(m) == "")
  {
    if fetchPage(url).Success? {
      SearchEmptyIff(fetchPage(url).value);
    }
  }
}
