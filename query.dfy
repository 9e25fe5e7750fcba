/** The query string oembed.go:68 builds, `url.Values{"url": {target}}.Encode()`,
    which for a single key and value is `url=` followed by
    `url.QueryEscape(target)`, and the decoding `url.ParseQuery` applies to it.
    Escaping follows sections 2.1 and 2.3 of RFC 3986 in the form Go uses
    for query components: unreserved bytes stay, a space becomes `+`, every
    other byte becomes `%` and two upper-case hexadecimal digits. */
module Query {
  import opened GoStrings
  import opened Failures

  /** A `key=value` pair of a query. */
  datatype Param = Param(key: GoString, value: GoString)

  /** Section 2.3 of RFC 3986: ALPHA, DIGIT, `-`, `.`, `_` and `~`. */
  predicate IsUnreserved(c: Byte) {
    ('a' <= c <= 'z') || ('A' <= c <= 'Z') || ('0' <= c <= '9') ||
    c == '-' || c == '_' || c == '.' || c == '~'
  }

  const UpperHex: GoString := "0123456789ABCDEF"

  /** The upper-case hexadecimal digit for `d`. */
  function HexDigit(d: nat): (c: Byte)
    requires d < 16
  {
    UpperHex[d]
  }

  predicate IsHex(c: Byte) {
    ('0' <= c <= '9') || ('a' <= c <= 'f') || ('A' <= c <= 'F')
  }

  /** `unhex`: the value of a hexadecimal digit of either case. */
  function Unhex(c: Byte): (d: nat)
    requires IsHex(c)
    ensures d < 16
  {
    if '0' <= c <= '9' then c as int - '0' as int
    else if 'a' <= c <= 'f' then c as int - 'a' as int + 10
    else c as int - 'A' as int + 10
  }

  /** Reading back a digit written by `HexDigit` gives its value. */
  lemma UnhexHexDigit(d: nat)
    requires d < 16
    ensures IsHex(HexDigit(d)) && Unhex(HexDigit(d)) == d
  {
  }

  /** The escaped form of one byte. */
  function EscapeByte(c: Byte): (e: GoString) {
    if IsUnreserved(c) then [c]
    else if c == ' ' then "+"
    else ['%', HexDigit(c as int / 16), HexDigit(c as int % 16)]
  }

  /** `url.QueryEscape`. */
  function Escape(s: GoString): (e: GoString) {
    if s == [] then [] else EscapeByte(s[0]) + Escape(s[1..])
  }

  /** A byte that may appear in an escaped string: none of them separates
      parameters (`&`, `;`) or a key from its value (`=`); hexadecimal
      digits are unreserved. */
  predicate IsEscapedByte(c: Byte) {
    IsUnreserved(c) || c == '+' || c == '%'
  }

  /** Every byte of an escaped string is unreserved, `+` or `%`. */
  lemma {:induction false} EscapeBytes(s: GoString)
    ensures forall i :: 0 <= i < |Escape(s)| ==> IsEscapedByte(Escape(s)[i])
  {
    if s != [] {
      EscapeBytes(s[1..]);
      var head, tail := EscapeByte(s[0]), Escape(s[1..]);
      assert Escape(s) == head + tail;
      forall i | 0 <= i < |Escape(s)| ensures IsEscapedByte(Escape(s)[i]) {
        if i >= |head| {
          assert Escape(s)[i] == tail[i - |head|];
        }
      }
    }
  }

  /** `url.QueryUnescape`: `+` becomes a space, `%` must be followed by two
      hexadecimal digits, and any other byte stands for itself. */
  function Unescape(s: GoString): (r: Option<GoString>)
    decreases |s|
  {
    if s == [] then Some([])
    else if s[0] == '%' then
      if |s| < 3 || !IsHex(s[1]) || !IsHex(s[2]) then None
      else
        match Unescape(s[3..])
        case None => None
        case Some(rest) => Some([(Unhex(s[1]) * 16 + Unhex(s[2])) as char] + rest)
    else
      match Unescape(s[1..])
      case None => None
      case Some(rest) => Some([if s[0] == '+' then ' ' else s[0]] + rest)
  }

  /** Unescaping one escaped byte in front of `t` puts the byte back in
      front of the unescaping of `t`. */
  lemma UnescapeEscapeByte(c: Byte, t: GoString)
    ensures Unescape(EscapeByte(c) + t) ==
      match Unescape(t) case None => None case Some(rest) => Some([c] + rest)
  {
    var s := EscapeByte(c) + t;
    if IsUnreserved(c) {
      assert s[1..] == t;
    } else if c == ' ' {
      assert s[1..] == t;
    } else {
      UnhexHexDigit(c as int / 16);
      UnhexHexDigit(c as int % 16);
      assert s[3..] == t;
      assert (Unhex(s[1]) * 16 + Unhex(s[2])) as char == c;
    }
  }

  /** Unescaping undoes escaping for every byte string. */
  lemma {:induction false} UnescapeEscape(s: GoString)
    ensures Unescape(Escape(s)) == Some(s)
  {
    if s != [] {
      UnescapeEscape(s[1..]);
      UnescapeEscapeByte(s[0], Escape(s[1..]));
      assert [s[0]] + s[1..] == s;
    }
  }

  /** The position of the first `sep` in `s`, or `|s|` when there is none. */
  function IndexOf(s: GoString, sep: Byte): (k: nat)
    ensures k <= |s|
    ensures k < |s| ==> s[k] == sep
    ensures forall j :: 0 <= j < k ==> s[j] != sep
  {
    if s == [] then 0 else if s[0] == sep then 0 else 1 + IndexOf(s[1..], sep)
  }

  /** `strings.Cut`: the part before the first `sep` and the part after it
      ("" when `sep` does not occur). */
  function Cut(s: GoString, sep: Byte): (GoString, GoString) {
    var k := IndexOf(s, sep);
    if k < |s| then (s[..k], s[k + 1..]) else (s, [])
  }

  /** `url.ParseQuery` as a list of parameters in order: fields are split at
      `&`, a field holding `;` is an error, empty fields are skipped, and a
      field is split at its first `=` into a key and a value that are both
      unescaped. Go goes on after an error and reports the first one; here
      any error makes the whole result `None`. */
  function ParseQuery(q: GoString): Option<seq<Param>>
    decreases |q|
  {
    if q == [] then Some([])
    else
      var (field, rest) := Cut(q, '&');
      if IndexOf(field, ';') < |field| then None
      else if field == [] then ParseQuery(rest)
      else
        var (k, v) := Cut(field, '=');
        match (Unescape(k), Unescape(v), ParseQuery(rest))
        case (Some(key), Some(value), Some(params)) => Some([Param(key, value)] + params)
        case _ => None
  }

  /** The query oembed.go:68 writes: the single parameter `url`. */
  function EncodeUrlParam(target: GoString): (q: GoString) {
    "url=" + Escape(target)
  }

  /** Cutting at a byte that does not occur leaves the whole string. */
  lemma CutAbsent(s: GoString, sep: Byte)
    requires forall j :: 0 <= j < |s| ==> s[j] != sep
    ensures IndexOf(s, sep) == |s| && Cut(s, sep) == (s, [])
  {
  }

  /** The bytes of the query built for `target`: no `&`, no `;`, and the
      first `=` right after `url`. */
  lemma EncodeUrlParamBytes(target: GoString)
    ensures forall j :: 0 <= j < |EncodeUrlParam(target)| ==>
      EncodeUrlParam(target)[j] != '&' && EncodeUrlParam(target)[j] != ';'
    ensures Cut(EncodeUrlParam(target), '=') == ("url", Escape(target))
  {
    var e := Escape(target);
    var q := EncodeUrlParam(target);
    EscapeBytes(target);
    forall j | 0 <= j < |q| ensures q[j] != '&' && q[j] != ';' {
      if j >= 4 { assert q[j] == e[j - 4]; }
    }
    assert IndexOf(q, '=') == 3 by {
      assert q[0] != '=' && q[1] != '=' && q[2] != '=' && q[3] == '=';
      assert IndexOf(q, '=') <= 3;
    }
    assert q[..3] == "url" && q[4..] == e;
  }

  /** A string of unreserved bytes is its own unescaping. */
  lemma {:induction false} UnescapeUnreserved(s: GoString)
    requires forall j :: 0 <= j < |s| ==> IsUnreserved(s[j])
    ensures Unescape(s) == Some(s)
  {
    if s != [] {
      UnescapeUnreserved(s[1..]);
      assert [s[0]] + s[1..] == s;
    }
  }

  /** Parsing the query built for `target` finds exactly one parameter,
      named `url`, whose value is `target`. */
  lemma ParseEncodeUrlParam(target: GoString)
    ensures ParseQuery(EncodeUrlParam(target)) == Some([Param("url", target)])
  {
    var q := EncodeUrlParam(target);
    EncodeUrlParamBytes(target);
    CutAbsent(q, '&');
    CutAbsent(q, ';');
    UnescapeEscape(target);
    var key: GoString := "url";
    UnescapeUnreserved(key);
    var (field, rest) := Cut(q, '&');
    assert field == q && rest == [];
    var (k, v) := Cut(field, '=');
    assert k == key && v == Escape(target);
    assert ParseQuery(rest) == Some([]);
    assert Unescape(k) == Some(key) && Unescape(v) == Some(target);
    assert q != [] && IndexOf(field, ';') == |field| && field != [];
    assert [Param(key, target)] + [] == [Param("url", target)];
  }
}
