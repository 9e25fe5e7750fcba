/** Go strings and the two `strings` helpers the resolver relies on.
    A Go string is a sequence of bytes; here each byte is one `char` below 256. */
module GoStrings {

  /** One byte of a Go string. */
  type Byte = c: char | c as int < 256 witness 'a'

  /** A Go `string`: an immutable sequence of bytes. */
  type GoString = seq<Byte>

  /** `strings.HasPrefix`: `s` is at least as long as `prefix` and starts with it. */
  predicate HasPrefix(s: GoString, prefix: GoString) {
    |prefix| <= |s| && s[..|prefix|] == prefix
  }

  /** `strings.HasSuffix`: `s` is at least as long as `suffix` and ends with it. */
  predicate HasSuffix(s: GoString, suffix: GoString) {
    |suffix| <= |s| && s[|s| - |suffix|..] == suffix
  }

  /** `HasPrefix` means that `s` is `prefix` followed by something. */
  lemma HasPrefixIsSplit(s: GoString, prefix: GoString)
    ensures HasPrefix(s, prefix) <==> exists rest: GoString :: s == prefix + rest
  {
    if HasPrefix(s, prefix) {
      assert s == prefix + s[|prefix|..];
    }
  }

  /** `HasSuffix` means that `s` is something followed by `suffix`. */
  lemma HasSuffixIsSplit(s: GoString, suffix: GoString)
    ensures HasSuffix(s, suffix) <==> exists front: GoString :: s == front + suffix
  {
    if HasSuffix(s, suffix) {
      assert s == s[..|s| - |suffix|] + suffix;
    }
  }

  /** `needle` occurs somewhere inside `s`. */
  predicate Contains(s: GoString, needle: GoString) {
    exists i :: 0 <= i <= |s| && HasPrefix(s[i..], needle)
  }
}
