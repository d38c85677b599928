/** The two predicates of Go's `strings` package that the service relies on. */
module Strings {

  /** `strings.HasPrefix(s, prefix)`: s begins with prefix. */
  predicate HasPrefix(s: string, prefix: string) {
    |prefix| <= |s| && s[..|prefix|] == prefix
  }

  /** `strings.HasSuffix(s, suffix)`: s ends with suffix. */
  predicate HasSuffix(s: string, suffix: string) {
    |suffix| <= |s| && s[|s| - |suffix|..] == suffix
  }

  /** Two prefixes of one string are prefixes of each other, the shorter of the longer. */
  lemma CommonPrefixes(s: string, a: string, b: string)
    requires HasPrefix(s, a) && HasPrefix(s, b) && |a| <= |b|
    ensures HasPrefix(b, a)
  {
  }
}
