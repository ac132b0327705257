/** Strings that end at a NUL character. */
module CStrings {

  const NUL: char := '\0'

  /** Memory holds this C string at index i. */
  predicate StringIn(b: seq<char>, i: nat, s: string) {
    i + |s| < |b| && (forall k :: 0 <= k < |s| ==> b[i + k] == s[k]) && NUL !in s && b[i + |s|] == NUL
  }

  predicate StringAt(buf: array<char>, i: nat, s: string)
    reads buf
  {
    StringIn(buf[..], i, s)
  }

  /** What strncpy leaves in a buffer of `count` bytes: it always keeps one for the terminator. */
  function Truncated(s: string, count: nat): string
    requires count > 0
  {
    if |s| < count then s else s[..count - 1]
  }
}
