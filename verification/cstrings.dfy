/**
  C strings. A buffer holding the characters `s` is read by the C library
  (`strcmp`, `strncmp`, `strcat`, `strip_cr`'s loop) only up to its first NUL;
  everything after it is invisible.
 */
module CStrings {

  const NUL: char := '\0'

  /** The text a C routine sees in a buffer holding `s`: every character before the first NUL. */
  function CView(s: string): (r: string)
    ensures NUL !in r
    ensures |r| <= |s| && r == s[..|r|]
    ensures |r| < |s| ==> s[|r|] == NUL
  {
    if |s| == 0 || s[0] == NUL then [] else [s[0]] + CView(s[1..])
  }

  /** A string with no NUL in it is seen by C in full. */
  lemma CViewOfCString(s: string)
    requires NUL !in s
    ensures CView(s) == s
  {
  }

  /** Text after a NUL-free prefix cannot hide that prefix from C. */
  lemma CViewKeepsCStringPrefix(p: string, rest: string)
    requires NUL !in p
    ensures p <= CView(p + rest)
  {
  }
}
