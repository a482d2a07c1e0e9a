/** What C library routines see of a string: the characters before the first NUL. */
module CString {

  /** The view of `s` through `c_str()`: everything before the first NUL character. */
  function CStr(s: string): (c: string)
    ensures c <= s
    ensures '\0' !in c
    ensures |c| < |s| ==> s[|c|] == '\0'
    ensures '\0' !in s ==> c == s
  {
    if s == [] || s[0] == '\0' then [] else [s[0]] + CStr(s[1..])
  }

  /** Whatever follows a NUL is invisible to the C routines. */
  lemma {:induction false} CStrAtNul(s: string, tail: string)
    requires '\0' !in s
    ensures CStr(s + ['\0'] + tail) == s
    decreases |s|
  {
    if s != [] {
      assert (s + ['\0'] + tail)[1..] == s[1..] + ['\0'] + tail;
      CStrAtNul(s[1..], tail);
    }
  }

  /** `s` begins with `prefix`. */
  predicate StartsWith(s: string, prefix: string)
  {
    prefix <= s
  }
}
