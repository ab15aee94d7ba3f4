/**
 * The few PHP value semantics the patched code leans on: an optional result
 * (PHP's `false`/`NULL` returns), the truthiness of a string, and the
 * ASCII case mapping used by `strtolower` and `strcasecmp`.
 */
module Php {

  datatype Option<T> = None | Some(value: T)

  /** A PHP string is falsy exactly when it is "" or "0". */
  predicate FalsyString(s: string) {
    s == "" || s == "0"
  }

  /** ASCII lower-casing of one byte, as `zend_tolower_ascii` does. */
  function Lower(c: char): char {
    if 'A' <= c <= 'Z' then (c as int - 'A' as int + 'a' as int) as char else c
  }

  /** `c` and `d` are the same character, or the upper- and lower-case forms of one ASCII letter. */
  predicate SameIgnoringCase(c: char, d: char) {
    c == d
    || ('A' <= c <= 'Z' && d as int == c as int + ('a' as int - 'A' as int))
    || ('A' <= d <= 'Z' && c as int == d as int + ('a' as int - 'A' as int))
  }

  /**
   * Lower-casing folds case and nothing else: it never yields an upper-case
   * letter, applying it twice is applying it once, and two characters map to
   * the same result exactly when they differ at most in ASCII case.
   */
  lemma LowerFoldsCase(c: char, d: char)
    ensures !('A' <= Lower(c) <= 'Z')
    ensures Lower(Lower(c)) == Lower(c)
    ensures Lower(c) == Lower(d) <==> SameIgnoringCase(c, d)
  {
  }

  /** `strtolower` on ASCII text: every byte lower-cased, nothing else changed. */
  function ToLower(s: string): (r: string)
    ensures |r| == |s|
    ensures forall i :: 0 <= i < |s| ==> r[i] == Lower(s[i])
  {
    if s == [] then [] else [Lower(s[0])] + ToLower(s[1..])
  }

  lemma {:induction false} ToLowerAppend(a: string, b: string)
    ensures ToLower(a + b) == ToLower(a) + ToLower(b)
  {
    assert |ToLower(a + b)| == |ToLower(a) + ToLower(b)|;
    forall i | 0 <= i < |a + b|
      ensures ToLower(a + b)[i] == (ToLower(a) + ToLower(b))[i]
    {
      if i < |a| {
        assert (a + b)[i] == a[i];
      } else {
        assert (a + b)[i] == b[i - |a|];
      }
    }
  }
}
