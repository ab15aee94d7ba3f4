/**
 * Two string helpers of the Features module.
 *
 * `features_clean_title` (includes/features.menu.inc) runs
 * `preg_replace_callback('/(\s)|([^a-zA-Z\-0-9])/i', '_features_clean_title', $str)`
 * and lower-cases the result. The pattern matches one character at a time:
 * a whitespace character (group 1), or any other character outside
 * letters, digits and `-` (group 2). The callback returns `-` when group 1
 * is non-empty and the empty string otherwise.
 *
 * `_features_remove_recursion` (features.export.inc) is the callback that
 * `features_remove_recursion` hands to `preg_replace_callback` with the
 * pattern `#(r|R):([0-9]+);#`: it turns a serialized back-reference
 * `r:N;` or `R:N;` into a serialized string `s:L:"P";`, where `P` is a NUL
 * byte, the letter, `ecursion_features` and `N`, and `L` is the byte length
 * of `P`.
 */
module Features {
  import opened Php

  /** PCRE's `\s` (PCRE 8.34 and later) without the UTF-8 flag: tab, line feed, vertical tab, form feed, carriage return, space. */
  predicate IsSpace(c: char) {
    '\t' <= c <= '\r' || c == ' '
  }

  /** The characters the class `[^a-zA-Z\-0-9]` does not match. */
  predicate IsKept(c: char) {
    'a' <= c <= 'z' || 'A' <= c <= 'Z' || '0' <= c <= '9' || c == '-'
  }

  /** The characters a clean title is made of. */
  predicate IsClean(c: char) {
    'a' <= c <= 'z' || '0' <= c <= '9' || c == '-'
  }

  /** The captures of one match: `$matches[0]` and `$matches[1]` (empty when group 2 matched). */
  datatype CleanMatch = CleanMatch(whole: string, space: string)

  /** The match of the pattern on one character, if any: whitespace fills group 1. */
  function MatchCleanChar(c: char): Option<CleanMatch> {
    if IsSpace(c) then Some(CleanMatch([c], [c]))
    else if !IsKept(c) then Some(CleanMatch([c], []))
    else None
  }

  /** `_features_clean_title`: `$matches[1] ? '-' : ''`, with PHP's truthiness of a string. */
  function CleanTitleCallback(m: CleanMatch): string {
    if !FalsyString(m.space) then "-" else ""
  }

  /** `preg_replace_callback` with the clean-title pattern: every match is replaced by the callback's result. */
  function CleanReplace(s: string): (r: string)
    ensures |r| <= |s|
  {
    if s == [] then []
    else
      var head := match MatchCleanChar(s[0]) case Some(m) => CleanTitleCallback(m) case None => [s[0]];
      head + CleanReplace(s[1..])
  }

  /** `features_clean_title`. */
  function CleanTitle(s: string): string {
    ToLower(CleanReplace(s))
  }

  /** What one character becomes: whitespace a dash, a kept character its lower case, anything else nothing. */
  function CleanChar(c: char): (r: string)
    ensures |r| <= 1
    ensures forall i :: 0 <= i < |r| ==> IsClean(r[i])
  {
    if IsSpace(c) then "-" else if IsKept(c) then [Lower(c)] else ""
  }

  /** A character-by-character reference definition of a clean title. */
  function Cleaned(s: string): string {
    if s == [] then [] else CleanChar(s[0]) + Cleaned(s[1..])
  }

  /**
   * The regular expression, its callback and `strtolower` together do
   * exactly this: each whitespace character becomes one `-`, each letter,
   * digit or `-` is kept and lower-cased, and every other character is
   * deleted.
   */
  lemma {:induction false} CleanTitleIsCleaned(s: string)
    ensures CleanTitle(s) == Cleaned(s)
  {
    if s != [] {
      var head := match MatchCleanChar(s[0]) case Some(m) => CleanTitleCallback(m) case None => [s[0]];
      assert CleanReplace(s) == head + CleanReplace(s[1..]);
      ToLowerAppend(head, CleanReplace(s[1..]));
      CleanTitleIsCleaned(s[1..]);
      assert ToLower(head) == CleanChar(s[0]);
    }
  }

  lemma {:induction false} CleanedAppend(a: string, b: string)
    ensures Cleaned(a + b) == Cleaned(a) + Cleaned(b)
  {
    if a == [] {
      assert a + b == b;
    } else {
      assert (a + b)[0] == a[0] && (a + b)[1..] == a[1..] + b;
      CleanedAppend(a[1..], b);
    }
  }

  lemma {:induction false} CleanedShape(s: string)
    ensures |Cleaned(s)| <= |s|
    ensures forall i :: 0 <= i < |Cleaned(s)| ==> IsClean(Cleaned(s)[i])
  {
    if s != [] {
      CleanedShape(s[1..]);
      var r := Cleaned(s);
      forall i | 0 <= i < |r| ensures IsClean(r[i]) {
        if i >= |CleanChar(s[0])| {
          assert r[i] == Cleaned(s[1..])[i - |CleanChar(s[0])|];
        }
      }
    }
  }

  /** A clean title holds only lower-case letters, digits and dashes, and is no longer than its input. */
  lemma CleanTitleShape(s: string)
    ensures |CleanTitle(s)| <= |s|
    ensures forall i :: 0 <= i < |CleanTitle(s)| ==> IsClean(CleanTitle(s)[i])
  {
    CleanTitleIsCleaned(s);
    CleanedShape(s);
  }

  /** A clean title splits at any point of its input: cleaning is done one character at a time. */
  lemma CleanTitleAppend(a: string, b: string)
    ensures CleanTitle(a + b) == CleanTitle(a) + CleanTitle(b)
  {
    CleanTitleIsCleaned(a + b);
    CleanTitleIsCleaned(a);
    CleanTitleIsCleaned(b);
    CleanedAppend(a, b);
  }

  /** Text made of clean characters comes out unchanged. */
  lemma {:induction false} CleanedKeepsClean(s: string)
    requires forall i :: 0 <= i < |s| ==> IsClean(s[i])
    ensures Cleaned(s) == s
  {
    if s != [] {
      assert IsClean(s[0]);
      CleanedKeepsClean(s[1..]);
      assert s == [s[0]] + s[1..];
    }
  }

  /** Cleaning a clean title changes nothing. */
  lemma CleanTitleIdempotent(s: string)
    ensures CleanTitle(CleanTitle(s)) == CleanTitle(s)
  {
    CleanTitleShape(s);
    CleanTitleIsCleaned(CleanTitle(s));
    CleanedKeepsClean(CleanTitle(s));
  }

  // ---- _features_remove_recursion ----

  predicate IsDigit(c: char) {
    '0' <= c <= '9'
  }

  predicate AllDigits(s: string) {
    forall i :: 0 <= i < |s| ==> IsDigit(s[i])
  }

  function DigitChar(d: nat): (c: char)
    requires d < 10
    ensures IsDigit(c)
  {
    ('0' as int + d) as char
  }

  /** The decimal digits of `n`, as `strlen(...)` is printed when concatenated to a string. */
  function NatToString(n: nat): (s: string)
    ensures |s| > 0 && AllDigits(s)
  {
    if n < 10 then [DigitChar(n)] else NatToString(n / 10) + [DigitChar(n % 10)]
  }

  /** The number a string of decimal digits denotes. */
  function DecimalValue(s: string): nat
    requires AllDigits(s)
  {
    if s == [] then 0 else 10 * DecimalValue(s[..|s| - 1]) + (s[|s| - 1] as int - '0' as int)
  }

  lemma {:induction false} DecimalValueOfNat(n: nat)
    ensures DecimalValue(NatToString(n)) == n
  {
    if n >= 10 {
      var s := NatToString(n);
      assert s[..|s| - 1] == NatToString(n / 10);
      DecimalValueOfNat(n / 10);
    }
  }

  /** The captures of one back-reference match: `$m[1]` the letter, `$m[2]` the digits. */
  datatype RecursionMatch = RecursionMatch(letter: char, digits: string)

  /** `$r . $m[2]`: a NUL byte, the letter, `ecursion_features`, the digits. */
  function RecursionPayload(m: RecursionMatch): (p: string)
    ensures |p| == 19 + |m.digits|
    ensures p[0] == '\0' && p[1] == m.letter && p[19..] == m.digits
    ensures p[2..19] == "ecursion_features"
  {
    ['\0', m.letter] + "ecursion_features" + m.digits
  }

  /** `_features_remove_recursion`: the payload as a serialized string, `s:<length>:"<payload>";`. */
  function RemoveRecursion(m: RecursionMatch): string {
    var p := RecursionPayload(m);
    "s:" + NatToString(|p|) + ":\"" + p + "\";"
  }

  /** The number of leading decimal digits of `s`. */
  function DigitRun(s: string): (k: nat)
    ensures k <= |s| && AllDigits(s[..k]) && (k < |s| ==> !IsDigit(s[k]))
  {
    if s == [] || !IsDigit(s[0]) then 0
    else
      var k := 1 + DigitRun(s[1..]);
      assert s[..k] == [s[0]] + s[1..][..k - 1];
      k
  }

  /**
   * How `unserialize` reads a serialized string token: `s:`, a decimal
   * length, `:"`, exactly that many bytes, `";`, and nothing after.
   */
  function ParseSerializedString(t: string): (r: Option<string>)
    ensures r.Some? ==> |t| >= |r.value| + 7 && t[..2] == "s:" && t[|t| - 2..] == "\";"
  {
    if |t| < 2 || t[..2] != "s:" then None else ParseLength(t[2..])
  }

  /** The length digits up to `:`, then the quoted body. */
  function ParseLength(rest: string): (r: Option<string>)
    ensures r.Some? ==> |rest| >= |r.value| + 5 && rest[|rest| - 2..] == "\";"
  {
    var k := DigitRun(rest);
    if k == 0 || k == |rest| || rest[k] != ':' then None
    else ParseBody(DecimalValue(rest[..k]), rest[k + 1..])
  }

  /** `"`, exactly `len` bytes, `";`, and nothing after. */
  function ParseBody(len: nat, body: string): Option<string> {
    if |body| == len + 3 && body[0] == '"' && body[len + 1..] == "\";" then Some(body[1..len + 1]) else None
  }

  lemma DigitRunPrefix(d: string, tail: string)
    requires |d| > 0 && AllDigits(d) && |tail| > 0 && !IsDigit(tail[0])
    ensures DigitRun(d + tail) == |d|
    decreases |d|
  {
    if |d| > 1 {
      assert (d + tail)[1..] == d[1..] + tail;
      DigitRunPrefix(d[1..], tail);
    } else {
      assert (d + tail)[1..] == tail;
    }
  }

  lemma ParseBodyOf(p: string)
    ensures ParseBody(|p|, ['"'] + p + ['"', ';']) == Some(p)
  {
    var body := ['"'] + p + ['"', ';'];
    assert body[1..|p| + 1] == p;
    assert body[|p| + 1..] == "\";";
  }

  lemma ParseLengthOf(n: string, body: string)
    requires |n| > 0 && AllDigits(n)
    ensures ParseLength(n + [':'] + body) == ParseBody(DecimalValue(n), body)
  {
    var rest := n + [':'] + body;
    assert rest == n + ([':'] + body);
    DigitRunPrefix(n, [':'] + body);
    assert rest[..|n|] == n && rest[|n| + 1..] == body;
  }

  /** A token whose length prefix is the length of its payload reads back as that payload. */
  lemma ParseWellFormedToken(n: string, p: string)
    requires |n| > 0 && AllDigits(n) && DecimalValue(n) == |p|
    ensures ParseSerializedString("s:" + n + ":\"" + p + "\";") == Some(p)
  {
    var body := ['"'] + p + ['"', ';'];
    var rest := n + [':'] + body;
    var t := ['s', ':'] + rest;
    assert t == "s:" + n + ":\"" + p + "\";";
    assert t[..2] == "s:" && t[2..] == rest;
    ParseLengthOf(n, body);
    ParseBodyOf(p);
  }

  /**
   * The length prefix of the token matches its payload: `unserialize` reads
   * the token back as exactly the payload, NUL byte included.
   */
  lemma RemoveRecursionRoundTrip(m: RecursionMatch)
    ensures ParseSerializedString(RemoveRecursion(m)) == Some(RecursionPayload(m))
  {
    var p := RecursionPayload(m);
    DecimalValueOfNat(|p|);
    ParseWellFormedToken(NatToString(|p|), p);
  }
}
