/** Character and string helpers with ASCII semantics.

    Python's `str.upper`, `str.lower`, `str.isdigit` and `str.strip` follow
    Unicode; this module fixes them to their ASCII behaviour, which is what
    every label, digest, file suffix and colour code of the pipeline uses. */
module Text {

  predicate IsAsciiLower(c: char) { 'a' <= c <= 'z' }

  predicate IsAsciiUpper(c: char) { 'A' <= c <= 'Z' }

  predicate IsDigit(c: char) { '0' <= c <= '9' }

  /** Matches the regular-expression class `[0-9a-fA-F]`. */
  predicate IsHexDigit(c: char) { IsDigit(c) || 'a' <= c <= 'f' || 'A' <= c <= 'F' }

  /** `str.isspace` restricted to code points below 128. */
  predicate IsSpace(c: char) { c == ' ' || '\t' <= c <= '\r' || '\U{1c}' <= c <= '\U{1f}' }

  function UpperChar(c: char): (u: char)
    ensures IsAsciiLower(c) ==> IsAsciiUpper(u) && u as int == c as int - 32
    ensures !IsAsciiLower(c) ==> u == c
  {
    if IsAsciiLower(c) then (c as int - 32) as char else c
  }

  function LowerChar(c: char): (l: char)
    ensures IsAsciiUpper(c) ==> IsAsciiLower(l) && l as int == c as int + 32
    ensures !IsAsciiUpper(c) ==> l == c
  {
    if IsAsciiUpper(c) then (c as int + 32) as char else c
  }

  /** `s.upper()` */
  function Upper(s: string): (u: string)
    ensures |u| == |s|
    ensures forall i :: 0 <= i < |s| ==> u[i] == UpperChar(s[i])
  {
    seq(|s|, i requires 0 <= i < |s| => UpperChar(s[i]))
  }

  /** `s.lower()` */
  function Lower(s: string): (l: string)
    ensures |l| == |s|
    ensures forall i :: 0 <= i < |s| ==> l[i] == LowerChar(s[i])
  {
    seq(|s|, i requires 0 <= i < |s| => LowerChar(s[i]))
  }

  /** Upper-casing a string twice changes nothing more than once. */
  lemma UpperIdempotent(s: string)
    ensures Upper(Upper(s)) == Upper(s)
  {
    assert forall i :: 0 <= i < |s| ==> UpperChar(UpperChar(s[i])) == UpperChar(s[i]);
  }

  /** `s.endswith(suffix)` */
  predicate EndsWith(s: string, suffix: string) {
    |suffix| <= |s| && s[|s| - |suffix|..] == suffix
  }

  /** `s.endswith(tuple)`: true when any suffix of the tuple matches. */
  predicate EndsWithAny(s: string, suffixes: seq<string>) {
    exists i :: 0 <= i < |suffixes| && EndsWith(s, suffixes[i])
  }

  /** `part` occurs in `s` starting at index `i`. */
  predicate OccursAt(s: string, part: string, i: int) {
    0 <= i <= |s| - |part| && s[i..i + |part|] == part
  }

  /** `part in s` on strings: `part` occurs somewhere in `s`. */
  predicate HasSubstring(s: string, part: string) {
    exists i :: 0 <= i <= |s| && OccursAt(s, part, i)
  }

  predicate AllDigits(s: string) { forall i :: 0 <= i < |s| ==> IsDigit(s[i]) }

  predicate NoDigits(s: string) { forall i :: 0 <= i < |s| ==> !IsDigit(s[i]) }

  /** Value of an ASCII hexadecimal digit. */
  function HexValue(c: char): (v: nat)
    requires IsHexDigit(c)
    ensures v < 16
  {
    if IsDigit(c) then c as int - '0' as int
    else if 'a' <= c <= 'f' then c as int - 'a' as int + 10
    else c as int - 'A' as int + 10
  }

  /** The upper-case hexadecimal digit of `v`. */
  function HexDigitOf(v: nat): (c: char)
    requires v < 16
    ensures IsHexDigit(c) && !IsAsciiLower(c) && HexValue(c) == v
  {
    if v < 10 then ('0' as int + v) as char else ('A' as int + v - 10) as char
  }

  /** Reading an upper-case hexadecimal digit and writing its value back
      gives the same digit. */
  lemma HexDigitOfValue(c: char)
    requires IsHexDigit(c) && !IsAsciiLower(c)
    ensures HexDigitOf(HexValue(c)) == c
  {
  }

  /** Value of a decimal digit string, as Python's `int(text)` computes it. */
  function DecimalValue(s: string): nat
    requires AllDigits(s)
  {
    if |s| == 0 then 0
    else 10 * DecimalValue(s[..|s| - 1]) + (s[|s| - 1] as int - '0' as int)
  }

  /** How many whitespace characters `s` starts with. */
  function LeadingSpaces(s: string): (n: nat)
    ensures n <= |s|
  {
    if |s| > 0 && IsSpace(s[0]) then 1 + LeadingSpaces(s[1..]) else 0
  }

  /** Every character of `u` is whitespace. */
  predicate AllSpace(u: string) {
    forall k :: 0 <= k < |u| ==> IsSpace(u[k])
  }

  /** `s.strip()` */
  function Strip(s: string): (t: string)
    ensures |t| <= |s|
    ensures |t| > 0 ==> !IsSpace(t[0]) && !IsSpace(t[|t| - 1])
    decreases |s|
  {
    if |s| > 0 && IsSpace(s[0]) then Strip(s[1..])
    else if |s| > 0 && IsSpace(s[|s| - 1]) then Strip(s[..|s| - 1])
    else s
  }

  /** Stripping removes whitespace and nothing else: the input is its
      leading whitespace, then the result, then only whitespace. */
  lemma {:induction false} StripSpan(s: string)
    ensures LeadingSpaces(s) + |Strip(s)| <= |s|
    ensures s == s[..LeadingSpaces(s)] + Strip(s) + s[LeadingSpaces(s) + |Strip(s)|..]
    ensures AllSpace(s[..LeadingSpaces(s)]) && AllSpace(s[LeadingSpaces(s) + |Strip(s)|..])
    decreases |s|
  {
    if |s| > 0 && IsSpace(s[0]) {
      var r := s[1..];
      assert Strip(s) == Strip(r) && LeadingSpaces(s) == LeadingSpaces(r) + 1;
      StripSpan(r);
      SpanAfterSpace(s, r, LeadingSpaces(r), Strip(r));
    } else if |s| > 0 && IsSpace(s[|s| - 1]) {
      var init := s[..|s| - 1];
      assert Strip(s) == Strip(init) && LeadingSpaces(s) == 0;
      assert init[0] == s[0];
      assert LeadingSpaces(init) == 0;
      StripSpan(init);
      SpanBeforeSpace(s, init, Strip(init));
    } else {
      assert s[..0] + s + s[|s|..] == s;
    }
  }

  /** One more whitespace character in front extends the leading run. */
  lemma SpanAfterSpace(s: string, r: string, n: nat, t: string)
    requires |s| > 0 && IsSpace(s[0]) && r == s[1..]
    requires n + |t| <= |r| && r == r[..n] + t + r[n + |t|..]
    requires AllSpace(r[..n]) && AllSpace(r[n + |t|..])
    ensures n + 1 + |t| <= |s| && s == s[..n + 1] + t + s[n + 1 + |t|..]
    ensures AllSpace(s[..n + 1]) && AllSpace(s[n + 1 + |t|..])
  {
    assert s[..n + 1] == [s[0]] + r[..n];
    assert s[n + 1 + |t|..] == r[n + |t|..];
    assert s == [s[0]] + r;
  }

  /** One more whitespace character at the end extends the trailing run. */
  lemma SpanBeforeSpace(s: string, init: string, t: string)
    requires |s| > 0 && IsSpace(s[|s| - 1]) && init == s[..|s| - 1]
    requires |t| <= |init| && init == init[..0] + t + init[|t|..] && AllSpace(init[|t|..])
    ensures |t| <= |s| && s == s[..0] + t + s[|t|..] && AllSpace(s[..0]) && AllSpace(s[|t|..])
  {
    assert s[|t|..] == init[|t|..] + [s[|s| - 1]];
    assert s == init + [s[|s| - 1]];
  }

}
