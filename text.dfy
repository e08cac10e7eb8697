/** The two Python string methods the scraper relies on: `str.strip()` with
    no argument and `str.capitalize()`. */
module Text {

  /** The characters Python's `str.isspace` accepts, which `str.strip()`
      removes: tab through carriage return, the four separator controls
      0x1C-0x1F, space, NEL, NO-BREAK SPACE and the Unicode space separators. */
  predicate IsSpace(c: char)
  {
    || c == ' '
    || '\t' <= c <= '\r'
    || '\U{1C}' <= c <= '\U{1F}'
    || c == '\U{85}' || c == '\U{A0}' || c == '\U{1680}'
    || '\U{2000}' <= c <= '\U{200A}'
    || c == '\U{2028}' || c == '\U{2029}' || c == '\U{202F}' || c == '\U{205F}'
    || c == '\U{3000}'
  }

  /** How many whitespace characters `s` starts with. */
  function LeadingSpaces(s: string): (n: nat)
    ensures n <= |s|
    ensures forall k :: 0 <= k < n ==> IsSpace(s[k])
    ensures n < |s| ==> !IsSpace(s[n])
  {
    if s != [] && IsSpace(s[0]) then 1 + LeadingSpaces(s[1..]) else 0
  }

  /** `s` without its trailing whitespace: a prefix of `s` that does not end
      with whitespace, and everything cut off is whitespace. */
  function TrimEnd(s: string): (r: string)
    ensures |r| <= |s| && r == s[..|r|]
    ensures forall k :: |r| <= k < |s| ==> IsSpace(s[k])
    ensures r != [] ==> !IsSpace(r[|r| - 1])
  {
    if s != [] && IsSpace(s[|s| - 1]) then TrimEnd(s[..|s| - 1]) else s
  }

  /** Python's `s.strip()`: the infix of `s` that starts after its leading
      whitespace and is followed only by whitespace; it neither starts nor
      ends with whitespace. */
  function Strip(s: string): (r: string)
    ensures LeadingSpaces(s) + |r| <= |s|
    ensures r == s[LeadingSpaces(s)..LeadingSpaces(s) + |r|]
    ensures forall k :: LeadingSpaces(s) + |r| <= k < |s| ==> IsSpace(s[k])
    ensures r != [] ==> !IsSpace(r[0]) && !IsSpace(r[|r| - 1])
  {
    var i := LeadingSpaces(s);
    var r := TrimEnd(s[i..]);
    assert forall k :: i + |r| <= k < |s| ==> s[i..][k - i] == s[k];
    r
  }

  /** Text that neither starts nor ends with whitespace is left as it is. */
  lemma StripUnpadded(s: string)
    requires s != [] ==> !IsSpace(s[0]) && !IsSpace(s[|s| - 1])
    ensures Strip(s) == s
  {
    assert LeadingSpaces(s) == 0;
    assert s[0..] == s;
  }

  /** Stripping twice is stripping once. */
  lemma StripIdempotent(s: string)
    ensures Strip(Strip(s)) == Strip(s)
  {
    StripUnpadded(Strip(s));
  }

  /** One space on either side of unpadded text is removed. */
  lemma StripSpaced(s: string)
    requires s != [] && !IsSpace(s[0]) && !IsSpace(s[|s| - 1])
    ensures Strip(" " + s + " ") == s
  {
    var t := " " + s + " ";
    assert t[0] == ' ' && t[1..] == s + " ";
    assert (s + " ")[0] == s[0];
    assert LeadingSpaces(s + " ") == 0;
    assert LeadingSpaces(t) == 1;
    assert (s + " ")[..|s|] == s;
    assert TrimEnd(s) == s;
    assert TrimEnd(s + " ") == s;
  }

  predicate IsAsciiLower(c: char) { 'a' <= c <= 'z' }
  predicate IsAsciiUpper(c: char) { 'A' <= c <= 'Z' }

  function ToUpper(c: char): char
  {
    if IsAsciiLower(c) then (c as int - 32) as char else c
  }

  function ToLower(c: char): char
  {
    if IsAsciiUpper(c) then (c as int + 32) as char else c
  }

  /** Python's `s.capitalize()` on ASCII letters: the same letters ignoring
      case, the first one upper-case and all others lower-case; a character
      that is not an ASCII letter is never changed. */
  function Capitalize(s: string): (r: string)
    ensures |r| == |s|
    ensures forall k :: 0 <= k < |s| ==> ToLower(r[k]) == ToLower(s[k])
    ensures forall k :: 0 <= k < |s| && !IsAsciiLower(s[k]) && !IsAsciiUpper(s[k]) ==> r[k] == s[k]
    ensures |r| > 0 ==> !IsAsciiLower(r[0])
    ensures forall k :: 1 <= k < |r| ==> !IsAsciiUpper(r[k])
  {
    if s == [] then [] else [ToUpper(s[0])] + seq(|s| - 1, k requires 0 <= k < |s| - 1 => ToLower(s[k + 1]))
  }
}
