/** `String.prototype.trim`, which both the check-in service and the mock
    store apply to a searched name. */
module Text {

  /** The characters `trim` removes: ECMAScript white space (tab, vertical
      tab, form feed, space, no-break space, the byte-order mark and the other
      space separators) and line terminators. */
  predicate IsWhitespace(c: char)
  {
    c == '\t' || c == '\n' || c == '\U{000B}' || c == '\U{000C}' || c == '\r' || c == ' '
    || c == '\U{00A0}' || c == '\U{1680}' || ('\U{2000}' <= c <= '\U{200A}')
    || c == '\U{2028}' || c == '\U{2029}' || c == '\U{202F}' || c == '\U{205F}'
    || c == '\U{3000}' || c == '\U{FEFF}'
  }

  /** How many white-space characters `s` starts with. */
  function LeadingWhitespace(s: string): (n: nat)
    ensures n <= |s|
    ensures forall k :: 0 <= k < n ==> IsWhitespace(s[k])
    ensures n == |s| || !IsWhitespace(s[n])
  {
    if s != [] && IsWhitespace(s[0]) then 1 + LeadingWhitespace(s[1..]) else 0
  }

  /** How many white-space characters `s` ends with. */
  function TrailingWhitespace(s: string): (n: nat)
    ensures n <= |s|
    ensures forall k :: |s| - n <= k < |s| ==> IsWhitespace(s[k])
    ensures n == |s| || !IsWhitespace(s[|s| - n - 1])
  {
    if s != [] && IsWhitespace(s[|s| - 1]) then 1 + TrailingWhitespace(s[..|s| - 1]) else 0
  }

  /** `s.trim()`: the stretch of `s` after its leading white space, followed
      in `s` by white space only, neither starting nor ending with white
      space. Letter case is untouched. */
  function Trim(s: string): (r: string)
    ensures LeadingWhitespace(s) + |r| <= |s|
    ensures r == s[LeadingWhitespace(s)..LeadingWhitespace(s) + |r|]
    ensures forall k :: LeadingWhitespace(s) + |r| <= k < |s| ==> IsWhitespace(s[k])
    ensures r == [] || (!IsWhitespace(r[0]) && !IsWhitespace(r[|r| - 1]))
  {
    var rest := s[LeadingWhitespace(s)..];
    rest[..|rest| - TrailingWhitespace(rest)]
  }

  /** Trimming twice trims nothing more. */
  lemma TrimIdempotent(s: string)
    ensures Trim(Trim(s)) == Trim(s)
  {
    var r := Trim(s);
    assert LeadingWhitespace(r) == 0;
    assert TrailingWhitespace(r) == 0;
  }

  /** The leading run is determined by where the first non-white-space
      character sits. */
  lemma LeadingWhitespaceIs(s: string, n: nat)
    requires n <= |s|
    requires forall k :: 0 <= k < n ==> IsWhitespace(s[k])
    requires n == |s| || !IsWhitespace(s[n])
    ensures LeadingWhitespace(s) == n
  {
  }

  /** The trailing run is determined by where the last non-white-space
      character sits. */
  lemma TrailingWhitespaceIs(s: string, n: nat)
    requires n <= |s|
    requires forall k :: |s| - n <= k < |s| ==> IsWhitespace(s[k])
    requires n == |s| || !IsWhitespace(s[|s| - n - 1])
    ensures TrailingWhitespace(s) == n
  {
  }

  lemma TrimStripsSurroundingSpace()
    ensures Trim("  田中太郎  ") == "田中太郎"
  {
    var s := "  田中太郎  ";
    LeadingWhitespaceIs(s, 2);
    TrailingWhitespaceIs(s[2..], 2);
    assert s[2..][..4] == "田中太郎";
  }

  lemma TrimStripsIdeographicSpace()
    ensures Trim("\U{3000}山田花子\n") == "山田花子"
  {
    var s := "\U{3000}山田花子\n";
    LeadingWhitespaceIs(s, 1);
    TrailingWhitespaceIs(s[1..], 1);
    assert s[1..][..4] == "山田花子";
  }

  lemma TrimKeepsCase()
    ensures Trim("ABC") == "ABC" && Trim("ABC") != Trim("abc")
  {
    assert LeadingWhitespace("ABC") == 0 && TrailingWhitespace("ABC") == 0;
    assert LeadingWhitespace("abc") == 0 && TrailingWhitespace("abc") == 0;
  }
}
