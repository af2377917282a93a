/** The Python string methods the service relies on (`strip`, `lower`,
    `endswith`), over Dafny strings. */
module Text {

  /** Python's `str.isspace` for one character: ASCII white space, the
      separators U+001C..U+001F, and the Unicode space characters. */
  predicate IsSpace(c: char) {
    || c == ' '
    || '\t' <= c <= '\r'
    || '\U{1C}' <= c <= '\U{1F}'
    || c == '\U{85}' || c == '\U{A0}' || c == '\U{1680}'
    || '\U{2000}' <= c <= '\U{200A}'
    || c == '\U{2028}' || c == '\U{2029}' || c == '\U{202F}' || c == '\U{205F}'
    || c == '\U{3000}'
  }

  /** The length of the run of white space that `s.lstrip()` removes. */
  function LeadingSpace(s: string): (n: nat)
    ensures n <= |s|
  {
    if s != [] && IsSpace(s[0]) then 1 + LeadingSpace(s[1..]) else 0
  }

  /** The length of the run of white space that `s.rstrip()` removes. */
  function TrailingSpace(s: string): (n: nat)
    ensures n <= |s|
  {
    if s != [] && IsSpace(s[|s| - 1]) then 1 + TrailingSpace(s[..|s| - 1]) else 0
  }

  /** `s.strip()`. Its contract is lemma TrimExactly, kept apart so that
      callers which only compare trimmed values do not pay for it. */
  function Trim(s: string): string {
    var t := s[LeadingSpace(s)..];
    t[..|t| - TrailingSpace(t)]
  }

  /** The leading run is white space and ends at a non-space. */
  lemma {:induction false} LeadingSpaceExactly(s: string)
    ensures forall i :: 0 <= i < LeadingSpace(s) ==> IsSpace(s[i])
    ensures LeadingSpace(s) < |s| ==> !IsSpace(s[LeadingSpace(s)])
  {
    if s != [] && IsSpace(s[0]) {
      LeadingSpaceExactly(s[1..]);
    }
  }

  /** The trailing run is white space and starts after a non-space. */
  lemma {:induction false} TrailingSpaceExactly(s: string)
    ensures forall i :: |s| - TrailingSpace(s) <= i < |s| ==> IsSpace(s[i])
    ensures TrailingSpace(s) < |s| ==> !IsSpace(s[|s| - 1 - TrailingSpace(s)])
  {
    if s != [] && IsSpace(s[|s| - 1]) {
      TrailingSpaceExactly(s[..|s| - 1]);
    }
  }

  /** The trimmed text is the infix of `s` after its leading white space. */
  lemma TrimInfix(s: string)
    ensures LeadingSpace(s) + |Trim(s)| <= |s|
    ensures Trim(s) == s[LeadingSpace(s)..LeadingSpace(s) + |Trim(s)|]
  {
    var lo := LeadingSpace(s);
    var t := s[lo..];
    assert t[..|t| - TrailingSpace(t)] == s[lo..lo + |t| - TrailingSpace(t)];
  }

  /** What `s.strip()` removes at the end is white space. */
  lemma TrimTail(s: string)
    ensures LeadingSpace(s) + |Trim(s)| <= |s|
    ensures forall i :: LeadingSpace(s) + |Trim(s)| <= i < |s| ==> IsSpace(s[i])
  {
    var lo := LeadingSpace(s);
    var t := s[lo..];
    TrailingSpaceExactly(t);
    forall i | lo + |t| - TrailingSpace(t) <= i < |s|
      ensures IsSpace(s[i])
    {
      assert s[i] == t[i - lo];
    }
  }

  /** The trimmed text neither starts nor ends with white space. */
  lemma TrimEnds(s: string)
    ensures Trim(s) != [] ==> !IsSpace(Trim(s)[0]) && !IsSpace(Trim(s)[|Trim(s)| - 1])
  {
    var lo := LeadingSpace(s);
    var t := s[lo..];
    var n := |t| - TrailingSpace(t);
    if n > 0 {
      LeadingSpaceExactly(s);
      TrailingSpaceExactly(t);
      assert t[..n][0] == s[lo];
      assert t[..n][n - 1] == t[n - 1];
    }
  }

  /** The trimmed text is empty exactly when `s` is all white space. */
  lemma TrimEmpty(s: string)
    ensures Trim(s) == [] <==> forall i :: 0 <= i < |s| ==> IsSpace(s[i])
  {
    LeadingSpaceExactly(s);
    TrimTail(s);
    TrimEnds(s);
    if Trim(s) != [] {
      TrimInfix(s);
      assert s[LeadingSpace(s)] == Trim(s)[0];
    }
  }

  /** `s.strip()` is the infix of `s` between its leading and its trailing
      white space; it neither starts nor ends with white space, and it is
      empty exactly when `s` is all white space. */
  lemma TrimExactly(s: string)
    ensures var r := Trim(s); var lo := LeadingSpace(s);
      && lo + |r| <= |s|
      && r == s[lo..lo + |r|]
      && (forall i :: 0 <= i < lo ==> IsSpace(s[i]))
      && (forall i :: lo + |r| <= i < |s| ==> IsSpace(s[i]))
      && (r != [] ==> !IsSpace(r[0]) && !IsSpace(r[|r| - 1]))
      && (r == [] <==> forall i :: 0 <= i < |s| ==> IsSpace(s[i]))
  {
    TrimInfix(s);
    LeadingSpaceExactly(s);
    TrimTail(s);
    TrimEnds(s);
    TrimEmpty(s);
  }

  /** Python's `str.lower` on one character, restricted to ASCII letters. */
  function LowerChar(c: char): (d: char)
    ensures 'A' <= c <= 'Z' ==> d as int == c as int + 32
    ensures !('A' <= c <= 'Z') ==> d == c
  {
    if 'A' <= c <= 'Z' then (c as int + 32) as char else c
  }

  /** `s.lower()`, character by character. */
  function Lower(s: string): (r: string)
    ensures |r| == |s|
    ensures forall i :: 0 <= i < |s| ==> r[i] == LowerChar(s[i])
  {
    seq(|s|, i requires 0 <= i < |s| => LowerChar(s[i]))
  }

  /** `s.endswith(suffix)`. */
  predicate EndsWith(s: string, suffix: string) {
    |suffix| <= |s| && s[|s| - |suffix|..] == suffix
  }
}
