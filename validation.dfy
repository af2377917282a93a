/** The input checks the endpoints apply before touching any collection:
    the collection-name pattern, the file-type check, the upload size limit
    and the pagination bounds. */
module Validation {
  import opened Errors
  import opened Text

  /** A character of the class `[a-zA-Z0-9_-]`. */
  predicate IsNameChar(c: char) {
    'a' <= c <= 'z' || 'A' <= c <= 'Z' || '0' <= c <= '9' || c == '_' || c == '-'
  }

  /** The length of the longest prefix of `s` made of name characters: what
      the greedy `[a-zA-Z0-9_-]+` consumes when matched from the start. */
  function NameRun(s: string): (n: nat)
    ensures n <= |s|
  {
    if s != [] && IsNameChar(s[0]) then 1 + NameRun(s[1..]) else 0
  }

  /** The run is made of name characters and stops at the first other one. */
  lemma {:induction false} NameRunExactly(s: string)
    ensures forall i :: 0 <= i < NameRun(s) ==> IsNameChar(s[i])
    ensures NameRun(s) < |s| ==> !IsNameChar(s[NameRun(s)])
  {
    if s != [] && IsNameChar(s[0]) {
      NameRunExactly(s[1..]);
    }
  }

  /** `re.match(r'^[a-zA-Z0-9_-]+$', s)` as Python evaluates it. The greedy
      run is followed by `$`, which matches at the end of the string or just
      before a newline that ends it. Backing off the run cannot help, since
      every character inside it is a name character and neither the end nor
      a newline. */
  predicate SpaceNameMatchAsWritten(s: string) {
    var n := NameRun(s);
    n >= 1 && (n == |s| || (n == |s| - 1 && s[n] == '\n'))
  }

  /** The intended name check: the whole string is one non-empty run of
      name characters (what `re.fullmatch` with the same class decides). */
  predicate ValidSpaceName(s: string) {
    var n := NameRun(s);
    n >= 1 && n == |s|
  }

  lemma {:induction false} ValidSpaceNameExactly(s: string)
    ensures ValidSpaceName(s) <==> s != [] && forall i :: 0 <= i < |s| ==> IsNameChar(s[i])
  {
    NameRunExactly(s);
  }

  /** One character outside the class anywhere refuses the name. */
  lemma ForeignCharRefused(s: string, i: nat)
    requires i < |s| && !IsNameChar(s[i])
    ensures !ValidSpaceName(s)
  {
    ValidSpaceNameExactly(s);
  }

  /** The pattern as written accepts exactly the intended names, and those
      names followed by one newline. */
  lemma {:induction false} SpaceNameMatchAsWrittenExactly(s: string)
    ensures SpaceNameMatchAsWritten(s) <==>
      ValidSpaceName(s) || (|s| >= 2 && s[|s| - 1] == '\n' && ValidSpaceName(s[..|s| - 1]))
  {
    var n := NameRun(s);
    NameRunExactly(s);
    ValidSpaceNameExactly(s);
    if |s| >= 2 && s[|s| - 1] == '\n' {
      var w := s[..|s| - 1];
      ValidSpaceNameExactly(w);
      assert forall i :: 0 <= i < |w| ==> w[i] == s[i];
      if ValidSpaceName(w) {
        assert forall i :: 0 <= i < |s| - 1 ==> IsNameChar(s[i]);
        assert !IsNameChar(s[|s| - 1]);
        assert n == |s| - 1;
      }
      if SpaceNameMatchAsWritten(s) && !ValidSpaceName(s) {
        assert n == |s| - 1;
      }
    }
  }

  /** "kb\n" passes the pattern as written although it holds a character
      outside the class; the intended check rejects it. */
  lemma TrailingNewlineSlipsThrough()
    ensures SpaceNameMatchAsWritten("kb\n")
    ensures !ValidSpaceName("kb\n")
  {
    SpaceNameMatchAsWrittenExactly("kb\n");
    assert "kb\n"[..2] == "kb";
    ValidSpaceNameExactly("kb");
    ValidSpaceNameExactly("kb\n");
    assert !IsNameChar("kb\n"[2]);
  }

  /** Names the check accepts and refuses: an underscore-and-hyphen name is
      accepted; a slash, a space, a dot or the empty string is refused. */
  lemma NameExamples()
    ensures ValidSpaceName("kb_1-a")
    ensures !ValidSpaceName("a/b") && !ValidSpaceName("a b") && !ValidSpaceName("a.b")
    ensures !ValidSpaceName("")
  {
    ValidSpaceNameExactly("kb_1-a");
    ForeignCharRefused("a/b", 1);
    ForeignCharRefused("a b", 1);
    ForeignCharRefused("a.b", 1);
  }

  /** The one allowed extension. */
  const CsvExtension: string := ".csv"

  /** `filename.lower().endswith('.csv')`. */
  predicate ValidFileType(filename: string) {
    EndsWith(Lower(filename), CsvExtension)
  }

  /** The file-type check looks only at the last four characters: a dot and
      the letters c, s, v in either case. */
  lemma ValidFileTypeExactly(f: string)
    ensures ValidFileType(f) <==>
      && |f| >= 4
      && f[|f| - 4] == '.'
      && (f[|f| - 3] == 'c' || f[|f| - 3] == 'C')
      && (f[|f| - 2] == 's' || f[|f| - 2] == 'S')
      && (f[|f| - 1] == 'v' || f[|f| - 1] == 'V')
  {
    var l := Lower(f);
    if |f| >= 4 {
      var tail := l[|l| - 4..];
      assert tail == [l[|f| - 4], l[|f| - 3], l[|f| - 2], l[|f| - 1]];
    }
  }

  /** Uploads above this many bytes are refused (50 MiB). */
  const MaxFileSize: nat := 50 * 1024 * 1024

  /** The largest page a client may ask for. */
  const MaxPageLimit: int := 1000

  /** The page request when the query gives no `limit` or `offset`. */
  const DefaultPageLimit: int := 100
  const DefaultPageOffset: int := 0

  /** The pagination check: the limit is tested before the offset. */
  function CheckPage(limit: int, offset: int): (r: Option<Failure>)
    ensures r == None <==> 1 <= limit <= MaxPageLimit && offset >= 0
    ensures r == Some(InvalidLimit) <==> limit < 1 || limit > MaxPageLimit
    ensures r == Some(InvalidOffset) <==> 1 <= limit <= MaxPageLimit && offset < 0
  {
    if limit < 1 || limit > MaxPageLimit then Some(InvalidLimit)
    else if offset < 0 then Some(InvalidOffset)
    else None
  }

  /** The documented boundary cases of the pagination check. */
  lemma PageBoundaries()
    ensures CheckPage(0, 0) == Some(InvalidLimit)
    ensures CheckPage(1001, 0) == Some(InvalidLimit)
    ensures CheckPage(100, -1) == Some(InvalidOffset)
    ensures CheckPage(1, 0) == None && CheckPage(1000, 0) == None
    ensures CheckPage(DefaultPageLimit, DefaultPageOffset) == None
  {
  }
}
