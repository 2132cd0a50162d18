/**
 * The request-head parsing of the HTTP server: a line splitter over the bytes
 * received so far (DummyBuffer), and the message object that turns the
 * request line and the header lines into a method, a target and a header map
 * (IncomingHttpMessageAtServer).  The recognised grammar is a loose subset of
 * RFC 7230 (section 3.1.1 request-line, section 3.2 header fields); the
 * deviations from that RFC are reproduced as the code has them.
 *
 * Strings are sequences of characters; std::string's find functions are the
 * Find* functions below, with None for npos.
 */
module HttpServer {
  import opened Wrappers

  // ------------------------------------------------ std::string search helpers

  /** size_t arithmetic is taken modulo SizeTRange, and no std::string is that long. */
  const SizeTRange: nat := 0x1_0000_0000_0000_0000

  predicate FitsSizeT(s: string) {
    |s| < SizeTRange
  }

  /** The characters find_first_not_of(" \t") skips. */
  const Blanks: set<char> := {' ', '\t'}
  /** The characters find_last_not_of(" \t\r\n") skips. */
  const Whitespace: set<char> := {' ', '\t', '\r', '\n'}

  /** find_first_not_of(cs, from). */
  function FindFirstNotOf(s: string, cs: set<char>, from: nat): (r: Option<nat>)
    ensures r.Some? ==> from <= r.value < |s| && s[r.value] !in cs
    ensures r.Some? ==> forall i :: from <= i < r.value ==> s[i] in cs
    ensures r.None? ==> forall i :: from <= i < |s| ==> s[i] in cs
    decreases |s| - from
  {
    if from >= |s| then None
    else if s[from] !in cs then Some(from)
    else FindFirstNotOf(s, cs, from + 1)
  }

  /** find_last_not_of(cs) restricted to the indices below `upto`. */
  function FindLastNotOfBelow(s: string, cs: set<char>, upto: nat): (r: Option<nat>)
    requires upto <= |s|
    ensures r.Some? ==> r.value < upto && s[r.value] !in cs
    ensures r.Some? ==> forall i :: r.value < i < upto ==> s[i] in cs
    ensures r.None? ==> forall i :: 0 <= i < upto ==> s[i] in cs
  {
    if upto == 0 then None
    else if s[upto - 1] !in cs then Some(upto - 1)
    else FindLastNotOfBelow(s, cs, upto - 1)
  }

  /** find_last_not_of(cs). */
  function FindLastNotOf(s: string, cs: set<char>): (r: Option<nat>)
    ensures r.Some? ==> r.value < |s| && s[r.value] !in cs
    ensures r.Some? ==> forall i :: r.value < i < |s| ==> s[i] in cs
    ensures r.None? ==> forall i :: 0 <= i < |s| ==> s[i] in cs
  {
    FindLastNotOfBelow(s, cs, |s|)
  }

  /** find(c, from). */
  function FindChar(s: string, c: char, from: nat): (r: Option<nat>)
    ensures r.Some? ==> from <= r.value < |s| && s[r.value] == c
    ensures r.Some? ==> forall i :: from <= i < r.value ==> s[i] != c
    ensures r.None? ==> forall i :: from <= i < |s| ==> s[i] != c
    decreases |s| - from
  {
    if from >= |s| then None
    else if s[from] == c then Some(from)
    else FindChar(s, c, from + 1)
  }

  // ------------------------------------------------------------ lower casing

  /** std::tolower in the "C" locale: only 'A'..'Z' change. */
  function LowerChar(c: char): char
  {
    if 'A' <= c <= 'Z' then (c as int - 'A' as int + 'a' as int) as char else c
  }

  function Lower(s: string): (r: string)
    ensures |r| == |s|
    ensures forall i :: 0 <= i < |s| ==> r[i] == LowerChar(s[i])
  {
    seq(|s|, i requires 0 <= i < |s| => LowerChar(s[i]))
  }

  predicate IsLower(s: string)
  {
    forall i :: 0 <= i < |s| ==> !('A' <= s[i] <= 'Z')
  }

  /** HttpMessageBase::makeLower: lower-cases the string character by character. */
  method MakeLower(str: string) returns (r: string)
    ensures r == Lower(str)
    ensures IsLower(r)
    ensures forall i :: 0 <= i < |str| && !('A' <= str[i] <= 'Z') ==> r[i] == str[i]
  {
    r := str;
    for i := 0 to |str|
      invariant |r| == |str|
      invariant forall j :: 0 <= j < i ==> r[j] == LowerChar(str[j])
      invariant forall j :: i <= j < |str| ==> r[j] == str[j]
    {
      r := r[i := LowerChar(r[i])];
    }
  }

  // ----------------------------------------------------------- line splitter

  /** HttpSocketBase::DummyBuffer: received bytes, and how far the search for '\n' has got. */
  class DummyBuffer {
    var base: string
    var currpos: nat

    /** Nothing before the scan position is a line end. */
    ghost predicate Valid()
      reads this
    {
      currpos <= |base| && '\n' !in base[..currpos]
    }

    constructor ()
      ensures Valid() && base == [] && currpos == 0
    {
      base := [];
      currpos := 0;
    }

    /** pushFragment: appends received bytes; the scan position stays. */
    method PushFragment(b: string)
      requires Valid()
      modifies this
      ensures Valid()
      ensures base == old(base) + b && currpos == old(currpos)
    {
      assert (base + b)[..currpos] == base[..currpos];
      base := base + b;
    }

    /**
     * popLine: if a '\n' has arrived, moves the text up to and including the
     * first one out into the line and rewinds the scan; otherwise records how
     * far it looked and leaves the line argument as it was.
     */
    method PopLine(b: string) returns (found: bool, line: string)
      requires Valid()
      modifies this
      ensures Valid()
      ensures found <==> '\n' in old(base)
      ensures found ==> && line + base == old(base)
                        && line != [] && line[|line| - 1] == '\n' && '\n' !in line[..|line| - 1]
                        && currpos == 0
      ensures !found ==> line == b && base == old(base) && currpos == |base|
    {
      while currpos < |base|
        invariant Valid()
        invariant base == old(base)
        decreases |base| - currpos
      {
        if base[currpos] == '\n' {
          line := base[..currpos + 1];
          assert line[..|line| - 1] == base[..currpos];
          base := base[currpos + 1..];
          assert line + base == old(base);
          currpos := 0;
          return true, line;
        }
        assert base[..currpos + 1] == base[..currpos] + [base[currpos]];
        currpos := currpos + 1;
      }
      assert base[..currpos] == base;
      return false, b;
    }
  }

  // --------------------------------------------------------- request line

  const MethodNames: seq<string> := ["GET", "HEAD", "POST", "PUT", "DELETE", "TRACE", "OPTIONS", "CONNECT", "PATCH"]

  /**
   * The test setMethod applies for method i with the request line starting at
   * `start`: the name is there and a space follows.  The space is looked for
   * at index |name|, not start + |name|.
   */
  predicate MethodMatchesAt(line: string, start: nat, i: nat)
    requires i < |MethodNames|
  {
    var name := MethodNames[i];
    |line| > |name| + start && line[start .. start + |name|] == name && line[|name|] == ' '
  }

  /** The first method from index `from` on that matches. */
  function FirstMethodMatch(line: string, start: nat, from: nat): (r: Option<nat>)
    requires from <= |MethodNames|
    ensures r.Some? ==> from <= r.value < |MethodNames| && MethodMatchesAt(line, start, r.value)
    ensures r.Some? ==> forall j :: from <= j < r.value ==> !MethodMatchesAt(line, start, j)
    ensures r.None? ==> forall j :: from <= j < |MethodNames| ==> !MethodMatchesAt(line, start, j)
    decreases |MethodNames| - from
  {
    if from == |MethodNames| then None
    else if MethodMatchesAt(line, start, from) then Some(from)
    else FirstMethodMatch(line, start, from + 1)
  }

  /**
   * line.substr(pos, last - pos + 1): the count is computed modulo SizeTRange
   * and substr takes at most what is left after pos.  When last + 1 is below
   * pos the count wraps to a huge value and the rest of the line is taken.
   */
  function SubstrThrough(line: string, pos: nat, last: nat): (r: string)
    requires FitsSizeT(line) && pos <= |line| && last < |line|
    ensures last + 1 >= pos ==> r == line[pos .. last + 1]
    ensures last + 1 < pos ==> r == line[pos..]
  {
    var count := (last - pos + 1) % SizeTRange;
    line[pos .. pos + if count < |line| - pos then count else |line| - pos]
  }

  /** What setMethod makes of a line. */
  datatype RequestLine =
    | NotRequestLine
    | RequestTarget(name: string, value: string)
      /** No non-blank character follows the method name: substr(npos, ...) throws std::out_of_range. */
    | TargetOutOfRange(name: string)

  /** What follows method i, recognised at `start`: the target, or the throw when only blanks follow. */
  function ParseTarget(line: string, start: nat, i: nat): (r: RequestLine)
    requires FitsSizeT(line)
    requires start < |line| && line[start] !in Whitespace
    requires i < |MethodNames|
    ensures !r.NotRequestLine? && r.name == MethodNames[i]
    ensures r.TargetOutOfRange? <==> forall k :: start + |MethodNames[i]| + 1 <= k < |line| ==> line[k] in Blanks
  {
    var name := MethodNames[i];
    match FindFirstNotOf(line, Blanks, start + |name| + 1)
    case None => TargetOutOfRange(name)
    case Some(valueStart) =>
      var last := FindLastNotOf(line, Whitespace);
      RequestTarget(name, SubstrThrough(line, valueStart, last.value))
  }

  function ParseRequestLine(line: string): (r: RequestLine)
    requires FitsSizeT(line)
    ensures (forall i :: 0 <= i < |line| ==> line[i] in Blanks) ==> r == NotRequestLine
    ensures (exists i :: 0 <= i < |line| && line[i] in {'\r', '\n'} && forall j :: 0 <= j < i ==> line[j] in Blanks)
            ==> r == NotRequestLine
    ensures !r.NotRequestLine? ==> r.name in MethodNames
  {
    match FindFirstNotOf(line, Blanks, 0)
    case None => NotRequestLine
    case Some(start) =>
      if line[start] == '\r' || line[start] == '\n' then NotRequestLine
      else match FirstMethodMatch(line, start, 0)
        case None => NotRequestLine
        case Some(i) => ParseTarget(line, start, i)
  }

  /** The request line whose first non-blank character is at `start` and whose first matching method is i. */
  lemma RequestLineAt(line: string, start: nat, i: nat)
    requires FitsSizeT(line)
    requires FindFirstNotOf(line, Blanks, 0) == Some(start) && line[start] != '\r' && line[start] != '\n'
    requires i < |MethodNames| && MethodMatchesAt(line, start, i)
    requires forall j :: 0 <= j < i ==> !MethodMatchesAt(line, start, j)
    ensures ParseRequestLine(line) == ParseTarget(line, start, i)
  {
    assert FirstMethodMatch(line, start, 0) == Some(i);
  }

  /** The method loop of setMethod: the index of the first method that matches at `start`, or the method count. */
  method MatchMethod(line: string, start: nat) returns (i: nat)
    ensures i <= |MethodNames|
    ensures i < |MethodNames| ==> MethodMatchesAt(line, start, i)
    ensures forall j :: 0 <= j < i ==> !MethodMatchesAt(line, start, j)
  {
    i := 0;
    while i < |MethodNames| && !MethodMatchesAt(line, start, i)
      invariant i <= |MethodNames|
      invariant forall j :: 0 <= j < i ==> !MethodMatchesAt(line, start, j)
    {
      i := i + 1;
    }
  }

  /** ParseTarget throws when only blanks follow the method name. */
  lemma TargetOutOfRangeAt(line: string, start: nat, i: nat)
    requires FitsSizeT(line)
    requires start < |line| && line[start] !in Whitespace
    requires i < |MethodNames|
    requires FindFirstNotOf(line, Blanks, start + |MethodNames[i]| + 1) == None
    ensures ParseTarget(line, start, i) == TargetOutOfRange(MethodNames[i])
  {
  }

  /** ParseTarget takes the target from its first non-blank through the line's last non-whitespace character. */
  lemma TargetAt(line: string, start: nat, i: nat, valueStart: nat, last: nat)
    requires FitsSizeT(line)
    requires start < |line| && line[start] !in Whitespace
    requires i < |MethodNames|
    requires FindFirstNotOf(line, Blanks, start + |MethodNames[i]| + 1) == Some(valueStart)
    requires FindLastNotOf(line, Whitespace) == Some(last)
    ensures ParseTarget(line, start, i) == RequestTarget(MethodNames[i], SubstrThrough(line, valueStart, last))
  {
  }

  /** The request line whose first non-blank character starts no method. */
  lemma NoMethodAt(line: string, start: nat)
    requires FitsSizeT(line)
    requires FindFirstNotOf(line, Blanks, 0) == Some(start)
    requires forall j :: 0 <= j < |MethodNames| ==> !MethodMatchesAt(line, start, j)
    ensures ParseRequestLine(line) == NotRequestLine
  {
    assert FirstMethodMatch(line, start, 0) == None;
  }

  /** No method name holds a space, and the names are pairwise different. */
  lemma MethodNamesFacts()
    ensures forall i :: 0 <= i < |MethodNames| ==> ' ' !in MethodNames[i] && |MethodNames[i]| > 0
    ensures forall i :: 0 <= i < |MethodNames| ==> MethodNames[i][0] !in Whitespace
    ensures forall i, j :: 0 <= i < j < |MethodNames| ==> MethodNames[i] != MethodNames[j]
  {
  }

  /** Two space-free words that are both followed by a space at the start of a line are the same word. */
  lemma SpaceEndsPrefix(a: string, b: string, line: string)
    requires ' ' !in a && ' ' !in b
    requires |line| > |a| && line[..|a|] == a && line[|a|] == ' '
    requires |line| > |b| && line[..|b|] == b && line[|b|] == ' '
    ensures a == b
  {
    forall k | 0 <= k < |a|
      ensures line[k] != ' '
    {
      assert line[k] == a[k] && a[k] in a;
    }
    forall k | 0 <= k < |b|
      ensures line[k] != ' '
    {
      assert line[k] == b[k] && b[k] in b;
    }
    assert |a| == |b|;
    assert a == line[..|a|] == b;
  }

  /** With the line starting with a method name and a space, only that method matches. */
  lemma OnlyOwnMethodMatches(line: string, i: nat, j: nat)
    requires i < |MethodNames| && j < |MethodNames|
    requires |line| > |MethodNames[i]| && line[..|MethodNames[i]|] == MethodNames[i] && line[|MethodNames[i]|] == ' '
    requires MethodMatchesAt(line, 0, j)
    ensures i == j
  {
    MethodNamesFacts();
    SpaceEndsPrefix(MethodNames[i], MethodNames[j], line);
  }

  /** A line that starts with method i and a space is recognised as method i. */
  lemma FirstMethodMatchOfPrefix(line: string, i: nat)
    requires i < |MethodNames|
    requires |line| > |MethodNames[i]| && line[..|MethodNames[i]|] == MethodNames[i] && line[|MethodNames[i]|] == ' '
    ensures FirstMethodMatch(line, 0, 0) == Some(i)
  {
    assert MethodMatchesAt(line, 0, i);
    var k := FirstMethodMatch(line, 0, 0).value;
    OnlyOwnMethodMatches(line, i, k);
  }

  /** find_first_not_of finds k when s[k] is outside the set and everything from `from` up to it is in it. */
  lemma FirstNotOfAt(s: string, cs: set<char>, from: nat, k: nat)
    requires from <= k < |s| && s[k] !in cs
    requires forall j :: from <= j < k ==> s[j] in cs
    ensures FindFirstNotOf(s, cs, from) == Some(k)
  {
  }

  /** find_last_not_of finds k when s[k] is outside the set and everything after it is in it. */
  lemma LastNotOfHere(s: string, cs: set<char>, k: nat)
    requires k < |s| && s[k] !in cs
    requires forall j :: k < j < |s| ==> s[j] in cs
    ensures FindLastNotOf(s, cs) == Some(k)
  {
  }

  /** The substring from pos through pos + |target| - 1 is the slice there. */
  lemma SubstrOfSlice(line: string, pos: nat, target: string)
    requires FitsSizeT(line) && 1 <= pos && pos + |target| <= |line|
    requires line[pos .. pos + |target|] == target
    ensures SubstrThrough(line, pos, pos + |target| - 1) == target
  {
  }

  /** When the searches land on the target's bounds, ParseTarget yields exactly that target. */
  lemma TargetOfSearches(line: string, i: nat, target: string)
    requires FitsSizeT(line) && i < |MethodNames| && 1 <= |MethodNames[i]| + |target| < |line|
    requires line[0] !in Whitespace
    requires FindFirstNotOf(line, Blanks, |MethodNames[i]| + 1) == Some(|MethodNames[i]| + 1)
    requires FindLastNotOf(line, Whitespace) == Some(|MethodNames[i]| + |target|)
    requires SubstrThrough(line, |MethodNames[i]| + 1, |MethodNames[i]| + |target|) == target
    ensures ParseTarget(line, 0, i) == RequestTarget(MethodNames[i], target)
  {
    TargetAt(line, 0, i, |MethodNames[i]| + 1, |MethodNames[i]| + |target|);
  }

  /*
   * The searches setMethod makes on a line laid out as method i, a space, a
   * target and CR LF, one lemma each.
   */

  /** The line starts at index 0 with method i. */
  lemma MethodOfParts(line: string, i: nat, target: string)
    requires i < |MethodNames|
    requires target != [] && target[0] !in Blanks && target[|target| - 1] !in Whitespace
    requires |line| == |MethodNames[i]| + |target| + 3
    requires line[..|MethodNames[i]|] == MethodNames[i] && line[|MethodNames[i]|] == ' '
    requires line[|MethodNames[i]| + 1 .. |MethodNames[i]| + 1 + |target|] == target
    requires line[|line| - 2] == '\r' && line[|line| - 1] == '\n'
    ensures line[0] !in Whitespace && FindFirstNotOf(line, Blanks, 0) == Some(0)
    ensures MethodMatchesAt(line, 0, i) && forall j :: 0 <= j < i ==> !MethodMatchesAt(line, 0, j)
  {
    MethodNamesFacts();
    assert line[0] == MethodNames[i][0];
    FirstNotOfAt(line, Blanks, 0, 0);
    FirstMethodMatchOfPrefix(line, i);
  }

  /** The target starts right after the space. */
  lemma TargetStartOfParts(line: string, i: nat, target: string)
    requires i < |MethodNames|
    requires target != [] && target[0] !in Blanks && target[|target| - 1] !in Whitespace
    requires |line| == |MethodNames[i]| + |target| + 3
    requires line[..|MethodNames[i]|] == MethodNames[i] && line[|MethodNames[i]|] == ' '
    requires line[|MethodNames[i]| + 1 .. |MethodNames[i]| + 1 + |target|] == target
    requires line[|line| - 2] == '\r' && line[|line| - 1] == '\n'
    ensures FindFirstNotOf(line, Blanks, |MethodNames[i]| + 1) == Some(|MethodNames[i]| + 1)
  {
    assert line[|MethodNames[i]| + 1] == target[0];
    FirstNotOfAt(line, Blanks, |MethodNames[i]| + 1, |MethodNames[i]| + 1);
  }

  /** The target ends right before CR LF. */
  lemma TargetEndOfParts(line: string, i: nat, target: string)
    requires i < |MethodNames|
    requires target != [] && target[0] !in Blanks && target[|target| - 1] !in Whitespace
    requires |line| == |MethodNames[i]| + |target| + 3
    requires line[..|MethodNames[i]|] == MethodNames[i] && line[|MethodNames[i]|] == ' '
    requires line[|MethodNames[i]| + 1 .. |MethodNames[i]| + 1 + |target|] == target
    requires line[|line| - 2] == '\r' && line[|line| - 1] == '\n'
    ensures FindLastNotOf(line, Whitespace) == Some(|MethodNames[i]| + |target|)
  {
    var last := |MethodNames[i]| + |target|;
    assert line[last] == target[|target| - 1];
    LastNotOfHere(line, Whitespace, last);
  }

  /**
   * The request line "<method> <target>\r\n" is recognised with that method,
   * and the target comes back as it was sent, whatever it holds after its
   * first character (so a protocol version after the target stays in it).
   */
  lemma RequestLineRoundTrip(i: nat, target: string)
    requires i < |MethodNames| && FitsSizeT(MethodNames[i] + " " + target + "\r\n")
    requires target != [] && target[0] !in Blanks && target[|target| - 1] !in Whitespace
    ensures ParseRequestLine(MethodNames[i] + " " + target + "\r\n") == RequestTarget(MethodNames[i], target)
  {
    var name := MethodNames[i];
    var line := name + " " + target + "\r\n";
    assert line[..|name|] == name;
    assert line[|name| + 1 .. |name| + 1 + |target|] == target;
    MethodOfParts(line, i, target);
    TargetStartOfParts(line, i, target);
    TargetEndOfParts(line, i, target);
    SubstrOfSlice(line, |name| + 1, target);
    TargetOfSearches(line, i, target);
    RequestLineAt(line, 0, i);
  }

  /**
   * The space after the method name is looked for at the name's length
   * rather than after the leading blanks, so a request line with one leading
   * blank is not recognised.
   */
  lemma LeadingBlankRejectsRequestLine(i: nat, target: string)
    requires i < |MethodNames| && FitsSizeT(" " + MethodNames[i] + " " + target + "\r\n")
    ensures ParseRequestLine(" " + MethodNames[i] + " " + target + "\r\n") == NotRequestLine
  {
    var name := MethodNames[i];
    var line := " " + name + " " + target + "\r\n";
    MethodNamesAreLetters();
    assert line[1 .. 1 + |name|] == name;
    assert line[1 + |name|] == ' ';
    FirstNotOfAt(line, Blanks, 0, 1);
    forall j | 0 <= j < |MethodNames|
      ensures !MethodMatchesAt(line, 1, j)
    {
      var n := MethodNames[j];
      // the space would have to be a letter of the name just read, or a
      // longer name would have to hold the space after this one
      assert 1 <= |n| <= |name| ==> line[|n|] == name[|n| - 1];
      assert |name| < |n| < |line| - 1 ==> line[1 .. 1 + |n|][|name|] == line[1 + |name|];
    }
    NoMethodAt(line, 1);
  }

  /** Every method name is a non-empty run of capital letters. */
  lemma MethodNamesAreLetters()
    ensures forall j :: 0 <= j < |MethodNames| ==> MethodNames[j] != []
    ensures forall j, k :: 0 <= j < |MethodNames| && 0 <= k < |MethodNames[j]| ==> 'A' <= MethodNames[j][k] <= 'Z'
  {
  }

  /**
   * Past the leading blanks the method name need not be followed by a blank,
   * and the target may come out empty.
   */
  lemma EmptyTargetAccepted()
    ensures ParseRequestLine("    GET/\r") == RequestTarget("GET", "")
  {
    var line := "    GET/\r";
    FirstNotOfAt(line, Blanks, 0, 4);
    assert line[4..7] == "GET";
    RequestLineAt(line, 4, 0);
    FirstNotOfAt(line, Blanks, 8, 8);
    LastNotOfHere(line, Whitespace, 7);
    TargetAt(line, 4, 0, 8, 7);
  }

  // ---------------------------------------------------------- header lines

  /** What addHeaderEntry makes of a line. */
  datatype HeaderLine =
    | BlankLine                               // whitespace only, not the terminator: skipped
    | EndOfHeaders                            // the blank line that ends the header block
    | Malformed                               // no ':' before the last non-whitespace character
    | Field(key: string, value: string)

  /**
   * A whitespace-only line ends the header block when it is two characters
   * long or starts with CR LF; a line with a ':' before its last
   * non-whitespace character is a field whose name is lower-cased (trailing
   * blanks before the ':' kept) and whose value is trimmed.
   */
  function ClassifyHeaderLine(line: string): (r: HeaderLine)
    ensures (r.BlankLine? || r.EndOfHeaders?) <==> forall i :: 0 <= i < |line| ==> line[i] in Whitespace
    ensures r.EndOfHeaders? <==> (forall i :: 0 <= i < |line| ==> line[i] in Whitespace)
                                 && (|line| == 2 || (|line| > 2 && line[0] == '\r' && line[1] == '\n'))
    ensures r.Field? ==> IsLower(r.key) && r.value != []
                         && r.value[0] !in Blanks && r.value[|r.value| - 1] !in Whitespace
  {
    match FindLastNotOf(line, Whitespace)
    case None =>
      if |line| == 2 || (|line| > 2 && line[0] == '\r' && line[1] == '\n') then EndOfHeaders else BlankLine
    case Some(last) => ClassifyContentLine(line, last)
  }

  /** A header line with a non-whitespace character, the last one at `last`: a field or malformed. */
  function ClassifyContentLine(line: string, last: nat): (r: HeaderLine)
    requires last < |line| && line[last] !in Whitespace
    ensures r.Field? || r.Malformed?
    ensures r.Field? ==> IsLower(r.key) && r.value != [] && r.value[0] !in Blanks
    ensures r.Field? ==> exists k :: 0 <= k < |line| && line[k] == ':'
  {
    assert line[last] !in Blanks;
    var start := FindFirstNotOf(line, Blanks, 0).value;
    match FindChar(line, ':', start)
    case None => Malformed
    case Some(idx) =>
      if idx >= last then Malformed
      else
        var valueStart := FindFirstNotOf(line, Blanks, idx + 1).value;
        assert valueStart <= last;
        Field(Lower(line[start .. idx]), line[valueStart .. last + 1])
  }

  /** The whitespace-only case of ClassifyHeaderLine. */
  lemma ClassifyBlank(line: string)
    requires FindLastNotOf(line, Whitespace) == None
    ensures ClassifyHeaderLine(line) ==
              if |line| == 2 || (|line| > 2 && line[0] == '\r' && line[1] == '\n') then EndOfHeaders else BlankLine
  {
  }

  /** The malformed case of ClassifyHeaderLine: no ':' before the last non-whitespace character. */
  lemma ClassifyMalformed(line: string, last: nat, start: nat)
    requires FindLastNotOf(line, Whitespace) == Some(last)
    requires FindFirstNotOf(line, Blanks, 0) == Some(start)
    requires FindChar(line, ':', start).None? || FindChar(line, ':', start).value >= last
    ensures ClassifyHeaderLine(line) == Malformed
  {
  }

  /** The field case of ClassifyHeaderLine, given the searches addHeaderEntry makes. */
  lemma ClassifyField(line: string, last: nat, start: nat, idx: nat)
    requires FindLastNotOf(line, Whitespace) == Some(last)
    requires FindFirstNotOf(line, Blanks, 0) == Some(start)
    requires FindChar(line, ':', start) == Some(idx) && idx < last
    ensures var valueStart := FindFirstNotOf(line, Blanks, idx + 1);
            valueStart.Some? && valueStart.value <= last &&
            ClassifyHeaderLine(line) == Field(Lower(line[start .. idx]), line[valueStart.value .. last + 1])
  {
    assert line[last] !in Blanks;
  }

  /**
   * "<name>: <value>\r\n" is read as the lower-cased name and the value as
   * sent, for a name without ':' that does not start with a blank and a value
   * that neither starts with a blank nor ends with whitespace.
   */
  lemma HeaderLineRoundTrip(name: string, value: string)
    requires ':' !in name && (name != [] ==> name[0] !in Blanks)
    requires value != [] && value[0] !in Blanks && value[|value| - 1] !in Whitespace
    ensures ClassifyHeaderLine(name + ": " + value + "\r\n") == Field(Lower(name), value)
  {
    var line := name + ": " + value + "\r\n";
    var last := |name| + 1 + |value|;
    assert line[last] == value[|value| - 1];
    assert FindLastNotOf(line, Whitespace) == Some(last);
    assert line[0] == if name == [] then ':' else name[0];
    assert FindFirstNotOf(line, Blanks, 0) == Some(0);
    assert forall k :: 0 <= k < |name| ==> line[k] == name[k];
    assert line[|name|] == ':';
    assert forall k :: 0 <= k < |name| ==> line[k] != ':';
    assert FindChar(line, ':', 0) == Some(|name|);
    assert line[|name| + 2] == value[0];
    assert FindFirstNotOf(line, Blanks, |name| + 1) == Some(|name| + 2);
    assert line[0 .. |name|] == name;
    assert line[|name| + 2 .. last + 1] == value;
  }

  // ------------------------------------------------------------ the message

  datatype Method = Method(name: string, value: string)
  datatype ConnStatus = Close | KeepAlive
  datatype ReadStatus = NoInit | InHdr | InBody | Completed
  /** How a call ended: with a return value, or with std::out_of_range thrown from substr. */
  datatype Completion = Returned(result: bool) | Threw

  /** What setConnStatus leaves: only the exact lower-cased values "keep alive" and "close" are recognised. */
  function ConnStatusAfter(header: map<string, string>, current: ConnStatus): (r: ConnStatus)
    ensures r != current ==> "connection" in header
    ensures "connection" in header && Lower(header["connection"]) == "close" ==> r == Close
    ensures "connection" in header && Lower(header["connection"]) == "keep alive" ==> r == KeepAlive
    ensures ("connection" !in header || Lower(header["connection"]) !in {"keep alive", "close"}) ==> r == current
  {
    if "connection" in header then
      var v := Lower(header["connection"]);
      if v == "keep alive" then KeepAlive
      else if v == "close" then Close
      else current
    else current
  }

  /** The token RFC 7230 (section 6.1) defines, "keep-alive", does not switch a closing connection back. */
  lemma KeepAliveTokenNotRecognised(header: map<string, string>)
    requires "connection" in header && Lower(header["connection"]) == "keep-alive"
    ensures ConnStatusAfter(header, Close) == Close
  {
    assert "keep-alive"[4] != "keep alive"[4];
  }

  class IncomingHttpMessageAtServer {
    var requestMethod: Method
    var header: map<string, string>
    var contentLength: nat
    var body: seq<char>
    var connStatus: ConnStatus
    var readStatus: ReadStatus
    var bodyBytesRetrieved: nat

    constructor ()
      ensures requestMethod == Method("", "") && header == map[] && contentLength == 0 && body == []
      ensures connStatus == KeepAlive && readStatus == NoInit && bodyBytesRetrieved == 0
    {
      requestMethod := Method("", "");
      header := map[];
      contentLength := 0;
      body := [];
      connStatus := KeepAlive;
      readStatus := NoInit;
      bodyBytesRetrieved := 0;
    }

    /** getContentLength(): the stored content length. */
    function GetContentLength(): (r: nat)
      reads this
      ensures r == contentLength
    {
      contentLength
    }

    /**
     * setCL: the value parsed from a "content-length" entry is overwritten by
     * the statement after it, so the content length always ends up 0.
     */
    method SetCL()
      modifies this`contentLength
      ensures contentLength == 0
    {
      contentLength := 0;
    }

    /** setConnStatus. */
    method SetConnStatus()
      modifies this`connStatus, this`contentLength
      ensures connStatus == ConnStatusAfter(header, old(connStatus))
      ensures contentLength == 0
    {
      if "connection" in header {
        var val := MakeLower(header["connection"]);
        if val == "keep alive" {
          connStatus := KeepAlive;
        } else if val == "close" {
          connStatus := Close;
        }
      }
      contentLength := 0;
    }

    /** clear: back to an empty message awaiting its request line; the connection status stays. */
    method Clear()
      modifies this
      ensures requestMethod == Method("", "") && header == map[] && body == [] && contentLength == 0
      ensures readStatus == NoInit && bodyBytesRetrieved == 0
      ensures connStatus == old(connStatus)
    {
      requestMethod := Method("", "");
      header := map[];
      body := [];
      contentLength := 0;
      readStatus := NoInit;
      bodyBytesRetrieved := 0;
    }

    /** setMethod: recognises the request line and moves on to the headers. */
    method SetMethod(line: string) returns (res: Completion)
      requires readStatus == NoInit && FitsSizeT(line)
      modifies this`requestMethod, this`readStatus
      ensures match ParseRequestLine(line)
        case NotRequestLine => res == Returned(false) && requestMethod == old(requestMethod) && readStatus == NoInit
        case RequestTarget(n, v) => res == Returned(true) && requestMethod == Method(n, v) && readStatus == InHdr
        case TargetOutOfRange(n) => res == Threw && requestMethod == old(requestMethod).(name := n) && readStatus == NoInit
    {
      var start := FindFirstNotOf(line, Blanks, 0);
      if start.None? || line[start.value] == '\r' || line[start.value] == '\n' {
        assert ParseRequestLine(line) == NotRequestLine;
        return Returned(false);
      }
      var i := MatchMethod(line, start.value);
      if i == |MethodNames| {
        NoMethodAt(line, start.value);
        return Returned(false);
      }
      var name := MethodNames[i];
      requestMethod := requestMethod.(name := name);
      var valueStart := FindFirstNotOf(line, Blanks, start.value + |name| + 1);
      if valueStart.None? {
        TargetOutOfRangeAt(line, start.value, i);
        RequestLineAt(line, start.value, i);
        return Threw;
      }
      assert line[start.value] !in Whitespace;
      var last := FindLastNotOf(line, Whitespace);
      TargetAt(line, start.value, i, valueStart.value, last.value);
      RequestLineAt(line, start.value, i);
      requestMethod := requestMethod.(value := SubstrThrough(line, valueStart.value, last.value));
      readStatus := InHdr;
      return Returned(true);
    }

    /** header.insert: a new key is added with its value; an existing key keeps the value it has. */
    method InsertHeader(key: string, value: string)
      modifies this`header
      ensures key in header && header[key] == (if key in old(header) then old(header)[key] else value)
      ensures forall k :: k != key ==> (k in header <==> k in old(header))
      ensures forall k :: k != key && k in header ==> header[k] == old(header)[k]
      ensures header == (if key in old(header) then old(header) else old(header)[key := value])
    {
      if key !in header {
        header := header[key := value];
      }
    }

    /**
     * addHeaderEntry: returns whether more header lines follow.  A field is
     * inserted unless its name is already present (the first value wins).
     */
    method AddHeaderEntry(line: string) returns (more: bool)
      requires readStatus == InHdr
      modifies this`header, this`contentLength, this`readStatus
      ensures match ClassifyHeaderLine(line)
        case BlankLine => more && header == old(header) && contentLength == old(contentLength) && readStatus == InHdr
        case EndOfHeaders => !more && header == old(header) && contentLength == 0 && readStatus == Completed
        case Malformed => !more && header == old(header) && contentLength == old(contentLength) && readStatus == InHdr
        case Field(k, v) => more && header == (if k in old(header) then old(header) else old(header)[k := v])
                            && contentLength == old(contentLength) && readStatus == InHdr
    {
      var last := FindLastNotOf(line, Whitespace);
      if last.None? {
        ClassifyBlank(line);
        if !(|line| == 2 || (|line| > 2 && line[0] == '\r' && line[1] == '\n')) {
          return true;
        }
        SetCL();
        readStatus := if contentLength != 0 then InBody else Completed;
        return false;
      }
      assert line[last.value] !in Blanks;
      var start := FindFirstNotOf(line, Blanks, 0);
      var idx := FindChar(line, ':', start.value);
      if idx.None? || idx.value >= last.value {
        ClassifyMalformed(line, last.value, start.value);
        return false;
      }
      ClassifyField(line, last.value, start.value, idx.value);
      var valueStart := FindFirstNotOf(line, Blanks, idx.value + 1);
      var key := MakeLower(line[start.value .. idx.value]);
      var value := line[valueStart.value .. last.value + 1];
      assert ClassifyHeaderLine(line) == Field(key, value);
      InsertHeader(key, value);
      return true;
    }
  }
}
