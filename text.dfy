/**
 * The parts of `java.lang.String` and `java.io.BufferedReader` that the
 * store uses, on strings as sequences of characters: splitting on a
 * one-character delimiter, reading lines, trimming, lower-casing,
 * substring search, `compareTo` and `String.join`.
 */
module Text {

  /** Index of the first character of `s` that is in `stops`, or `|s|` when there is none. */
  function IndexOfAny(s: string, stops: set<char>): (i: nat)
    ensures i <= |s|
    ensures forall j :: 0 <= j < i ==> s[j] !in stops
    ensures i < |s| ==> s[i] in stops
  {
    if s == [] || s[0] in stops then 0 else 1 + IndexOfAny(s[1..], stops)
  }

  /** All the pieces between occurrences of `sep`, empty ones included. */
  function Pieces(s: string, sep: char): (r: seq<string>)
    ensures |r| >= 1
    ensures sep !in s ==> r == [s]
    decreases |s|
  {
    var i := IndexOfAny(s, {sep});
    if i == |s| then [s] else [s[..i]] + Pieces(s[i + 1..], sep)
  }

  /** `p` without its trailing empty strings. */
  function DropTrailingEmpty(p: seq<string>): (r: seq<string>)
    ensures r <= p
    ensures r == [] || r[|r| - 1] != ""
    ensures forall i :: |r| <= i < |p| ==> p[i] == ""
  {
    if p != [] && p[|p| - 1] == "" then DropTrailingEmpty(p[..|p| - 1]) else p
  }

  /**
   * `s.split(regex)` for a regex matching the single character `sep`: when
   * `sep` does not occur the result is `s` alone (even for the empty
   * string); otherwise all pieces, a leading empty one included, with the
   * trailing empty ones removed.
   */
  function Split(s: string, sep: char): seq<string>
  {
    if sep in s then DropTrailingEmpty(Pieces(s, sep)) else [s]
  }

  lemma PiecesOfPrefix(a: string, sep: char, rest: string)
    requires sep !in a
    ensures Pieces(a + [sep] + rest, sep) == [a] + Pieces(rest, sep)
  {
    var s := a + [sep] + rest;
    var i := IndexOfAny(s, {sep});
    assert s[|a|] == sep;
    assert forall j :: 0 <= j < |a| ==> s[j] == a[j];
    assert i == |a|;
    assert s[..i] == a;
    assert s[i + 1..] == rest;
  }

  const LineTerminators: set<char> := {'\n', '\r'}

  /**
   * The strings successive `BufferedReader.readLine` calls return for the
   * content `s`: a line ends at `\n`, at `\r`, or at `\r\n`; a last line
   * without a terminator is still returned, and the empty content has no
   * lines.
   */
  function ReadLines(s: string): seq<string>
    decreases |s|
  {
    if s == [] then []
    else
      var i := IndexOfAny(s, LineTerminators);
      if i == |s| then [s]
      else
        var next := if s[i] == '\r' && i + 1 < |s| && s[i + 1] == '\n' then i + 2 else i + 1;
        [s[..i]] + ReadLines(s[next..])
  }

  predicate NoLineBreak(s: string) { '\n' !in s && '\r' !in s }

  lemma ReadLinesOfLine(line: string, rest: string)
    requires NoLineBreak(line)
    ensures ReadLines(line + "\n" + rest) == [line] + ReadLines(rest)
  {
    var s := line + "\n" + rest;
    var i := IndexOfAny(s, LineTerminators);
    assert s[|line|] == '\n';
    assert forall j :: 0 <= j < |line| ==> s[j] == line[j];
    assert i == |line|;
    assert s[..i] == line;
    assert s[i + 1..] == rest;
  }

  /** `needle` sits in `hay` starting at position `k`. */
  predicate OccursAt(hay: string, needle: string, k: int)
  {
    0 <= k && k + |needle| <= |hay| && hay[k..k + |needle|] == needle
  }

  /** A character Java's `trim` removes: any code point up to the space. */
  predicate IsBlank(c: char) { c <= ' ' }

  predicate AllBlank(s: string) { forall i :: 0 <= i < |s| ==> IsBlank(s[i]) }

  /** Number of blanks at the start of `s`. */
  function LeadingBlanks(s: string): (i: nat)
    ensures i <= |s|
    ensures forall j :: 0 <= j < i ==> IsBlank(s[j])
    ensures i < |s| ==> !IsBlank(s[i])
  {
    if s == [] || !IsBlank(s[0]) then 0 else 1 + LeadingBlanks(s[1..])
  }

  /** Length of `s` without its trailing blanks. */
  function EndOfText(s: string): (i: nat)
    ensures i <= |s|
    ensures forall j :: i <= j < |s| ==> IsBlank(s[j])
    ensures i > 0 ==> !IsBlank(s[i - 1])
  {
    if s == [] || !IsBlank(s[|s| - 1]) then |s| else EndOfText(s[..|s| - 1])
  }

  /** `String.trim`: drops the blanks at both ends. */
  function Trim(s: string): string
  {
    var t := s[LeadingBlanks(s)..];
    t[..EndOfText(t)]
  }

  /**
   * `Trim` removes blanks from both ends only: its result is the slice of
   * `s` that starts after the leading blanks and is followed only by blanks.
   */
  lemma TrimSlice(s: string)
    ensures var r := Trim(s); var a := LeadingBlanks(s);
      OccursAt(s, r, a) && AllBlank(s[..a]) && AllBlank(s[a + |r|..])
  {
    var a := LeadingBlanks(s);
    var t := s[a..];
    var e := EndOfText(t);
    assert Trim(s) == t[..e] == s[a..a + e];
    var u := s[a + e..];
    forall j | 0 <= j < |u|
      ensures IsBlank(u[j])
    {
      assert u[j] == t[e + j];
    }
  }

  /**
   * What is left after `Trim` neither starts nor ends with a blank, and it
   * is empty exactly when `s` is all blanks.
   */
  lemma TrimSpec(s: string)
    ensures var r := Trim(s);
      (r == [] || (!IsBlank(r[0]) && !IsBlank(r[|r| - 1])))
      && (r == [] <==> AllBlank(s))
  {
    TrimSlice(s);
  }

  /** Lower case of one character; only `A`..`Z` are mapped. */
  function LowerChar(c: char): char
  {
    if 'A' <= c <= 'Z' then (c as int - 'A' as int + 'a' as int) as char else c
  }

  /** `String.toLowerCase`, restricted to ASCII letters. */
  function Lower(s: string): string
  {
    seq(|s|, i requires 0 <= i < |s| => LowerChar(s[i]))
  }

  lemma LowerIdempotent(s: string)
    ensures Lower(Lower(s)) == Lower(s)
  {
  }

  /** `hay.contains(needle)`: `needle` occurs in `hay` as a contiguous slice. */
  function Contains(hay: string, needle: string): bool
  {
    needle <= hay || (hay != [] && Contains(hay[1..], needle))
  }

  lemma {:induction false} ContainsWitness(hay: string, needle: string) returns (k: nat)
    requires Contains(hay, needle)
    ensures OccursAt(hay, needle, k)
  {
    if needle <= hay {
      k := 0;
      assert hay[..|needle|] == needle;
    } else {
      var k1 := ContainsWitness(hay[1..], needle);
      k := k1 + 1;
      assert hay[k..k + |needle|] == hay[1..][k1..k1 + |needle|];
    }
  }

  lemma {:induction false} OccursContains(hay: string, needle: string, k: nat)
    requires OccursAt(hay, needle, k)
    ensures Contains(hay, needle)
    decreases k
  {
    if k == 0 {
      assert needle <= hay;
    } else {
      assert hay[1..][k - 1..k - 1 + |needle|] == hay[k..k + |needle|];
      OccursContains(hay[1..], needle, k - 1);
    }
  }

  /** `Contains` holds exactly when `needle` sits at some position of `hay`. */
  lemma ContainsAt(hay: string, needle: string)
    ensures Contains(hay, needle) <==> exists k :: OccursAt(hay, needle, k)
  {
    if Contains(hay, needle) {
      var k := ContainsWitness(hay, needle);
    }
    forall k | OccursAt(hay, needle, k) ensures Contains(hay, needle) {
      OccursContains(hay, needle, k);
    }
  }

  /** `a.compareTo(b) <= 0`: lexicographic order, a proper prefix first. */
  predicate LexLeq(a: string, b: string)
  {
    a == [] || (b != [] && (a[0] < b[0] || (a[0] == b[0] && LexLeq(a[1..], b[1..]))))
  }

  lemma {:induction false} LexLeqTotal(a: string, b: string)
    ensures LexLeq(a, b) || LexLeq(b, a)
  {
    if a != [] && b != [] && a[0] == b[0] {
      LexLeqTotal(a[1..], b[1..]);
    }
  }

  lemma {:induction false} LexLeqAntisymmetric(a: string, b: string)
    requires LexLeq(a, b) && LexLeq(b, a)
    ensures a == b
  {
    if a != [] {
      LexLeqAntisymmetric(a[1..], b[1..]);
      assert a == [a[0]] + a[1..];
      assert b == [b[0]] + b[1..];
    }
  }

  lemma {:induction false} LexLeqTransitive(a: string, b: string, c: string)
    requires LexLeq(a, b) && LexLeq(b, c)
    ensures LexLeq(a, c)
  {
    if a != [] && a[0] == b[0] && b[0] == c[0] {
      LexLeqTransitive(a[1..], b[1..], c[1..]);
    }
  }

  /** `String.join(sep, parts)`. */
  function Join(sep: string, parts: seq<string>): string
  {
    if parts == [] then ""
    else if |parts| == 1 then parts[0]
    else parts[0] + sep + Join(sep, parts[1..])
  }

  /**
   * Cutting a join at every occurrence of its one-character separator
   * (`Pieces`, before `split` drops trailing empty strings) gives back the
   * parts, when none contains the separator.
   */
  lemma {:induction false} PiecesOfJoined(sep: char, parts: seq<string>)
    requires |parts| >= 1
    requires forall i :: 0 <= i < |parts| ==> sep !in parts[i]
    ensures Pieces(Join([sep], parts), sep) == parts
  {
    if |parts| > 1 {
      PiecesOfJoined(sep, parts[1..]);
      PiecesOfPrefix(parts[0], sep, Join([sep], parts[1..]));
    }
  }

  /**
   * `split` gives back the parts of a join when none contains the
   * separator and the last of several parts is not empty.
   */
  lemma SplitOfJoined(sep: char, parts: seq<string>)
    requires |parts| >= 1
    requires forall i :: 0 <= i < |parts| ==> sep !in parts[i]
    requires |parts| == 1 || parts[|parts| - 1] != ""
    ensures Split(Join([sep], parts), sep) == parts
  {
    PiecesOfJoined(sep, parts);
    if |parts| > 1 {
      var s := Join([sep], parts);
      assert s[|parts[0]|] == sep;
    }
  }

  /**
   * With several parts and an empty last part, `split` does not give the
   * parts back: its result is the parts without their trailing empty ones.
   */
  lemma SplitDropsEmptyLast(sep: char, parts: seq<string>)
    requires |parts| >= 2
    requires forall i :: 0 <= i < |parts| ==> sep !in parts[i]
    requires parts[|parts| - 1] == ""
    ensures Split(Join([sep], parts), sep) == DropTrailingEmpty(parts) != parts
  {
    PiecesOfJoined(sep, parts);
    var s := Join([sep], parts);
    assert s[|parts[0]|] == sep;
  }

  /**
   * With a non-empty separator the joined string is empty only for no
   * parts or a single empty part; in particular, when every part is
   * non-empty, it is empty exactly when there are no parts.
   */
  lemma JoinEmpty(sep: string, parts: seq<string>)
    requires sep != ""
    ensures Join(sep, parts) == "" <==> parts == [] || parts == [""]
    ensures (forall i :: 0 <= i < |parts| ==> parts[i] != "") ==> (Join(sep, parts) == "" <==> parts == [])
  {
  }
}
