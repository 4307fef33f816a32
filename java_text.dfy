/**
 * The handful of `java.lang.String` operations the assembler and the loader
 * rely on, specified on `seq<char>`: `trim`, `indexOf`, `split` on one
 * literal character, `split("\\s+", 2)`, `startsWith` and an ASCII
 * `toUpperCase`.
 */
module JavaText {
  import opened Wrappers

  /** Characters that `String.trim` strips: every code point up to U+0020. */
  predicate IsTrimmed(c: char) { c <= ' ' }

  /** The characters of the regular-expression class `\s`: space, tab, newline, vertical tab, form feed, carriage return. */
  predicate IsRegexSpace(c: char) {
    c == ' ' || c == '\t' || c == '\n' || c == '\U{000B}' || c == '\U{000C}' || c == '\r'
  }

  /** Index of the first character of `s` satisfying `p`, or `|s|` when there is none. */
  function FirstIndex(s: string, p: char -> bool): (k: nat)
    ensures k <= |s|
    ensures k < |s| ==> p(s[k])
    ensures forall i :: 0 <= i < k ==> !p(s[i])
  {
    if s == [] then 0
    else if p(s[0]) then 0
    else 1 + FirstIndex(s[1..], p)
  }

  /** `s` without its longest prefix of characters satisfying `p`. */
  function DropWhile(s: string, p: char -> bool): (r: string)
    ensures |r| <= |s| && r == s[|s| - |r|..]
    ensures r == [] || !p(r[0])
    ensures forall i :: 0 <= i < |s| - |r| ==> p(s[i])
  {
    if s != [] && p(s[0]) then DropWhile(s[1..], p) else s
  }

  /** `s` without its longest suffix of characters satisfying `p`. */
  function DropWhileEnd(s: string, p: char -> bool): (r: string)
    ensures |r| <= |s| && r == s[..|r|]
    ensures r == [] || !p(r[|r| - 1])
    ensures forall i :: |r| <= i < |s| ==> p(s[i])
  {
    if s != [] && p(s[|s| - 1]) then DropWhileEnd(s[..|s| - 1], p) else s
  }

  /**
   * `String.trim`: the contiguous part of `s` left after removing every
   * leading and trailing character up to U+0020.
   */
  function Trim(s: string): (r: string)
    ensures r == [] || (!IsTrimmed(r[0]) && !IsTrimmed(r[|r| - 1]))
    ensures var a := |s| - |DropWhile(s, IsTrimmed)|;
      && a + |r| <= |s|
      && r == s[a..a + |r|]
      && (forall i :: 0 <= i < a ==> IsTrimmed(s[i]))
      && (forall i :: a + |r| <= i < |s| ==> IsTrimmed(s[i]))
  {
    DropWhileEnd(DropWhile(s, IsTrimmed), IsTrimmed)
  }

  /** `s.indexOf(c)`, except that a missing character gives `|s|` rather than -1. */
  function IndexOf(s: string, c: char): (k: nat)
    ensures k <= |s| && (k < |s| <==> c in s)
    ensures k < |s| ==> s[k] == c
    ensures forall i :: 0 <= i < k ==> s[i] != c
  {
    FirstIndex(s, x => x == c)
  }

  /** The first occurrence of `c` is where `indexOf` finds it. */
  lemma IndexOfAt(s: string, c: char, k: nat)
    requires k < |s| && s[k] == c && forall i :: 0 <= i < k ==> s[i] != c
    ensures IndexOf(s, c) == k
  {
  }

  /** A piece of a string holds only characters of the string. */
  lemma SliceExcludes(s: string, c: char, a: nat, b: nat)
    requires a <= b <= |s| && c !in s
    ensures c !in s[a..b]
  {
    forall i | 0 <= i < b - a
      ensures s[a..b][i] != c
    {
      assert s[a..b][i] == s[a + i];
    }
  }

  /** Trimming keeps only characters of the string. */
  lemma TrimExcludes(s: string, c: char)
    requires c !in s
    ensures c !in Trim(s)
  {
    var a := |s| - |DropWhile(s, IsTrimmed)|;
    SliceExcludes(s, c, a, a + |Trim(s)|);
  }

  /** Only a string of trimmed characters trims to nothing. */
  lemma TrimEmpty(s: string)
    requires s != [] && !IsTrimmed(s[|s| - 1])
    ensures Trim(s) != []
  {
  }

  /** A string that does not start with a trimmed character keeps its first character. */
  lemma TrimKeepsHead(s: string)
    requires s != [] && !IsTrimmed(s[0])
    ensures Trim(s) != [] && Trim(s)[0] == s[0]
  {
    var d := DropWhile(s, IsTrimmed);
    assert |d| == |s|;
  }

  /** A string that starts and ends with characters kept by trimming is its own trim. */
  lemma TrimOfUntrimmed(s: string)
    requires s != [] && !IsTrimmed(s[0]) && !IsTrimmed(s[|s| - 1])
    ensures Trim(s) == s
  {
    var d := DropWhile(s, IsTrimmed);
    assert |d| == |s|;
    assert d == s;
  }

  /** One trailing space is trimmed away from an untrimmed string. */
  lemma TrimTrailingSpace(s: string)
    requires s != [] && !IsTrimmed(s[0]) && !IsTrimmed(s[|s| - 1])
    ensures Trim(s + " ") == s
  {
    var t := s + " ";
    var r := Trim(t);
    assert t[0] == s[0] && t[|s| - 1] == s[|s| - 1];
    assert |DropWhile(t, IsTrimmed)| == |t|;
    assert |r| == |s|;
    assert r == t[..|s|];
  }

  /**
   * `s.length()`: the number of UTF-16 code units, one for a character of the
   * Basic Multilingual Plane and two (a surrogate pair) for any other.
   */
  function Utf16Length(s: string): (n: nat)
    ensures |s| <= n <= 2 * |s|
    ensures n == |s| <==> forall i :: 0 <= i < |s| ==> s[i] < '\U{10000}'
    decreases |s|
  {
    if s == [] then 0
    else
      assert forall i :: 0 <= i < |s| - 1 ==> s[1..][i] == s[i + 1];
      (if s[0] < '\U{10000}' then 1 else 2) + Utf16Length(s[1..])
  }

  /** `s.split(sep, 2)` for one literal character: the text before the first `sep` and the text after it, or `s` alone. */
  function SplitLimit2(s: string, sep: char): (parts: seq<string>)
    ensures sep !in s ==> parts == [s]
    ensures sep in s ==> |parts| == 2 && sep !in parts[0] && s == parts[0] + [sep] + parts[1]
  {
    if sep in s then
      var k := IndexOf(s, sep);
      assert forall i :: 0 <= i < k ==> s[..k][i] != sep;
      assert s == s[..k] + [sep] + s[k + 1..];
      [s[..k], s[k + 1..]]
    else [s]
  }

  /** `s.startsWith(prefix)`. */
  predicate StartsWith(s: string, prefix: string) {
    |prefix| <= |s| && s[..|prefix|] == prefix
  }

  /** The pieces of `s` around every occurrence of `sep`, empty pieces included. */
  function SplitOn(s: string, sep: char): (parts: seq<string>)
    ensures |parts| >= 1
    ensures forall i :: 0 <= i < |parts| ==> sep !in parts[i]
    ensures Join(parts, sep) == s
    decreases |s|
  {
    var k := IndexOf(s, sep);
    if k == |s| then [s]
    else
      var rest := SplitOn(s[k + 1..], sep);
      assert ([s[..k]] + rest)[1..] == rest;
      assert s == s[..k] + [sep] + s[k + 1..];
      [s[..k]] + rest
  }

  /** The pieces joined back together with `sep` between neighbours (the inverse of `SplitOn`). */
  function Join(parts: seq<string>, sep: char): string {
    if parts == [] then ""
    else if |parts| == 1 then parts[0]
    else parts[0] + [sep] + Join(parts[1..], sep)
  }

  /** Joining one more piece adds a separator and the piece. */
  lemma {:induction false} JoinSnoc(parts: seq<string>, x: string, sep: char)
    requires |parts| >= 1
    ensures Join(parts + [x], sep) == Join(parts, sep) + [sep] + x
    decreases |parts|
  {
    if |parts| > 1 {
      assert (parts + [x])[1..] == parts[1..] + [x];
      JoinSnoc(parts[1..], x, sep);
    }
  }

  /** Splitting a joined text gives the pieces back, when no piece contains the separator. */
  lemma {:induction false} SplitJoin(parts: seq<string>, sep: char)
    requires |parts| >= 1
    requires forall i :: 0 <= i < |parts| ==> sep !in parts[i]
    ensures SplitOn(Join(parts, sep), sep) == parts
  {
    if |parts| > 1 {
      SplitHead(parts[0], Join(parts[1..], sep), sep);
      SplitJoin(parts[1..], sep);
      assert parts == [parts[0]] + parts[1..];
    } else {
      assert sep !in parts[0];
    }
  }

  /** Splitting a piece without the separator, the separator and a tail gives the piece, then the tail's pieces. */
  lemma SplitHead(p: string, tail: string, sep: char)
    requires sep !in p
    ensures SplitOn(p + [sep] + tail, sep) == [p] + SplitOn(tail, sep)
  {
    var s := p + [sep] + tail;
    var k := IndexOf(s, sep);
    assert s[|p|] == sep;
    assert k == |p|;
    assert s[..k] == p;
    assert s[k + 1..] == tail;
  }

  /** Joining two runs of pieces puts one separator between their joins. */
  lemma {:induction false} JoinConcat(p: seq<string>, q: seq<string>, sep: char)
    requires |p| >= 1 && |q| >= 1
    ensures Join(p + q, sep) == Join(p, sep) + [sep] + Join(q, sep)
    decreases |p|
  {
    if |p| == 1 {
      assert (p + q)[0] == p[0] && (p + q)[1..] == q;
    } else {
      assert (p + q)[0] == p[0] && (p + q)[1..] == p[1..] + q;
      JoinConcat(p[1..], q, sep);
    }
  }

  /** Splitting two texts joined by the separator gives the pieces of both. */
  lemma SplitOnConcat(a: string, b: string, sep: char)
    ensures SplitOn(a + [sep] + b, sep) == SplitOn(a, sep) + SplitOn(b, sep)
  {
    var pa, pb := SplitOn(a, sep), SplitOn(b, sep);
    JoinConcat(pa, pb, sep);
    assert forall i :: 0 <= i < |pa + pb| ==> sep !in (pa + pb)[i] by {
      forall i | 0 <= i < |pa + pb|
        ensures sep !in (pa + pb)[i]
      {
        if i >= |pa| {
          assert (pa + pb)[i] == pb[i - |pa|];
        }
      }
    }
    SplitJoin(pa + pb, sep);
  }

  /** The first word of a trimmed line and what follows the white space after it: `line.split("\\s+", 2)`. */
  function SplitFirstWord(line: string): (r: (string, Option<string>))
    ensures forall i :: 0 <= i < |r.0| ==> !IsRegexSpace(r.0[i])
    ensures r.1 == None <==> (forall i :: 0 <= i < |line| ==> !IsRegexSpace(line[i]))
    ensures r.1 == None ==> r.0 == line
    ensures r.1 != None ==> |r.0| < |line| && line[..|r.0|] == r.0 && IsRegexSpace(line[|r.0|])
    ensures r.1 != None ==> r.1.value == DropWhile(line[|r.0|..], IsRegexSpace)
  {
    var k := FirstIndex(line, IsRegexSpace);
    if k == |line| then (line, None)
    else (line[..k], Some(DropWhile(line[k..], IsRegexSpace)))
  }

  /** ASCII upper case of one character; every other character is kept. */
  function UpperChar(c: char): char {
    if 'a' <= c <= 'z' then (c as int - 32) as char else c
  }

  /** `s.toUpperCase()` for the ASCII letters. */
  function ToUpper(s: string): (r: string)
    ensures |r| == |s| && forall i :: 0 <= i < |s| ==> r[i] == UpperChar(s[i])
  {
    seq(|s|, i requires 0 <= i < |s| => UpperChar(s[i]))
  }
}
