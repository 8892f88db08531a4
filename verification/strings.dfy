/** Text helpers the comparison relies on: upper-casing of field names, joining with a
    separator, and splitting back into pieces. */
module Strings {

  /** Python's `str.upper` on one character, restricted to ASCII letters. */
  function UpperChar(c: char): char {
    if 'a' <= c <= 'z' then (c as int - 32) as char else c
  }

  /** Upper-cases every character of `s`. */
  function Upper(s: string): (r: string)
    ensures |r| == |s|
    ensures IsUpper(r)
  {
    seq(|s|, i requires 0 <= i < |s| => UpperChar(s[i]))
  }

  /** `s` contains no lower-case ASCII letter. */
  predicate IsUpper(s: string) {
    forall i :: 0 <= i < |s| ==> !('a' <= s[i] <= 'z')
  }

  /** Upper-casing a name that is already upper case leaves it unchanged; in particular
      upper-casing twice is the same as upper-casing once. */
  lemma UpperFixesUpper(s: string)
    requires IsUpper(s)
    ensures Upper(s) == s
  {
  }

  /** `sep.join(parts)`. */
  function Join(sep: string, parts: seq<string>): string
    decreases |parts|
  {
    if |parts| == 0 then ""
    else if |parts| == 1 then parts[0]
    else parts[0] + sep + Join(sep, parts[1..])
  }

  /** `s.split(sep)`: the maximal pieces of `s` between occurrences of `sep`. */
  function Split(s: string, sep: char): (r: seq<string>)
    ensures |r| > 0
    decreases |s|
  {
    if |s| == 0 then [""]
    else
      var rest := Split(s[1..], sep);
      if s[0] == sep then [""] + rest
      else [[s[0]] + rest[0]] + rest[1..]
  }

  /** Every line of `lines` followed by a newline. */
  function ConcatLines(lines: seq<string>): string
    decreases |lines|
  {
    if |lines| == 0 then "" else lines[0] + "\n" + ConcatLines(lines[1..])
  }

  /** A prefix free of the separator glues onto the first piece of what follows. */
  lemma {:induction false} SplitPrefix(a: string, b: string, sep: char)
    requires sep !in a
    ensures Split(a + b, sep) == [a + Split(b, sep)[0]] + Split(b, sep)[1..]
    decreases |a|
  {
    if |a| > 0 {
      assert (a + b)[1..] == a[1..] + b;
      assert (a + b)[0] == a[0] && a[0] != sep;
      SplitPrefix(a[1..], b, sep);
      var r := Split(b, sep);
      var rest := Split(a[1..] + b, sep);
      assert rest[0] == a[1..] + r[0] && rest[1..] == r[1..];
      assert [a[0]] + (a[1..] + r[0]) == a + r[0];
    } else {
      assert a + b == b;
      var r := Split(b, sep);
      assert a + r[0] == r[0];
      assert r == [r[0]] + r[1..];
    }
  }

  /** A piece free of the separator followed by the separator splits off as one piece. */
  lemma SplitPiece(a: string, b: string, sep: char)
    requires sep !in a
    ensures Split(a + [sep] + b, sep) == [a] + Split(b, sep)
  {
    assert a + [sep] + b == a + ([sep] + b);
    SplitPrefix(a, [sep] + b, sep);
    var b' := [sep] + b;
    assert b'[0] == sep && b'[1..] == b;
    assert Split(b', sep) == [""] + Split(b, sep);
    assert a + "" == a;
  }

  /** A string free of the separator is a single piece. */
  lemma SplitWhole(a: string, sep: char)
    requires sep !in a
    ensures Split(a, sep) == [a]
  {
    SplitPrefix(a, "", sep);
    assert a + "" == a;
  }

  /** Splitting a joined sequence gives back its parts, provided no part contains the
      separator. */
  lemma {:induction false} SplitJoin(parts: seq<string>, sep: char)
    requires |parts| > 0
    requires forall i :: 0 <= i < |parts| ==> sep !in parts[i]
    ensures Split(Join([sep], parts), sep) == parts
    decreases |parts|
  {
    if |parts| == 1 {
      SplitWhole(parts[0], sep);
    } else {
      SplitJoin(parts[1..], sep);
      SplitPiece(parts[0], Join([sep], parts[1..]), sep);
      assert parts == [parts[0]] + parts[1..];
    }
  }

  /** Lines written with a terminating newline each split back into exactly those lines,
      followed by the lines of whatever text comes after them. */
  lemma {:induction false} SplitConcatLines(lines: seq<string>, rest: string)
    requires forall i :: 0 <= i < |lines| ==> '\n' !in lines[i]
    ensures Split(ConcatLines(lines) + rest, '\n') == lines + Split(rest, '\n')
    decreases |lines|
  {
    if |lines| > 0 {
      SplitConcatLines(lines[1..], rest);
      assert ConcatLines(lines) + rest == lines[0] + "\n" + (ConcatLines(lines[1..]) + rest);
      SplitPiece(lines[0], ConcatLines(lines[1..]) + rest, '\n');
      assert lines == [lines[0]] + lines[1..];
    } else {
      assert ConcatLines(lines) + rest == rest;
    }
  }

  /** Writing two blocks of lines one after the other. */
  lemma {:induction false} ConcatLinesAppend(a: seq<string>, b: seq<string>)
    ensures ConcatLines(a + b) == ConcatLines(a) + ConcatLines(b)
    decreases |a|
  {
    if |a| > 0 {
      ConcatLinesAppend(a[1..], b);
      assert (a + b)[1..] == a[1..] + b;
    } else {
      assert a + b == b;
    }
  }

  /** Newline-joining a non-empty list and then writing one more newline terminates every
      line. */
  lemma {:induction false} JoinThenNewline(lines: seq<string>)
    requires |lines| > 0
    ensures Join("\n", lines) + "\n" == ConcatLines(lines)
    decreases |lines|
  {
    if |lines| > 1 {
      JoinThenNewline(lines[1..]);
    }
  }

  /** Newline-joining a non-empty list terminates every line but the last one. */
  lemma {:induction false} JoinLast(lines: seq<string>)
    requires |lines| > 0
    ensures Join("\n", lines) == ConcatLines(lines[..|lines| - 1]) + lines[|lines| - 1]
    decreases |lines|
  {
    if |lines| > 1 {
      JoinLast(lines[1..]);
      assert lines[1..][..|lines| - 2] == lines[1..|lines| - 1];
      assert lines[..|lines| - 1][1..] == lines[1..|lines| - 1];
    } else {
      assert ConcatLines(lines[..0]) == "";
    }
  }
}
