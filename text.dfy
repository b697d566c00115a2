/**
  The three string operations of Python's `str` type that the script relies on:
  `strip()` with no argument, `split(sep)` on a one-character separator and
  `sep.join(parts)`. Strings are sequences of code points.
*/
module Text {

  /** Python's `str.isspace()` on one code point: the characters `str.strip()` removes. */
  predicate IsSpace(c: char) {
    || c == ' ' || c == '\t' || c == '\n' || c == '\r'
    || c == '\U{0B}' || c == '\U{0C}'
    || ('\U{1C}' <= c <= '\U{1F}')
    || c == '\U{85}' || c == '\U{A0}' || c == '\U{1680}'
    || ('\U{2000}' <= c <= '\U{200A}')
    || c == '\U{2028}' || c == '\U{2029}' || c == '\U{202F}' || c == '\U{205F}' || c == '\U{3000}'
  }

  /** True when `s` has no whitespace at either end, so `strip()` leaves it unchanged. */
  predicate Trimmed(s: string) {
    s == [] || (!IsSpace(s[0]) && !IsSpace(s[|s| - 1]))
  }

  /** `s.lstrip()`: what is left of `s` after its leading whitespace (`StripLeftIsSuffix`). */
  function StripLeft(s: string): (r: string)
    ensures |r| <= |s|
    ensures forall i :: 0 <= i < |s| - |r| ==> IsSpace(s[i])
    ensures r == [] || !IsSpace(r[0])
  {
    if |s| > 0 && IsSpace(s[0]) then StripLeft(s[1..]) else s
  }

  /** `s.rstrip()`: what is left of `s` before its trailing whitespace (`StripRightIsPrefix`). */
  function StripRight(s: string): (r: string)
    ensures |r| <= |s|
    ensures forall i :: |r| <= i < |s| ==> IsSpace(s[i])
    ensures r == [] || !IsSpace(r[|r| - 1])
  {
    if |s| > 0 && IsSpace(s[|s| - 1]) then StripRight(s[..|s| - 1]) else s
  }

  /** `s.lstrip()` leaves a suffix of `s`. */
  lemma {:induction false} StripLeftIsSuffix(s: string)
    ensures StripLeft(s) == s[|s| - |StripLeft(s)|..]
  {
    if |s| > 0 && IsSpace(s[0]) {
      StripLeftIsSuffix(s[1..]);
    }
  }

  /** `s.rstrip()` leaves a prefix of `s`. */
  lemma {:induction false} StripRightIsPrefix(s: string)
    ensures StripRight(s) == s[..|StripRight(s)|]
  {
    if |s| > 0 && IsSpace(s[|s| - 1]) {
      StripRightIsPrefix(s[..|s| - 1]);
    }
  }

  /** `s.strip()`: `s` without its leading and trailing whitespace. */
  function Strip(s: string): (r: string)
    ensures Trimmed(r)
  {
    var l := StripLeft(s);
    var r := StripRight(l);
    StripRightIsPrefix(l);
    assert r != [] ==> r[0] == l[0];
    r
  }

  /** Stripping only removes whitespace: every other character survives it. */
  lemma StripKeeps(s: string, c: char)
    requires !IsSpace(c)
    ensures c in Strip(s) <==> c in s
  {
    var l := StripLeft(s);
    var r := StripRight(l);
    StripLeftIsSuffix(s);
    StripRightIsPrefix(l);
    assert Strip(s) == r;
    if c in r {
      InPrefix(l, r, c);
      InSuffix(s, l, c);
    }
    if c in s {
      KeptBySuffix(s, l, c);
      KeptByPrefix(l, r, c);
    }
  }

  lemma InPrefix(l: string, r: string, c: char)
    requires |r| <= |l| && r == l[..|r|] && c in r
    ensures c in l
  {
    var j :| 0 <= j < |r| && r[j] == c;
    assert l[j] == c;
  }

  lemma InSuffix(s: string, l: string, c: char)
    requires |l| <= |s| && l == s[|s| - |l|..] && c in l
    ensures c in s
  {
    var j :| 0 <= j < |l| && l[j] == c;
    assert s[|s| - |l| + j] == c;
  }

  /** A character that is not whitespace is not among the leading whitespace `lstrip` drops. */
  lemma KeptBySuffix(s: string, l: string, c: char)
    requires |l| <= |s| && l == s[|s| - |l|..]
    requires forall i :: 0 <= i < |s| - |l| ==> IsSpace(s[i])
    requires !IsSpace(c) && c in s
    ensures c in l
  {
    var i :| 0 <= i < |s| && s[i] == c;
    var k := |s| - |l|;
    assert i >= k;
    assert l[i - k] == c;
  }

  /** A character that is not whitespace is not among the trailing whitespace `rstrip` drops. */
  lemma KeptByPrefix(l: string, r: string, c: char)
    requires |r| <= |l| && r == l[..|r|]
    requires forall i :: |r| <= i < |l| ==> IsSpace(l[i])
    requires !IsSpace(c) && c in l
    ensures c in r
  {
    var i :| 0 <= i < |l| && l[i] == c;
    assert i < |r|;
    assert r[i] == c;
  }

  /** A string without surrounding whitespace is its own strip. */
  lemma StripTrimmed(s: string)
    requires Trimmed(s)
    ensures Strip(s) == s
  {
    StripLeftIsSuffix(s);
    assert StripLeft(s) == s;
    assert StripRight(s) == s;
  }

  /** Whitespace around a trimmed text is exactly what stripping removes. */
  lemma StripSurrounded(lead: string, body: string, trail: string)
    requires Trimmed(body) && body != []
    requires forall i :: 0 <= i < |lead| ==> IsSpace(lead[i])
    requires forall i :: 0 <= i < |trail| ==> IsSpace(trail[i])
    ensures Strip(lead + body + trail) == body
  {
    var s := lead + body + trail;
    var l := StripLeft(s);
    StripLeftIsSuffix(s);
    assert !IsSpace(s[|lead|]) by { assert s[|lead|] == body[0]; }
    assert forall i :: 0 <= i < |lead| ==> s[i] == lead[i];
    assert |s| - |l| == |lead|;
    assert l == body + trail;
    var r := StripRight(l);
    StripRightIsPrefix(l);
    assert !IsSpace(l[|body| - 1]) by { assert l[|body| - 1] == body[|body| - 1]; }
    assert forall i :: |body| <= i < |l| ==> l[i] == trail[i - |body|];
    assert |r| == |body|;
    assert r == l[..|body|] == body;
  }

  /** `sep.join(parts)`; joining no parts gives the empty string. */
  function Join(parts: seq<string>, sep: char): string
  {
    if parts == [] then ""
    else if |parts| == 1 then parts[0]
    else parts[0] + [sep] + Join(parts[1..], sep)
  }

  /**
    `s.split(sep)`: the pieces of `s` between occurrences of `sep`. There is always at
    least one piece, there is more than one exactly when `sep` occurs in `s`, and no piece
    contains `sep`; `JoinSplit` shows that joining the pieces with `sep` gives `s` back.
  */
  function Split(s: string, sep: char): (parts: seq<string>)
    ensures |parts| >= 1
    ensures |parts| == 1 <==> sep !in s
    ensures forall p :: p in parts ==> sep !in p
  {
    if |s| == 0 then [""]
    else
      var rest := Split(s[1..], sep);
      assert s == [s[0]] + s[1..];
      if s[0] == sep then [""] + rest
      else
        assert rest[0] in rest;
        [[s[0]] + rest[0]] + rest[1..]
  }

  /** Joining the pieces of a split with the separator gives the text back. */
  lemma {:induction false} JoinSplit(s: string, sep: char)
    ensures Join(Split(s, sep), sep) == s
  {
    if |s| > 0 {
      JoinSplit(s[1..], sep);
      var rest := Split(s[1..], sep);
      assert s == [s[0]] + s[1..];
    }
  }

  /** Splitting after a separator-free first field yields that field, then the split of the rest. */
  lemma {:induction false} SplitAfterField(a: string, b: string, sep: char)
    requires sep !in a
    ensures Split(a + [sep] + b, sep) == [a] + Split(b, sep)
  {
    var s := a + [sep] + b;
    if a == [] {
      assert s[1..] == b;
    } else {
      assert s[1..] == a[1..] + [sep] + b;
      SplitAfterField(a[1..], b, sep);
      assert [a[0]] + a[1..] == a;
    }
  }

  /** `split` undoes `join` when no part contains the separator and there is at least one part. */
  lemma {:induction false} SplitJoin(parts: seq<string>, sep: char)
    requires |parts| >= 1
    requires forall p :: p in parts ==> sep !in p
    ensures Split(Join(parts, sep), sep) == parts
  {
    if |parts| == 1 {
      assert parts[0] in parts;
      var r := Split(parts[0], sep);
      JoinSplit(parts[0], sep);
      assert r == [Join(r, sep)];
    } else {
      assert parts[0] in parts;
      SplitJoin(parts[1..], sep);
      SplitAfterField(parts[0], Join(parts[1..], sep), sep);
      assert parts == [parts[0]] + parts[1..];
    }
  }

  /** A character other than the separator is in a join only if it is in one of the parts. */
  lemma {:induction false} JoinAvoids(parts: seq<string>, sep: char, c: char)
    requires c != sep
    requires forall p :: p in parts ==> c !in p
    ensures c !in Join(parts, sep)
  {
    if |parts| > 1 {
      assert parts[0] in parts;
      JoinAvoids(parts[1..], sep, c);
    } else if |parts| == 1 {
      assert parts[0] in parts;
    }
  }

  /** Joining two non-empty runs of parts puts one separator between their joins. */
  lemma {:induction false} JoinAppend(a: seq<string>, b: seq<string>, sep: char)
    requires a != [] && b != []
    ensures Join(a + b, sep) == Join(a, sep) + [sep] + Join(b, sep)
  {
    if |a| == 1 {
      assert (a + b)[1..] == b;
    } else {
      assert (a + b)[1..] == a[1..] + b;
      JoinAppend(a[1..], b, sep);
    }
  }

  /** Lines each followed by a newline, as a triple-quoted template lays them out. */
  function Terminated(lines: seq<string>): string
  {
    if lines == [] then "" else lines[0] + "\n" + Terminated(lines[1..])
  }

  /** Newline-terminated lines are the newline-join of the lines and one empty last part. */
  lemma {:induction false} TerminatedIsJoin(lines: seq<string>)
    ensures Terminated(lines) == Join(lines + [""], '\n')
  {
    if lines != [] {
      TerminatedIsJoin(lines[1..]);
      assert (lines + [""])[1..] == lines[1..] + [""];
    }
  }

  /** Splitting newline-terminated lines on newlines gives the lines back, and an empty tail. */
  lemma TerminatedLines(lines: seq<string>)
    requires forall l :: l in lines ==> '\n' !in l
    ensures Split(Terminated(lines), '\n') == lines + [""]
  {
    TerminatedIsJoin(lines);
    SplitJoin(lines + [""], '\n');
  }
}
