/** The few Python `str` operations the model needs, on `seq<char>`. */
module Strings {

  predicate StartsWith(s: string, prefix: string) {
    |prefix| <= |s| && s[..|prefix|] == prefix
  }

  /** Python's `s.endswith(suffix)`. */
  predicate EndsWith(s: string, suffix: string) {
    |suffix| <= |s| && s[|s| - |suffix|..] == suffix
  }

  predicate IsDigit(c: char) {
    '0' <= c <= '9'
  }

  predicate AllDigits(s: string) {
    forall i :: 0 <= i < |s| ==> IsDigit(s[i])
  }

  /** Python's `s.replace(a, b)` where `a` and `b` are one character each:
      every occurrence of `a` becomes `b`, everything else stays in place. */
  function ReplaceChar(s: string, a: char, b: char): (r: string)
    ensures |r| == |s|
    ensures forall i :: 0 <= i < |s| ==> r[i] == if s[i] == a then b else s[i]
  {
    if s == [] then [] else [if s[0] == a then b else s[0]] + ReplaceChar(s[1..], a, b)
  }

  /** Replacing in a concatenation replaces in each part. */
  lemma {:induction false} ReplaceCharConcat(s: string, t: string, a: char, b: char)
    ensures ReplaceChar(s + t, a, b) == ReplaceChar(s, a, b) + ReplaceChar(t, a, b)
    decreases |s|
  {
    if s == [] {
      assert s + t == t;
    } else {
      assert (s + t)[0] == s[0];
      assert (s + t)[1..] == s[1..] + t;
      ReplaceCharConcat(s[1..], t, a, b);
    }
  }

  lemma ConcatAssoc(a: string, b: string, c: string, d: string)
    ensures a + b + c + d == a + (b + c + d)
  {
  }

  /** Python's `s.split(sep)` for a one-character separator: the pieces between
      separators, always at least one (`"".split("/") == [""]`). */
  function Split(s: string, sep: char): (parts: seq<string>)
    ensures |parts| >= 1
    ensures forall i :: 0 <= i < |parts| ==> sep !in parts[i]
  {
    if s == [] then [""]
    else
      var tail := Split(s[1..], sep);
      if s[0] == sep then [""] + tail
      else [[s[0]] + tail[0]] + tail[1..]
  }

  /** Python's `sep.join(parts)`. */
  function Join(parts: seq<string>, sep: char): string
    requires |parts| >= 1
  {
    if |parts| == 1 then parts[0] else parts[0] + [sep] + Join(parts[1..], sep)
  }

  /** Joining the pieces of a split gives back the original string. */
  lemma {:induction false} JoinSplit(s: string, sep: char)
    ensures Join(Split(s, sep), sep) == s
  {
    if s != [] {
      var tail := Split(s[1..], sep);
      JoinSplit(s[1..], sep);
      if s[0] == sep {
        assert Split(s, sep)[1..] == tail;
      } else if |tail| > 1 {
        var parts := Split(s, sep);
        assert parts[1..] == tail[1..];
        assert Join(parts, sep) == [s[0]] + (tail[0] + [sep] + Join(tail[1..], sep));
      }
    }
  }

  /** A separator-free piece followed by the separator splits off as one piece. */
  lemma {:induction false} SplitPiece(p: string, sep: char, u: string)
    requires sep !in p
    ensures Split(p + [sep] + u, sep) == [p] + Split(u, sep)
  {
    if p != [] {
      assert (p + [sep] + u)[1..] == p[1..] + [sep] + u;
      SplitPiece(p[1..], sep, u);
      var tail := Split(p[1..] + [sep] + u, sep);
      assert tail[1..] == Split(u, sep);
      assert [p[0]] + p[1..] == p;
    } else {
      assert (p + [sep] + u)[1..] == u;
    }
  }

  /** A separator-free string is a single piece. */
  lemma {:induction false} SplitWhole(p: string, sep: char)
    requires sep !in p
    ensures Split(p, sep) == [p]
  {
    if p != [] {
      SplitWhole(p[1..], sep);
      assert [p[0]] + p[1..] == p;
    }
  }

  /** Splitting a join of separator-free pieces gives back the pieces. */
  lemma {:induction false} SplitJoin(parts: seq<string>, sep: char)
    requires |parts| >= 1
    requires forall i :: 0 <= i < |parts| ==> sep !in parts[i]
    ensures Split(Join(parts, sep), sep) == parts
  {
    if |parts| == 1 {
      SplitWhole(parts[0], sep);
    } else {
      SplitJoin(parts[1..], sep);
      SplitPiece(parts[0], sep, Join(parts[1..], sep));
      assert [parts[0]] + parts[1..] == parts;
    }
  }
}
