/** Decimal digits and digit grouping, the number-rendering part of Python's
    format mini-language that `{:,.2f}` relies on. */
module Decimal {
  import opened Strings

  function DigitChar(d: int): (c: char)
    requires 0 <= d < 10
    ensures IsDigit(c)
  {
    (48 + d) as char
  }

  function DigitValue(c: char): (d: int)
    requires IsDigit(c)
    ensures 0 <= d < 10
  {
    c as int - 48
  }

  /** Decimal digits of `n` without leading zeros, as Python's `str(n)`. */
  function Digits(n: nat): (s: string)
    ensures |s| >= 1 && AllDigits(s)
    ensures |s| > 1 ==> s[0] != '0'
    decreases n
  {
    if n < 10 then [DigitChar(n)] else Digits(n / 10) + [DigitChar(n % 10)]
  }

  /** The number a string of decimal digits denotes. */
  function Value(s: string): nat
    requires AllDigits(s)
    decreases |s|
  {
    if s == [] then 0 else 10 * Value(s[..|s| - 1]) + DigitValue(s[|s| - 1])
  }

  /** Reading back the digits of a number gives the number. */
  lemma {:induction false} ValueDigits(n: nat)
    ensures Value(Digits(n)) == n
    decreases n
  {
    var s := Digits(n);
    if n >= 10 {
      ValueDigits(n / 10);
      assert s[..|s| - 1] == Digits(n / 10);
    }
  }

  /** The two decimal places of an amount. */
  function TwoDigits(m: nat): (s: string)
    requires m < 100
    ensures |s| == 2 && AllDigits(s)
    ensures Value(s) == m
  {
    var s := [DigitChar(m / 10), DigitChar(m % 10)];
    assert s[..1] == [DigitChar(m / 10)];
    assert DigitValue(s[0]) == m / 10 && DigitValue(s[1]) == m % 10;
    assert Value(s[..1]) == m / 10 by {
      assert s[..1][..0] == [];
    }
    s
  }

  /** The thousands-separator option of Python's format mini-language: `sep`
      goes between groups of three digits counted from the right. */
  function Group(ds: string, sep: char): string
    decreases |ds|
  {
    if |ds| <= 3 then ds else Group(ds[..|ds| - 3], sep) + [sep] + ds[|ds| - 3..]
  }

  /** Grouping `n >= 1` digits adds one separator per full group of three
      after the leading group: `(n - 1) / 3` characters in all. */
  lemma {:induction false} GroupLength(ds: string, sep: char)
    requires |ds| >= 1
    ensures |Group(ds, sep)| == |ds| + (|ds| - 1) / 3
    decreases |ds|
  {
    if |ds| > 3 {
      GroupLength(ds[..|ds| - 3], sep);
    }
  }

  /** A grouped integer part: a leading group of one to three digits, then
      any number of `sep` followed by exactly three digits. */
  predicate Grouped(s: string, sep: char)
    decreases |s|
  {
    if |s| <= 3 then 1 <= |s| && AllDigits(s)
    else |s| >= 5 && s[|s| - 4] == sep && AllDigits(s[|s| - 3..]) && Grouped(s[..|s| - 4], sep)
  }

  /** `s` with every `sep` removed. */
  function Ungroup(s: string, sep: char): (r: string)
    ensures sep !in r
    decreases |s|
  {
    if s == [] then []
    else Ungroup(s[..|s| - 1], sep) + (if s[|s| - 1] == sep then [] else [s[|s| - 1]])
  }

  lemma {:induction false} UngroupConcat(a: string, b: string, sep: char)
    ensures Ungroup(a + b, sep) == Ungroup(a, sep) + Ungroup(b, sep)
    decreases |b|
  {
    if b == [] {
      assert a + b == a;
    } else {
      var b' := b[..|b| - 1];
      assert (a + b)[..|a + b| - 1] == a + b';
      UngroupConcat(a, b', sep);
    }
  }

  /** A string without `sep` is left as it is. */
  lemma {:induction false} UngroupFree(s: string, sep: char)
    requires sep !in s
    ensures Ungroup(s, sep) == s
    decreases |s|
  {
    if s != [] {
      UngroupFree(s[..|s| - 1], sep);
      assert s[..|s| - 1] + [s[|s| - 1]] == s;
    }
  }

  /** A grouped integer part starts with a digit and holds at least one digit
      once the separators are removed, and nothing but digits. */
  lemma {:induction false} GroupedDigits(s: string, sep: char)
    requires Grouped(s, sep) && !IsDigit(sep)
    ensures IsDigit(s[0])
    ensures |Ungroup(s, sep)| >= 1 && AllDigits(Ungroup(s, sep))
    decreases |s|
  {
    if |s| <= 3 {
      assert sep !in s;
      UngroupFree(s, sep);
    } else {
      var h, t := s[..|s| - 4], s[|s| - 3..];
      GroupedDigits(h, sep);
      assert sep !in t;
      assert s == h + [sep] + t;
      UngroupStep(h, sep, t);
      assert s[0] == h[0];
    }
  }

  /** Removing separators from digits keeps only digits. */
  lemma {:induction false} UngroupDigits(s: string, sep: char)
    requires AllDigits(s)
    ensures AllDigits(Ungroup(s, sep))
    decreases |s|
  {
    if s != [] {
      UngroupDigits(s[..|s| - 1], sep);
    }
  }

  /** Removing separators from one more group. */
  lemma UngroupStep(g: string, sep: char, t: string)
    requires sep !in t
    ensures Ungroup(g + [sep] + t, sep) == Ungroup(g, sep) + t
  {
    var gs := g + [sep];
    UngroupConcat(gs, t, sep);
    UngroupFree(t, sep);
    assert Ungroup(gs, sep) == Ungroup(g, sep) by {
      assert gs[..|gs| - 1] == g;
    }
  }

  /** Appending a separator and a full group keeps a string well grouped. */
  lemma GroupedStep(g: string, sep: char, t: string)
    requires Grouped(g, sep) && |t| == 3 && AllDigits(t)
    ensures Grouped(g + [sep] + t, sep)
  {
    var s := g + [sep] + t;
    assert s[..|s| - 4] == g;
    assert s[|s| - 3..] == t;
  }

  /** Removing the separators from grouped digits gives the digits back. */
  lemma {:induction false} UngroupGroup(ds: string, sep: char)
    requires sep !in ds
    ensures Ungroup(Group(ds, sep), sep) == ds
    decreases |ds|
  {
    if |ds| <= 3 {
      UngroupFree(ds, sep);
    } else {
      var h, t := ds[..|ds| - 3], ds[|ds| - 3..];
      assert sep !in h && sep !in t by {
        assert forall c :: c in h || c in t ==> c in ds;
      }
      assert Ungroup(Group(h, sep), sep) == h by { UngroupGroup(h, sep); }
      assert Ungroup(Group(h, sep) + [sep] + t, sep) == Ungroup(Group(h, sep), sep) + t by {
        UngroupStep(Group(h, sep), sep, t);
      }
      assert h + t == ds;
    }
  }

  /** Grouping a non-empty string of digits gives a well-grouped string. */
  lemma {:induction false} GroupIsGrouped(ds: string, sep: char)
    requires |ds| >= 1 && AllDigits(ds)
    ensures Grouped(Group(ds, sep), sep)
    decreases |ds|
  {
    if |ds| > 3 {
      var h, t := ds[..|ds| - 3], ds[|ds| - 3..];
      assert AllDigits(h) && AllDigits(t);
      GroupIsGrouped(h, sep);
      GroupedStep(Group(h, sep), sep, t);
    }
  }

  /** Grouping digits gives a well-grouped string, and removing the separators
      gives the digits back. */
  lemma GroupRoundTrip(ds: string, sep: char)
    requires AllDigits(ds) && !IsDigit(sep)
    ensures Ungroup(Group(ds, sep), sep) == ds
    ensures |ds| >= 1 ==> Grouped(Group(ds, sep), sep)
  {
    assert sep !in ds;
    UngroupGroup(ds, sep);
    if |ds| >= 1 {
      GroupIsGrouped(ds, sep);
    }
  }

  /** Grouping a string of more than three characters splits off its last three. */
  lemma GroupSplit(u: string, t: string, sep: char)
    requires |u| >= 1 && |t| == 3
    ensures Group(u + t, sep) == Group(u, sep) + [sep] + t
  {
    var ds := u + t;
    assert ds[..|ds| - 3] == u;
    assert ds[|ds| - 3..] == t;
  }

  /** Conversely, a well-grouped string is the grouping of its digits. */
  lemma {:induction false} UngroupRoundTrip(s: string, sep: char)
    requires Grouped(s, sep) && !IsDigit(sep)
    ensures Group(Ungroup(s, sep), sep) == s
    decreases |s|
  {
    if |s| <= 3 {
      assert sep !in s;
      UngroupFree(s, sep);
    } else {
      var h, t := s[..|s| - 4], s[|s| - 3..];
      assert s == h + [sep] + t;
      assert Grouped(h, sep) && sep !in t;
      var u := Ungroup(h, sep);
      assert Group(u, sep) == h by { UngroupRoundTrip(h, sep); }
      assert |u| >= 1 by { GroupedDigits(h, sep); }
      assert Ungroup(s, sep) == u + t by { UngroupStep(h, sep, t); }
      GroupSplit(u, t, sep);
    }
  }

  /** A grouped integer part holds no character other than digits and `sep`. */
  lemma {:induction false} GroupedOnly(s: string, sep: char, c: char)
    requires Grouped(s, sep) && c != sep && !IsDigit(c)
    ensures c !in s
    decreases |s|
  {
    if |s| > 3 {
      GroupedOnly(s[..|s| - 4], sep, c);
      assert s == s[..|s| - 4] + [sep] + s[|s| - 3..];
    }
  }
}
