/** The per-row reformatting of the `valor` column in `transformar`
    (IaC/puc_app/flow.py): Python renders the amount with `{:,.2f}` (comma
    thousands separator, dot decimal point, two decimals), prefixes `R$ `,
    and three chained `replace` calls swap the two separators into the
    Brazilian convention.  Amounts are integer cents here, so no binary
    floating-point rounding arises. */
module Currency {
  import opened Strings
  import opened Results
  import opened Decimal

  function Abs(x: int): nat {
    if x < 0 then -x else x
  }

  /** The minus sign Python writes before a negative amount. */
  function Sign(cents: int): string {
    if cents < 0 then "-" else ""
  }

  /** The whole units of an amount, their digits grouped by `sep`. */
  function WholePart(cents: int, sep: char): string {
    Group(Digits(Abs(cents) / 100), sep)
  }

  /** The two decimal places of an amount. */
  function Decimals(cents: int): (s: string)
    ensures |s| == 2 && AllDigits(s)
  {
    TwoDigits(Abs(cents) % 100)
  }

  /** Python's `f"{x:,.2f}"` for `x == cents / 100`: a minus sign exactly for
      a negative amount, the digits of the whole units grouped by commas, a
      dot, and the remaining cents as two digits. */
  function Render(cents: int): (r: string)
    ensures |r| >= 4 && r[|r| - 3] == '.'
    ensures r[0] == '-' <==> cents < 0
    ensures r[|Sign(cents)|..|r| - 3] == Group(Digits(Abs(cents) / 100), ',')
    ensures r[|r| - 2..] == TwoDigits(Abs(cents) % 100)
  {
    var x, g, t := Sign(cents), WholePart(cents, ','), Decimals(cents);
    var r := x + g + "." + t;
    assert r[|x|..|r| - 3] == g;
    assert r[|r| - 2..] == t;
    assert r[0] == '-' <==> cents < 0 by {
      if cents >= 0 {
        GroupRoundTrip(Digits(Abs(cents) / 100), ',');
        GroupedDigits(g, ',');
        assert r[0] == g[0];
      }
    }
    r
  }

  /** The separator exchange the three `replace` calls intend. */
  function SwapChar(c: char): char {
    if c == ',' then '.' else if c == '.' then ',' else c
  }

  /** `.replace(",", "X").replace(".", ",").replace("X", ".")`: length is kept,
      every `,` becomes `.` and every `.` becomes `,`, nothing else changes,
      except that an `X` already in the input also becomes `.`. */
  function SwapSeparators(s: string): (r: string)
    ensures |r| == |s|
    ensures forall i :: 0 <= i < |s| ==> r[i] == if s[i] == 'X' then '.' else SwapChar(s[i])
  {
    ReplaceChar(ReplaceChar(ReplaceChar(s, ',', 'X'), '.', ','), 'X', '.')
  }

  /** On strings without `X` the swap undoes itself; an `X` anywhere breaks that. */
  lemma SwapInvolution(s: string)
    ensures SwapSeparators(SwapSeparators(s)) == s <==> 'X' !in s
  {
    var r := SwapSeparators(SwapSeparators(s));
    if 'X' in s {
      var i :| 0 <= i < |s| && s[i] == 'X';
      assert r[i] == ',';
    } else {
      assert forall i :: 0 <= i < |s| ==> r[i] == s[i];
    }
  }

  lemma SwapConcat(a: string, b: string)
    ensures SwapSeparators(a + b) == SwapSeparators(a) + SwapSeparators(b)
  {
    ReplaceCharConcat(a, b, ',', 'X');
    var a1, b1 := ReplaceChar(a, ',', 'X'), ReplaceChar(b, ',', 'X');
    ReplaceCharConcat(a1, b1, '.', ',');
    var a2, b2 := ReplaceChar(a1, '.', ','), ReplaceChar(b1, '.', ',');
    ReplaceCharConcat(a2, b2, 'X', '.');
  }

  /** Text without separators (or `X`) is left as it is. */
  lemma SwapPlain(s: string)
    requires ',' !in s && '.' !in s && 'X' !in s
    ensures SwapSeparators(s) == s
  {
    var r := SwapSeparators(s);
    assert forall i :: 0 <= i < |s| ==> r[i] == s[i];
  }

  /** Swapping a comma-grouped integer part gives the dot-grouped one. */
  lemma {:induction false} SwapGroup(ds: string)
    requires AllDigits(ds)
    ensures SwapSeparators(Group(ds, ',')) == Group(ds, '.')
    decreases |ds|
  {
    if |ds| <= 3 {
      SwapPlain(ds);
    } else {
      var h, t := ds[..|ds| - 3], ds[|ds| - 3..];
      assert AllDigits(h) && AllDigits(t);
      SwapGroup(h);
      SwapConcat(Group(h, ',') + [','], t);
      SwapConcat(Group(h, ','), [',']);
      SwapPlain(t);
    }
  }

  /** Brazilian-locale currency text for an amount of `cents`: `R$ `, the sign,
      the integer part grouped by dots, a decimal comma, two decimals. */
  function Brazilian(cents: int): string {
    "R$ " + Sign(cents) + WholePart(cents, '.') + "," + Decimals(cents)
  }

  /** Around a middle part, separator-free text is kept and the decimal point
      becomes a comma. */
  lemma SwapAround(x: string, g: string, t: string)
    requires ',' !in x && '.' !in x && 'X' !in x
    requires ',' !in t && '.' !in t && 'X' !in t
    ensures SwapSeparators(x + g + "." + t) == x + SwapSeparators(g) + "," + t
  {
    SwapConcat(x + g + ".", t);
    SwapConcat(x + g, ".");
    SwapConcat(x, g);
    SwapPlain(x);
    SwapPlain(t);
  }

  /** The swap applied to the pieces of `"R$ "` and Python's rendering. */
  lemma SwapPieces(cents: int)
    ensures SwapSeparators("R$ " + Sign(cents) + WholePart(cents, ',') + "." + Decimals(cents)) == Brazilian(cents)
  {
    var ds := Digits(Abs(cents) / 100);
    SwapAround("R$ " + Sign(cents), Group(ds, ','), Decimals(cents));
    SwapGroup(ds);
  }

  /** The swap turns `"R$ "` and Python's rendering into the Brazilian text. */
  lemma SwapRender(cents: int)
    ensures SwapSeparators("R$ " + Render(cents)) == Brazilian(cents)
  {
    var x, g, t := Sign(cents), WholePart(cents, ','), Decimals(cents);
    assert Render(cents) == x + g + "." + t;
    ConcatAssoc("R$ ", x, g + ".", t);
    assert "R$ " + Render(cents) == "R$ " + x + g + "." + t;
    SwapPieces(cents);
  }

  /** The text `transformar` puts in the `valor` column for an amount of
      `cents`: the separators of `"R$ " + f"{x:,.2f}"` swapped, which is
      exactly the Brazilian-locale text. */
  function FormatValor(cents: int): (r: string)
    ensures r == Brazilian(cents)
  {
    SwapRender(cents);
    SwapSeparators("R$ " + Render(cents))
  }

  /** The integer part of the formatted amount is grouped by dots (a leading
      group of one to three digits, then groups of exactly three) and holds
      the digits of the whole units. */
  lemma WholePartGrouped(cents: int)
    ensures Grouped(WholePart(cents, '.'), '.')
    ensures Ungroup(WholePart(cents, '.'), '.') == Digits(Abs(cents) / 100)
  {
    GroupRoundTrip(Digits(Abs(cents) / 100), '.');
  }

  /** Reads the digits of a Brazilian-formatted magnitude back into cents:
      a dot-grouped integer part, `,` and two decimals. */
  function ParseMagnitude(mag: string): Option<nat> {
    if |mag| < 4 || mag[|mag| - 3] != ',' || !AllDigits(mag[|mag| - 2..]) || !Grouped(mag[..|mag| - 3], '.') then None
    else
      GroupedDigits(mag[..|mag| - 3], '.');
      Some(Value(Ungroup(mag[..|mag| - 3], '.')) * 100 + Value(mag[|mag| - 2..]))
  }

  /** Reads Brazilian-formatted currency text back into cents: `R$ `, an
      optional `-`, then a magnitude. */
  function ParseValor(s: string): Option<int> {
    if !StartsWith(s, "R$ ") then None
    else
      var body := s[3..];
      if |body| > 0 && body[0] == '-' then
        match ParseMagnitude(body[1..])
        case Some(u) => Some(-(u as int))
        case None => None
      else
        match ParseMagnitude(body)
        case Some(u) => Some(u as int)
        case None => None
  }

  /** A well-grouped integer part, a comma and two decimals are accepted and
      read back to their value. */
  lemma ParseMagnitudeParts(w: string, t: string)
    requires Grouped(w, '.') && AllDigits(Ungroup(w, '.')) && |t| == 2 && AllDigits(t)
    ensures ParseMagnitude(w + "," + t).Some?
    ensures ParseMagnitude(w + "," + t).value == Value(Ungroup(w, '.')) * 100 + Value(t)
  {
    var mag := w + "," + t;
    assert mag[..|mag| - 3] == w;
    assert mag[|mag| - 2..] == t;
  }

  /** A grouped integer part, a comma and two decimals read back to their value. */
  lemma ParseMagnitudeOf(ds: string, t: string)
    requires |ds| >= 1 && AllDigits(ds) && |t| == 2 && AllDigits(t)
    ensures ParseMagnitude(Group(ds, '.') + "," + t).Some?
    ensures ParseMagnitude(Group(ds, '.') + "," + t).value == Value(ds) * 100 + Value(t)
  {
    GroupRoundTrip(ds, '.');
    UngroupDigits(ds, '.');
    ParseMagnitudeParts(Group(ds, '.'), t);
  }

  /** The prefix and the sign are read back around a magnitude that starts with a digit. */
  lemma ParseValorOf(neg: bool, mag: string, u: nat)
    requires |mag| > 0 && IsDigit(mag[0]) && ParseMagnitude(mag).Some? && ParseMagnitude(mag).value == u
    ensures ParseValor("R$ " + (if neg then "-" else "") + mag).Some?
    ensures ParseValor("R$ " + (if neg then "-" else "") + mag).value == if neg then -(u as int) else u as int
  {
    var r := "R$ " + (if neg then "-" else "") + mag;
    assert r[..3] == "R$ ";
    var body := r[3..];
    if neg {
      assert body == "-" + mag;
      assert body[1..] == mag;
    } else {
      assert body == mag;
    }
  }

  /** Currency text built from digits reads back to the amount they denote. */
  lemma ParseText(neg: bool, ds: string, t: string)
    requires |ds| >= 1 && AllDigits(ds) && |t| == 2 && AllDigits(t)
    ensures var r := ParseValor("R$ " + (if neg then "-" else "") + Group(ds, '.') + "," + t);
      r.Some? && r.value == if neg then -(Value(ds) * 100 + Value(t)) else Value(ds) * 100 + Value(t)
  {
    var u := Value(ds) * 100 + Value(t);
    var g := Group(ds, '.');
    ParseMagnitudeOf(ds, t);
    GroupRoundTrip(ds, '.');
    GroupedDigits(g, '.');
    var mag := g + "," + t;
    assert mag[0] == g[0];
    ParseValorOf(neg, mag, u);
    ConcatAssoc("R$ " + (if neg then "-" else ""), g, ",", t);
  }

  lemma BrazilianRoundTrip(cents: int)
    ensures ParseValor(Brazilian(cents)) == Some(cents)
  {
    var q := Abs(cents) / 100;
    ValueDigits(q);
    ParseText(cents < 0, Digits(q), Decimals(cents));
  }

  /** Formatting then parsing gives back the amount. */
  lemma FormatValorRoundTrip(cents: int)
    ensures ParseValor(FormatValor(cents)) == Some(cents)
  {
    BrazilianRoundTrip(cents);
  }

  /** Distinct amounts are formatted differently. */
  lemma FormatValorInjective(a: int, b: int)
    ensures FormatValor(a) == FormatValor(b) <==> a == b
  {
    FormatValorRoundTrip(a);
    FormatValorRoundTrip(b);
  }

  /** Comma-free text, a comma and two digits: the comma is the only one. */
  lemma OnlyComma(head: string, t: string)
    requires ',' !in head && |t| == 2 && AllDigits(t)
    ensures var r := head + "," + t;
      r[|r| - 3] == ',' && IsDigit(r[|r| - 2]) && IsDigit(r[|r| - 1])
      && forall i :: 0 <= i < |r| && r[i] == ',' ==> i == |r| - 3
  {
  }

  lemma NotInConcat(x: string, g: string, c: char)
    requires c !in x && c !in g
    ensures c !in x + g
  {
    forall i | 0 <= i < |x + g|
      ensures (x + g)[i] != c
    {
      if i < |x| {
        assert (x + g)[i] == x[i];
      } else {
        assert (x + g)[i] == g[i - |x|];
      }
    }
  }

  lemma BrazilianShape(cents: int)
    ensures var r := Brazilian(cents);
      && StartsWith(r, "R$ ")
      && |r| >= 7 && r[|r| - 3] == ',' && IsDigit(r[|r| - 2]) && IsDigit(r[|r| - 1])
      && (forall i :: 0 <= i < |r| && r[i] == ',' ==> i == |r| - 3)
  {
    var r := Brazilian(cents);
    var x, g := "R$ " + Sign(cents), WholePart(cents, '.');
    WholePartGrouped(cents);
    GroupedDigits(g, '.');
    GroupedOnly(g, '.', ',');
    assert ',' !in x;
    NotInConcat(x, g, ',');
    OnlyComma(x + g, Decimals(cents));
    assert r[..3] == x[..3];
  }

  /** The formatted amount starts with `R$ ` and ends in a comma and two
      digits, and that comma is its only one. */
  lemma FormatValorShape(cents: int)
    ensures var r := FormatValor(cents);
      && StartsWith(r, "R$ ")
      && |r| >= 7 && r[|r| - 3] == ',' && IsDigit(r[|r| - 2]) && IsDigit(r[|r| - 1])
      && (forall i :: 0 <= i < |r| && r[i] == ',' ==> i == |r| - 3)
  {
    BrazilianShape(cents);
  }
}
