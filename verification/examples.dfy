/** Worked examples of the `valor` rendering: for each amount in cents, the
    exact text `transformar` writes. */
module Examples {
  import opened Decimal
  import opened Currency

  lemma DigitsOf(n: nat, s: string)
    requires (n == 1234 && s == "1234") || (n == 1000000 && s == "1000000") || (n == 99 && s == "99") || (n == 0 && s == "0")
    ensures Digits(n) == s
  {
    if n == 1000000 {
      assert Digits(1000) == "1000";
    }
  }

  lemma GroupOf(ds: string, g: string)
    requires (ds == "1234" && g == "1.234") || (ds == "1000000" && g == "1.000.000")
    ensures Group(ds, '.') == g
  {
    if ds == "1000000" {
      assert ds[..4] == "1000" && ds[4..] == "000";
      assert Group("1000", '.') == "1.000";
    } else {
      assert ds[..1] == "1" && ds[1..] == "234";
    }
  }

  lemma DecimalsOf(cents: int, t: string)
    requires (Abs(cents) % 100 == 50 && t == "50") || (Abs(cents) % 100 == 0 && t == "00") || (Abs(cents) % 100 == 90 && t == "90")
    ensures Decimals(cents) == t
  {
  }

  lemma BrazilianOf(cents: int, g: string, t: string)
    requires WholePart(cents, '.') == g && Decimals(cents) == t
    ensures FormatValor(cents) == "R$ " + Sign(cents) + g + "," + t
  {
  }

  /** 1234.50 is written with a thousands dot and a decimal comma. */
  lemma ThousandsExample(cents: int)
    requires cents == 123450
    ensures FormatValor(cents) == "R$ 1.234,50"
  {
    DigitsOf(1234, "1234");
    GroupOf("1234", "1.234");
    DecimalsOf(cents, "50");
    BrazilianOf(cents, "1.234", "50");
  }

  /** Zero keeps a leading zero and two decimals. */
  lemma ZeroExample(cents: int)
    requires cents == 0
    ensures FormatValor(cents) == "R$ 0,00"
  {
    DigitsOf(0, "0");
    DecimalsOf(cents, "00");
    BrazilianOf(cents, "0", "00");
  }

  lemma MillionWhole(cents: int)
    requires cents == 100000000
    ensures WholePart(cents, '.') == "1.000.000"
  {
    assert Abs(cents) / 100 == 1000000;
    DigitsOf(1000000, "1000000");
    GroupOf("1000000", "1.000.000");
  }

  /** A million has two thousands dots. */
  lemma MillionExample(cents: int)
    requires cents == 100000000
    ensures FormatValor(cents) == "R$ 1.000.000,00"
  {
    MillionWhole(cents);
    DecimalsOf(cents, "00");
    BrazilianOf(cents, "1.000.000", "00");
  }

  /** Amounts below a thousand have no dot. */
  lemma SmallExample(cents: int)
    requires cents == 9990
    ensures FormatValor(cents) == "R$ 99,90"
  {
    DigitsOf(99, "99");
    DecimalsOf(cents, "90");
    BrazilianOf(cents, "99", "90");
  }

  /** The minus sign goes after `R$ `, before the digits. */
  lemma NegativeExample(cents: int)
    requires cents == -123450
    ensures FormatValor(cents) == "R$ -1.234,50"
  {
    DigitsOf(1234, "1234");
    GroupOf("1234", "1.234");
    DecimalsOf(cents, "50");
    BrazilianOf(cents, "1.234", "50");
  }
}
