/** `to_human_size(nbytes)` of videotools.py: the unit is chosen from the
    number of decimal digits (`int(log10(nbytes) / 3)`, at most the last of
    UNIDADES) while the divisor is a power of 1024; the quotient is printed
    with two decimals and its trailing zeros and point are removed. */
module HumanSize {
  import opened PyStr

  const UNITS: seq<string> := ["B", "KB", "MB", "GB", "TB", "PB"]

  function Pow(b: nat, e: nat): (p: nat)
    ensures b > 0 ==> p > 0
  {
    if e == 0 then 1 else b * Pow(b, e - 1)
  }

  /** The number of decimal digits of n (1 for 0). */
  function NumDigits(n: nat): (d: nat)
    ensures d >= 1
  {
    if n < 10 then 1 else 1 + NumDigits(n / 10)
  }

  /** `rank`: 0 for no bytes, otherwise `int(log10(n) / 3)` capped at 5. For
      n >= 1, log10(n) lies in [d - 1, d) with d the digit count, so the rank
      is (d - 1) / 3. */
  function Rank(n: nat): (r: nat)
    ensures r < |UNITS|
  {
    if n == 0 then 0
    else var r := (NumDigits(n) - 1) / 3; if r < 5 then r else 5
  }

  /** q / d rounded to the nearest integer, ties to the even one, as
      `'%.2f'` rounds a value that is exactly representable. */
  function RoundHalfEven(q: nat, d: nat): (c: nat)
    requires d > 0
    ensures 2 * (q - c * d) <= d && 2 * (c * d - q) <= d
    ensures 2 * (q - c * d) == d || 2 * (c * d - q) == d ==> c % 2 == 0
  {
    var c, r := q / d, q % d;
    Nearest(q, d, c, r);
    if 2 * r > d || (2 * r == d && c % 2 == 1) then c + 1 else c
  }

  lemma Nearest(q: nat, d: nat, c: nat, r: nat)
    requires d > 0 && c == q / d && r == q % d
    ensures q - c * d == r && 0 <= r < d
    ensures (c + 1) * d - q == d - r
  {
  }

  /** The quotient `nbytes / 1024.0 ** rank` in hundredths, as rounded by
      `'%.2f'`. */
  function Cents(n: nat): nat {
    RoundHalfEven(100 * n, Pow(1024, Rank(n)))
  }

  /** `'%.2f'` of c hundredths. */
  function Fixed2(c: nat): string {
    Decimal(c / 100) + "." + Pad2(c % 100)
  }

  /** `f.rstrip('0').rstrip('.')` */
  function TrimZeros(f: string): string {
    StripTrailing(StripTrailing(f, '0'), '.')
  }

  /** `to_human_size(nbytes)`: the number, a space and the unit of the rank,
      and below 1000 bytes the plain count of bytes. */
  function ToHumanSize(n: nat): (r: string)
    ensures EndsWith(r, " " + UNITS[Rank(n)])
    ensures n < 1000 ==> r == Decimal(n) + " B"
  {
    CountShown(n);
    var number := TrimZeros(Fixed2(Cents(n)));
    assert number + " " + UNITS[Rank(n)] == number + (" " + UNITS[Rank(n)]);
    EndsWithJoin(number, " " + UNITS[Rank(n)]);
    number + " " + UNITS[Rank(n)]
  }

  lemma {:induction false} DigitBounds(n: nat)
    ensures n < Pow(10, NumDigits(n))
    ensures n >= 1 ==> Pow(10, NumDigits(n) - 1) <= n
  {
    if n >= 10 {
      DigitBounds(n / 10);
    }
  }

  lemma {:induction false} PowThousand(k: nat)
    ensures Pow(10, 3 * k) == Pow(1000, k)
  {
    if k > 0 {
      PowThousand(k - 1);
      assert Pow(10, 3 * k) == 10 * Pow(10, 3 * k - 1);
      assert Pow(10, 3 * k - 1) == 10 * Pow(10, 3 * k - 2);
      assert Pow(10, 3 * k - 2) == 10 * Pow(10, 3 * (k - 1));
    }
  }

  lemma {:induction false} PowMonotone(b: nat, e: nat, f: nat)
    requires b >= 1 && e <= f
    ensures Pow(b, e) <= Pow(b, f)
  {
    if e < f {
      PowMonotone(b, e, f - 1);
    }
  }

  /** The rank r is the one with 1000^r <= n < 1000^(r+1), except that
      no rank above 5 exists. */
  lemma RankBounds(n: nat)
    requires n >= 1
    ensures Pow(1000, Rank(n)) <= n
    ensures Rank(n) < 5 ==> n < Pow(1000, Rank(n) + 1)
  {
    var d := NumDigits(n);
    var r := Rank(n);
    DigitBounds(n);
    PowThousand(r);
    PowMonotone(10, 3 * r, d - 1);
    if r < 5 {
      PowThousand(r + 1);
      PowMonotone(10, d, 3 * (r + 1));
    }
  }

  /** Both decimals zero: the point goes too and the whole part is left. */
  lemma TrimWhole(c: nat)
    requires c % 100 == 0
    ensures TrimZeros(Fixed2(c)) == Decimal(c / 100)
  {
    var w := Decimal(c / 100);
    var wp := w + ".";
    var p := Pad2(c % 100);
    assert p == "00";
    assert Fixed2(c) == wp + ['0'] + ['0'];
    assert StripTrailing(Fixed2(c), '0') == StripTrailing(wp + ['0'], '0');
    assert StripTrailing(wp + ['0'], '0') == StripTrailing(wp, '0');
    assert StripTrailing(wp, '0') == wp;
    assert wp[..|wp| - 1] == w;
    assert StripTrailing(wp, '.') == StripTrailing(w, '.');
    assert w[|w| - 1] != '.';
  }

  /** Only the last decimal zero: one decimal is left. */
  lemma TrimOneDecimal(c: nat)
    requires c % 100 != 0 && c % 10 == 0
    ensures TrimZeros(Fixed2(c)) == Decimal(c / 100) + "." + [DigitChar(c % 100 / 10)]
  {
    var wp := Decimal(c / 100) + ".";
    var p := Pad2(c % 100);
    var k := [DigitChar(c % 100 / 10)];
    assert p == k + ['0'];
    assert Fixed2(c) == wp + k + ['0'];
    assert StripTrailing(Fixed2(c), '0') == StripTrailing(wp + k, '0');
    assert StripTrailing(wp + k, '0') == wp + k;
  }

  /** A last decimal other than zero: nothing is trimmed. */
  lemma TrimTwoDecimals(c: nat)
    requires c % 10 != 0
    ensures TrimZeros(Fixed2(c)) == Fixed2(c)
  {
    var f := Fixed2(c);
    assert f[|f| - 1] == Pad2(c % 100)[1];
  }

  /** Below 1000 bytes the number is the plain count of bytes. */
  lemma CountShown(n: nat)
    ensures n < 1000 ==> Rank(n) == 0 && TrimZeros(Fixed2(Cents(n))) == Decimal(n)
  {
    if n < 1000 {
      assert NumDigits(n) <= 3 by { DigitCount(n); }
      assert Rank(n) == 0;
      assert Cents(n) == 100 * n;
      TrimWhole(100 * n);
    }
  }

  lemma DigitCount(n: nat)
    requires n < 1000
    ensures NumDigits(n) <= 3
  {
    if n >= 10 {
      assert NumDigits(n) == 1 + NumDigits(n / 10);
      if n / 10 >= 10 {
        assert NumDigits(n / 10) == 1 + NumDigits(n / 100);
        assert n / 10 / 10 < 10;
      }
    }
  }

  /** 1024 * 1000^r <= 1000 * 1024^r for every unit above bytes. */
  lemma {:induction false} KibiRatio(r: nat)
    requires r >= 1
    ensures 1024 * Pow(1000, r) <= 1000 * Pow(1024, r)
  {
    if r > 1 {
      KibiRatio(r - 1);
      assert Pow(1000, r) == 1000 * Pow(1000, r - 1);
      assert Pow(1024, r) == 1024 * Pow(1024, r - 1);
    }
  }

  /** Below the last unit the printed number is below 1000: rounding to two
      decimals never turns it into "1000". */
  lemma BelowThousand(n: nat)
    requires Rank(n) < 5
    ensures Cents(n) < 100000
  {
    var r := Rank(n);
    if n == 0 {
    } else if r == 0 {
      RankBounds(n);
      assert n < 1000;
    } else {
      RankBounds(n);
      KibiRatio(r);
      var d := Pow(1024, r);
      assert Pow(1000, r + 1) == 1000 * Pow(1000, r);
      assert 1024 * (100 * n) < 100000000 * d;
      RoundedBelow(100 * n, d, Cents(n));
    }
  }

  /** A quotient below 97657 rounds to less than 100000. */
  lemma RoundedBelow(q: nat, d: nat, c: nat)
    requires d > 0 && 2 * (c * d - q) <= d && 1024 * q < 100000000 * d
    ensures c < 100000
  {
    if c >= 100000 {
      MulMono(100000, c, d);
      assert false;
    }
  }

  lemma MulMono(a: nat, b: nat, d: nat)
    requires a <= b
    ensures a * d <= b * d
  {
  }

  lemma ExampleZero()
    ensures ToHumanSize(0) == "0 B"
  {
  }

  /** A rank-one size whose hundredths are c is shown as "<c as trimmed> KB". */
  lemma KibiExample(n: nat, c: nat)
    requires 1000 <= n < 1000000
    requires RoundHalfEven(100 * n, 1024) == c
    ensures Rank(n) == 1 && Cents(n) == c
    ensures ToHumanSize(n) == TrimZeros(Fixed2(c)) + " KB"
  {
    RankIs(n, 1);
  }

  /** The rank of a size whose digit count is known. */
  lemma RankIs(n: nat, r: nat)
    requires r < 5 && Pow(1000, r) <= n < Pow(1000, r + 1)
    ensures Rank(n) == r
  {
    DigitBounds(n);
    PowThousand(r);
    PowThousand(r + 1);
    var d := NumDigits(n);
    if d - 1 < 3 * r {
      PowMonotone(10, d, 3 * r);
    }
    if d - 1 >= 3 * (r + 1) {
      PowMonotone(10, 3 * (r + 1), d - 1);
    }
  }

  lemma ExampleOneKibi()
    ensures ToHumanSize(1024) == "1 KB"
  {
    KibiExample(1024, 100);
    TrimWhole(100);
    assert Decimal(1) == "1";
  }

  lemma ExampleHalfKibi()
    ensures ToHumanSize(1536) == "1.5 KB"
  {
    HalfCents();
    KibiExample(1536, 150);
    HalfTrimmed();
  }

  lemma HalfTrimmed()
    ensures TrimZeros(Fixed2(150)) == "1.5"
  {
    TrimOneDecimal(150);
    HalfText();
  }

  lemma HalfCents()
    ensures RoundHalfEven(153600, 1024) == 150
  {
    assert 153600 / 1024 == 150 && 153600 % 1024 == 0;
  }

  lemma HalfText()
    ensures Decimal(150 / 100) + "." + [DigitChar(150 % 100 / 10)] == "1.5"
  {
    assert Decimal(1) == "1" && DigitChar(5) == '5';
  }

  /** 1000 bytes are already shown in KB, as 1000/1024 rounded: "0.98 KB". */
  lemma ExampleThousand()
    ensures ToHumanSize(1000) == "0.98 KB"
  {
    KibiExample(1000, 98);
    TrimTwoDecimals(98);
    assert Decimal(0) == "0" && Pad2(98) == "98";
  }

  lemma ExampleMebi()
    ensures ToHumanSize(1048576) == "1 MB"
  {
    assert Pow(1000, 2) == 1000000 && Pow(1000, 3) == 1000000000;
    RankIs(1048576, 2);
    assert Pow(1024, 2) == 1048576;
    assert Cents(1048576) == 100;
    TrimWhole(100);
    assert Decimal(1) == "1";
  }
}
