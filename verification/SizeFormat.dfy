/** Two formatters for a size in kilobytes, shown in megabytes with three digits. */
module SizeFormat {
  import opened Composer

  /** The digits of `v` with the separator in front of the last `decimals` of them. */
  function Fixed(v: nat, decimals: nat, separator: char): string
    requires decimals <= |Decimal(v)|
  {
    var d := Decimal(v);
    if decimals == 0 then d
    else d[..|d| - decimals] + [separator] + d[|d| - decimals..]
  }

  /** The size cut off, not rounded, behind its third digit. */
  function Shown(n: nat, separator: char): string
    requires 1000 <= n < 1000000
  {
    ThreeDigits(n);
    if n < 10000 then Fixed(n / 10, 2, separator)
    else if n < 100000 then Fixed(n / 100, 1, separator)
    else Fixed(n / 1000, 0, separator)
  }

  function Digit(d: nat): char
    requires d < 10
  {
    '0' + d as char
  }

  lemma OneDigit(v: nat)
    requires v < 10
    ensures Decimal(v) == [Digit(v)]
  {
  }

  lemma TwoDigits(v: nat)
    requires 10 <= v < 100
    ensures Decimal(v) == [Digit(v / 10), Digit(v % 10)]
  {
    OneDigit(v / 10);
  }

  lemma DecimalOfThree(v: nat)
    requires 100 <= v < 1000
    ensures Decimal(v) == [Digit(v / 100), Digit(v / 10 % 10), Digit(v % 10)]
  {
    TwoDigits(v / 10);
    assert v / 10 / 10 == v / 100;
  }

  lemma ThreeDigits(n: nat)
    requires 1000 <= n < 1000000
    ensures n < 10000 ==> |Decimal(n / 10)| == 3
    ensures 10000 <= n < 100000 ==> |Decimal(n / 100)| == 3
    ensures 100000 <= n ==> |Decimal(n / 1000)| == 3
  {
    if n < 10000 {
      DecimalOfThree(n / 10);
    } else if n < 100000 {
      DecimalOfThree(n / 100);
    } else {
      DecimalOfThree(n / 1000);
    }
  }

  /** The digits of a long division, most significant first. */
  function Fraction(remainder: nat, denominator: nat, digits: nat): (r: string)
    requires remainder < denominator
    ensures |r| == digits
    decreases digits
  {
    if digits == 0 then ""
    else Decimal(remainder * 10 / denominator)[..1] + Fraction(remainder * 10 % denominator, denominator, digits - 1)
  }

  /** The upload note's text for a quotient: its integer part, the separator and three decimals, cut
      to four characters, or to three when the fourth is the separator. */
  function NoteText(numerator: nat, denominator: nat, separator: char): string
    requires denominator > 0
  {
    var temp := Decimal(numerator / denominator) + [separator] + Fraction(numerator % denominator, denominator, 3);
    if temp[3] == separator then temp[..3] else temp[..4]
  }

  /** DivisionL: long division to three decimals, then the cut. */
  method Division(numerator: nat, denominator: nat, separator: char) returns (r: string)
    requires denominator > 0
    ensures r == NoteText(numerator, denominator, separator)
  {
    hide Decimal, Fraction;
    var remainder: nat := numerator % denominator;
    var temp := Decimal(numerator / denominator);
    temp := temp + [separator];
    ghost var front := temp;
    for i := 0 to 3
      invariant remainder < denominator && |temp| == |front| + i
      invariant front + Fraction(numerator % denominator, denominator, 3)
             == temp + Fraction(remainder, denominator, 3 - i)
    {
      var newRemainder := remainder * 10 % denominator;
      DigitOfDivision(remainder, denominator);
      FractionStep(remainder, denominator, 3 - i);
      ghost var rest := Fraction(newRemainder, denominator, 2 - i);
      remainder := remainder * 10 / denominator;
      assert temp + (Decimal(remainder) + rest) == (temp + Decimal(remainder)) + rest;
      temp := temp + Decimal(remainder);
      remainder := newRemainder;
    }
    assert temp + "" == temp && Fraction(remainder, denominator, 0) == "";
    if temp[3] == separator {
      r := temp[..3];
    } else {
      r := temp[..4];
    }
  }

  lemma FractionStep(remainder: nat, denominator: nat, digits: nat)
    requires remainder < denominator && digits > 0
    ensures Fraction(remainder, denominator, digits) ==
            Decimal(remainder * 10 / denominator)[..1] + Fraction(remainder * 10 % denominator, denominator, digits - 1)
  {
  }

  lemma DigitOfDivision(remainder: nat, denominator: nat)
    requires remainder < denominator
    ensures remainder * 10 / denominator < 10
    ensures Decimal(remainder * 10 / denominator)[..1] == Decimal(remainder * 10 / denominator)
  {
    var d := remainder * 10 / denominator;
    Monotone(10, d, denominator);
    OneDigit(d);
  }

  lemma Monotone(a: nat, b: nat, c: nat)
    ensures a <= b ==> a * c <= b * c
  {
  }

  /** The megabyte branch of the download dialog. */
  method MegabyteText(sizeInt: nat, separator: char) returns (mbString: string)
    requires 1000 <= sizeInt < 1000000
    ensures mbString == Shown(sizeInt, separator)
  {
    var mb := sizeInt / 1000;
    var remainder := sizeInt % 1000;
    mbString := Decimal(mb);
    if mb < 10 {
      mbString := mbString + [separator];
      if remainder < 1000 / 10 {
        mbString := mbString + Decimal(0);
      }
      mbString := mbString + Decimal(remainder * 100 / 1000);
      DialogUnderTen(sizeInt);
    } else if mb < 100 {
      mbString := mbString + [separator];
      mbString := mbString + Decimal(remainder * 10 / 1000);
      DialogUnderHundred(sizeInt);
    }
  }

  lemma DialogUnderTen(n: nat)
    requires 1000 <= n < 10000
    ensures var d := Decimal(n / 10);
            && |d| == 3 && d[..1] == Decimal(n / 1000)
            && d[1..] == (if n % 1000 < 100 then Decimal(0) else "") + Decimal(n % 1000 * 100 / 1000)
  {
    hide Decimal;
    var q, a, b, c := DigitsOf(n);
    DecimalOfThree(n / 10);
    OneDigit(q);
    OneDigit(0);
    if a == 0 {
      OneDigit(b);
    } else {
      TwoDigits(10 * a + b);
    }
  }

  lemma Quotient(x: nat, d: nat, q: nat, r: nat)
    requires d > 0 && r < d && x == d * q + r
    ensures x / d == q && x % d == r
  {
    var q', r' := x / d, x % d;
    assert x == d * q' + r';
    Monotone(q + 1, q', d);
    Monotone(q' + 1, q, d);
  }

  /** The decimal digits of a size, and what cutting and scaling do to them. */
  lemma DigitsOf(n: nat) returns (q: nat, a: nat, b: nat, c: nat)
    ensures q == n / 1000 && a < 10 && b < 10 && c < 10 && n == 1000 * q + 100 * a + 10 * b + c
    ensures n % 1000 == 100 * a + 10 * b + c && n % 1000 * 100 / 1000 == 10 * a + b && n % 1000 * 10 / 1000 == a
    ensures n / 10 == 100 * q + 10 * a + b && n / 100 == 10 * q + a
    ensures n / 10 / 100 == q && n / 10 / 10 % 10 == a && n / 10 % 10 == b
    ensures (10 * a + b) / 10 == a && (10 * a + b) % 10 == b
  {
    var x := n / 10;
    var y := x / 10;
    c, b, a, q := n % 10, x % 10, y % 10, y / 10;
    var r, v := 100 * a + 10 * b + c, 100 * q + 10 * a + b;
    Quotient(n, 1000, q, r);
    Quotient(r * 100, 1000, 10 * a + b, 100 * c);
    Quotient(r * 10, 1000, a, 100 * b + 10 * c);
    Quotient(n, 100, 10 * q + a, 10 * b + c);
    Quotient(v, 100, q, 10 * a + b);
    Quotient(10 * a + b, 10, a, b);
  }

  lemma DialogUnderHundred(n: nat)
    requires 10000 <= n < 100000
    ensures var d := Decimal(n / 100);
            |d| == 3 && d[..2] == Decimal(n / 1000) && d[2..] == Decimal(n % 1000 * 10 / 1000)
  {
    hide Decimal;
    var q, a, b, c := DigitsOf(n);
    DecimalOfThree(10 * q + a);
    TwoDigits(q);
    assert (10 * q + a) / 100 == q / 10 && (10 * q + a) / 10 % 10 == q % 10 && (10 * q + a) % 10 == a;
    OneDigit(a);
  }

  lemma DigitsOfThousand(a: nat, b: nat, c: nat)
    requires a < 10 && b < 10 && c < 10
    ensures Fraction(100 * a + 10 * b + c, 1000, 3) == [Digit(a), Digit(b), Digit(c)]
  {
    hide Decimal, Fraction;
    var r, r1, r2 := 100 * a + 10 * b + c, 100 * b + 10 * c, 100 * c;
    Quotient(r * 10, 1000, a, r1);
    Quotient(r1 * 10, 1000, b, r2);
    Quotient(r2 * 10, 1000, c, 0);
    OneDigit(a);
    OneDigit(b);
    OneDigit(c);
    FractionStep(r, 1000, 3);
    FractionStep(r1, 1000, 2);
    FractionStep(r2, 1000, 1);
    assert Fraction(0, 1000, 0) == "" by { NoFraction(0, 1000); }
  }

  lemma NoFraction(remainder: nat, denominator: nat)
    requires remainder < denominator
    ensures Fraction(remainder, denominator, 0) == ""
  {
  }

  lemma NoteUnderTen(n: nat, q: nat, a: nat, b: nat, c: nat, separator: char)
    requires 1 <= q < 10 && a < 10 && b < 10 && c < 10 && separator != Digit(b)
    requires n / 1000 == q && n % 1000 == 100 * a + 10 * b + c && n / 10 == 100 * q + 10 * a + b
    ensures NoteText(n, 1000, separator) == [Digit(q), separator, Digit(a), Digit(b)] == Fixed(n / 10, 2, separator)
  {
    hide Decimal, Fraction;
    DigitsOfThousand(a, b, c);
    OneDigit(q);
    ThreeDigitNumber(q, a, b);
  }

  lemma ThreeDigitNumber(q: nat, a: nat, b: nat)
    requires 1 <= q < 10 && a < 10 && b < 10
    ensures Decimal(100 * q + 10 * a + b) == [Digit(q), Digit(a), Digit(b)]
  {
    hide Decimal;
    var v := 100 * q + 10 * a + b;
    Quotient(v, 100, q, 10 * a + b);
    Quotient(v, 10, 10 * q + a, b);
    Quotient(10 * q + a, 10, q, a);
    DecimalOfThree(v);
  }

  lemma NoteUnderHundred(n: nat, p: nat, q: nat, a: nat, b: nat, c: nat, separator: char)
    requires 1 <= p < 10 && q < 10 && a < 10 && b < 10 && c < 10 && separator != Digit(a)
    requires n / 1000 == 10 * p + q && n % 1000 == 100 * a + 10 * b + c && n / 100 == 100 * p + 10 * q + a
    ensures NoteText(n, 1000, separator) == [Digit(p), Digit(q), separator, Digit(a)] == Fixed(n / 100, 1, separator)
  {
    hide Decimal, Fraction;
    DigitsOfThousand(a, b, c);
    Quotient(10 * p + q, 10, p, q);
    TwoDigits(10 * p + q);
    ThreeDigitNumber(p, q, a);
  }

  lemma NoteFromHundred(n: nat, separator: char)
    requires 100000 <= n < 1000000
    ensures NoteText(n, 1000, separator) == Fixed(n / 1000, 0, separator)
  {
    hide Decimal, Fraction;
    DecimalOfThree(n / 1000);
  }

  /** Formatter agreement: from one to just under a thousand megabytes the upload note and the
      download dialog show the same at most four characters, the size cut off behind three digits. */
  lemma FormattersAgree(n: nat, separator: char)
    requires 1000 <= n < 1000000 && !('0' <= separator <= '9')
    ensures NoteText(n, 1000, separator) == Shown(n, separator) && |Shown(n, separator)| <= 4
  {
    hide Decimal, NoteText, Fixed;
    var q, a, b, c := DigitsOf(n);
    ThreeDigits(n);
    if n < 10000 {
      NoteUnderTen(n, q, a, b, c, separator);
    } else if n < 100000 {
      assert q == 10 * (q / 10) + q % 10;
      NoteUnderHundred(n, q / 10, q % 10, a, b, c, separator);
    } else {
      NoteFromHundred(n, separator);
    }
    ShownIsShort(n, separator);
  }

  /** Any quotient in the upload note: at least three of its digits, cut off, with the separator between;
      from a thousand on its first four digits, which are the whole integer part exactly below ten
      thousand. */
  lemma NoteOfAny(n: nat, d: nat, separator: char)
    requires d > 0 && !('0' <= separator <= '9')
    ensures var q, a, b := n / d, n * 10 / d % 10, n * 100 / d % 10;
            && (q < 10 ==> NoteText(n, d, separator) == Decimal(q) + [separator, Digit(a), Digit(b)])
            && (10 <= q < 100 ==> NoteText(n, d, separator) == Decimal(q) + [separator, Digit(a)])
            && (100 <= q < 1000 ==> NoteText(n, d, separator) == Decimal(q))
            && (1000 <= q ==> |Decimal(q)| >= 4 && NoteText(n, d, separator) == Decimal(q)[..4])
            && (100 <= q ==> (NoteText(n, d, separator) == Decimal(q) <==> q < 10000))
  {
    var q, _ := DivMod(n, d);
    var rest := TwoDecimals(n, d);
    LengthOf(q);
    DecimalDenotes(q);
    hide Decimal;
    CutNote(Decimal(q), separator, Fraction(n % d, d, 3));
  }

  /** The cut of an integer part, the separator and the decimals behind it. */
  lemma CutNote(whole: string, separator: char, decimals: string)
    requires |whole| > 0 && |decimals| == 3
    requires separator !in whole && separator !in decimals
    ensures var temp := whole + [separator] + decimals;
            (if temp[3] == separator then temp[..3] else temp[..4]) ==
            if |whole| == 1 then whole + [separator, decimals[0], decimals[1]]
            else if |whole| == 2 then whole + [separator, decimals[0]]
            else if |whole| == 3 then whole
            else whole[..4]
  {
    var temp := whole + [separator] + decimals;
    if |whole| == 3 {
      assert temp[3] == separator;
    } else {
      assert temp[3] == if |whole| > 3 then whole[3] else decimals[2 - |whole|];
    }
  }

  lemma DivMod(x: nat, d: nat) returns (q: nat, r: nat)
    requires d > 0
    ensures q == x / d && r == x % d && x == d * q + r && r < d
  {
    q, r := x / d, x % d;
  }

  lemma TimesSum(d: nat, q: nat, a: nat)
    ensures d * (10 * q + a) == 10 * (d * q) + d * a
  {
  }

  /** One more decimal of a quotient. */
  lemma OneMoreDecimal(x: nat, d: nat, q: nat, r: nat, a: nat, r1: nat)
    requires d > 0 && x == d * q + r && r * 10 == d * a + r1 && r1 < d && a < 10
    ensures x * 10 / d == 10 * q + a && x * 10 / d % 10 == a && x * 10 == d * (10 * q + a) + r1
  {
    TimesSum(d, q, a);
    Quotient(x * 10, d, 10 * q + a, r1);
  }

  /** The first two decimals of a quotient by long division. */
  lemma TwoDecimals(n: nat, d: nat) returns (rest: string)
    requires d > 0
    ensures |rest| == 1 && Fraction(n % d, d, 3) == [Digit(n * 10 / d % 10), Digit(n * 100 / d % 10)] + rest
    ensures '0' <= rest[0] <= '9'
  {
    hide Decimal, Fraction;
    var q, r := DivMod(n, d);
    var a, r1 := DivMod(r * 10, d);
    var b, r2 := DivMod(r1 * 10, d);
    var c, r3 := DivMod(r2 * 10, d);
    DigitOfDivision(r, d);
    DigitOfDivision(r1, d);
    DigitOfDivision(r2, d);
    OneMoreDecimal(n, d, q, r, a, r1);
    OneMoreDecimal(n * 10, d, 10 * q + a, r1, b, r2);
    OneDigit(a);
    OneDigit(b);
    OneDigit(c);
    FractionStep(r, d, 3);
    FractionStep(r1, d, 2);
    FractionStep(r2, d, 1);
    rest := Fraction(r2, d, 1);
    assert Fraction(r3, d, 0) == "" by { NoFraction(r3, d); }
  }

  lemma {:induction false} LengthOf(q: nat)
    ensures |Decimal(q)| == 1 <==> q < 10
    ensures |Decimal(q)| == 2 <==> 10 <= q < 100
    ensures |Decimal(q)| == 3 <==> 100 <= q < 1000
    ensures |Decimal(q)| == 4 <==> 1000 <= q < 10000
  {
    if q >= 10 {
      LengthOf(q / 10);
    }
  }

  /** What is shown denotes the size cut off at the unit of its last digit: three digits of a number
      `v` of such units, with v units <= size < v + 1 units, and as many decimals as the unit asks for. */
  lemma ShownDenotes(n: nat, separator: char) returns (v: nat, decimals: nat, unit: nat)
    requires 1000 <= n < 1000000
    ensures 100 <= v < 1000 && |Decimal(v)| == 3 && decimals <= 2
    ensures Shown(n, separator) == Fixed(v, decimals, separator)
    ensures unit == (match decimals case 0 => 1000 case 1 => 100 case _ => 10)
    ensures v * unit <= n < (v + 1) * unit
    ensures (forall i :: 0 <= i < 3 ==> '0' <= Decimal(v)[i] <= '9') && DecimalValue(Decimal(v)) == v
  {
    hide Decimal, Fixed, DecimalValue;
    ThreeDigits(n);
    decimals := if n < 10000 then 2 else if n < 100000 then 1 else 0;
    unit := if n < 10000 then 10 else if n < 100000 then 100 else 1000;
    v := n / unit;
    DecimalDenotes(v);
  }

  lemma ShownIsShort(n: nat, separator: char)
    requires 1000 <= n < 1000000
    ensures |Shown(n, separator)| <= 4
  {
    hide Decimal;
    ThreeDigits(n);
  }

  /** The three layouts. */
  lemma ThreeLayouts()
    ensures Shown(1239, '.') == "1.23" && Shown(12398, '.') == "12.3" && Shown(123987, '.') == "123"
  {
    ThreeDigitNumber(1, 2, 3);
    assert Decimal(123) == "123" by { assert Digit(1) == '1' && Digit(2) == '2' && Digit(3) == '3'; }
    hide Decimal;
    assert "123"[..1] + ['.'] + "123"[1..] == "1.23" && "123"[..2] + ['.'] + "123"[2..] == "12.3";
  }
}
