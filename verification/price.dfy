/** The locale-aware price field of the product form: `ProductForm.clean_price`
    (products/forms.py). A price is typed the Brazilian way, `.` grouping thousands
    and `,` marking the decimals, and is turned into an exact decimal or refused. */
module PriceForm {
  import opened Wrappers
  import opened Decimals

  /** The number of occurrences of `c` in `s`. */
  function Count(s: string, c: char): nat {
    if s == [] then 0 else (if s[0] == c then 1 else 0) + Count(s[1..], c)
  }

  lemma {:induction false} CountConcat(a: string, b: string, c: char)
    ensures Count(a + b, c) == Count(a, c) + Count(b, c)
  {
    if a == [] {
      assert a + b == b;
    } else {
      assert (a + b)[1..] == a[1..] + b;
      CountConcat(a[1..], b, c);
    }
  }

  lemma {:induction false} CountPositive(s: string, c: char)
    ensures Count(s, c) > 0 <==> c in s
  {
    if s != [] {
      CountPositive(s[1..], c);
      assert c in s <==> s[0] == c || c in s[1..];
    }
  }

  /** Python's `s.replace(mark, subst)` for a one-character `mark`: every occurrence of `mark`
      is replaced by `subst`, every other character is kept in place. */
  function Replace(s: string, mark: char, subst: string): string {
    if s == [] then []
    else (if s[0] == mark then subst else [s[0]]) + Replace(s[1..], mark, subst)
  }

  /** Each `mark` removed adds `subst`'s characters; other characters keep their count. */
  lemma {:induction false} ReplaceCount(s: string, mark: char, subst: string, c: char)
    ensures Count(Replace(s, mark, subst), c)
         == (if c == mark then 0 else Count(s, c)) + Count(s, mark) * Count(subst, c)
  {
    if s != [] {
      var head := if s[0] == mark then subst else [s[0]];
      CountConcat(head, Replace(s[1..], mark, subst), c);
      ReplaceCount(s[1..], mark, subst, c);
      if s[0] == mark {
        calc {
          Count(s, mark) * Count(subst, c);
          (1 + Count(s[1..], mark)) * Count(subst, c);
          Count(subst, c) + Count(s[1..], mark) * Count(subst, c);
        }
      }
    }
  }

  /** Each `mark` removed adds `subst`'s length. */
  lemma {:induction false} ReplaceLength(s: string, mark: char, subst: string)
    ensures |Replace(s, mark, subst)| == |s| - Count(s, mark) + Count(s, mark) * |subst|
  {
    if s != [] {
      ReplaceLength(s[1..], mark, subst);
      if s[0] == mark {
        calc {
          Count(s, mark) * |subst|;
          (1 + Count(s[1..], mark)) * |subst|;
          |subst| + Count(s[1..], mark) * |subst|;
        }
      }
    }
  }

  lemma {:induction false} ReplaceConcat(a: string, b: string, mark: char, subst: string)
    ensures Replace(a + b, mark, subst) == Replace(a, mark, subst) + Replace(b, mark, subst)
  {
    if a == [] {
      assert a + b == b;
    } else {
      assert (a + b)[1..] == a[1..] + b;
      ReplaceConcat(a[1..], b, mark, subst);
    }
  }

  /** A string without `mark` is left as it is. */
  lemma {:induction false} ReplaceAbsent(s: string, mark: char, subst: string)
    requires mark !in s
    ensures Replace(s, mark, subst) == s
  {
    if s != [] {
      assert s == [s[0]] + s[1..];
      ReplaceAbsent(s[1..], mark, subst);
    }
  }

  /** The separator normalisation of `clean_price`: drop every `.`, then turn every `,` into `.`.
      The result has no comma left, one point per comma of the input, and is shorter than the
      input by the number of points dropped. */
  function Normalize(price: string): (r: string)
    ensures Count(r, ',') == 0 && ',' !in r
    ensures Count(r, '.') == Count(price, ',')
    ensures |r| == |price| - Count(price, '.')
  {
    var dropped := Replace(price, '.', "");
    var r := Replace(dropped, ',', ".");
    ReplaceCount(price, '.', "", ',');
    ReplaceCount(price, '.', "", '.');
    ReplaceLength(price, '.', "");
    ReplaceCount(dropped, ',', ".", ',');
    ReplaceCount(dropped, ',', ".", '.');
    ReplaceLength(dropped, ',', ".");
    CountPositive(r, ',');
    r
  }

  /** Normalisation touches only points and commas. */
  lemma NormalizeKeepsOthers(price: string, c: char)
    requires c != '.' && c != ','
    ensures Count(Normalize(price), c) == Count(price, c)
  {
    ReplaceCount(price, '.', "", c);
    ReplaceCount(Replace(price, '.', ""), ',', ".", c);
  }

  /** The message of the validation error raised for a price that does not parse. */
  const InvalidPriceMessage: string := "Informe um preço válido (ex: 55,99)."

  datatype PriceError = ValidationError(message: string)

  /** A digit string holds no character other than digits. */
  lemma NoOtherInDigits(s: string, c: char)
    requires AllDigits(s) && !IsDigit(c)
    ensures Count(s, c) == 0
  {
    CountPositive(s, c);
  }

  lemma NoPointInDigits(s: string)
    requires AllDigits(s)
    ensures Count(s, '.') == 0
  {
    NoOtherInDigits(s, '.');
  }

  /** The text of a literal counted in its three parts: sign, whole digits, decimal part. */
  lemma CountInLiteral(l: Literal, c: char)
    ensures var tail := if l.fraction.Some? then "." + l.fraction.value else "";
            Count(Render(l), c) == Count(SignText(l.sign), c) + Count(l.whole, c) + Count(tail, c)
  {
    var tail := if l.fraction.Some? then "." + l.fraction.value else "";
    assert Render(l) == SignText(l.sign) + l.whole + tail;
    CountConcat(SignText(l.sign), l.whole, c);
    CountConcat(SignText(l.sign) + l.whole, tail, c);
  }

  /** A point occurs at most once in the text of a literal. */
  lemma PointsInLiteral(l: Literal)
    requires WellFormed(l)
    ensures Count(Render(l), '.') == (if l.fraction.Some? then 1 else 0)
  {
    CountInLiteral(l, '.');
    NoPointInDigits(l.whole);
    assert Count(SignText(l.sign), '.') == 0;
    if l.fraction.Some? {
      NoPointInDigits(l.fraction.value);
      CountConcat(".", l.fraction.value, '.');
    }
  }

  /** Only digits, signs and the point occur in the text of a literal. */
  lemma LiteralAlphabet(l: Literal, c: char)
    requires WellFormed(l) && !IsDigit(c) && c != '+' && c != '-' && c != '.'
    ensures Count(Render(l), c) == 0
  {
    CountInLiteral(l, c);
    NoOtherInDigits(l.whole, c);
    assert Count(SignText(l.sign), c) == 0;
    if l.fraction.Some? {
      NoOtherInDigits(l.fraction.value, c);
      CountConcat(".", l.fraction.value, c);
    }
  }

  /** `ProductForm.clean_price`: the price with its separators normalised, read as a `Decimal`,
      or the validation error when it is not a decimal literal. Only a text with at most one
      comma can pass, since each comma becomes a decimal point. */
  function CleanPrice(price: string): (r: Result<Dec, PriceError>)
    ensures r.Success? <==> exists l :: Spells(l, Normalize(price))
    ensures r.Failure? ==> r.error == ValidationError(InvalidPriceMessage)
    ensures r.Success? ==> Count(price, ',') <= 1
    ensures Count(price, ',') == 0 && r.Success? ==> r.value.places == 0
    ensures forall l | Spells(l, Normalize(price)) :: r == Success(ValueOf(l))
  {
    match ParseDecimal(Normalize(price))
    case Some(d) =>
      AcceptedCommas(price);
      Success(d)
    case None => Failure(ValidationError(InvalidPriceMessage))
  }

  /** A normalised price that spells a literal came with at most one comma, and
      without a comma it has no places. */
  lemma AcceptedCommas(price: string)
    requires ParseDecimal(Normalize(price)).Some?
    ensures Count(price, ',') <= 1
    ensures Count(price, ',') == 0 ==> ParseDecimal(Normalize(price)).value.places == 0
  {
    var l :| Spells(l, Normalize(price));
    PointsInLiteral(l);
  }

  /** A digit of a well-formed literal, and where its text has it. */
  lemma LiteralDigit(l: Literal) returns (d: char)
    requires WellFormed(l)
    ensures IsDigit(d) && Count(Render(l), d) > 0
  {
    var text := Render(l);
    var at: nat;
    if |l.whole| > 0 {
      d := l.whole[0];
      at := |SignText(l.sign)|;
    } else {
      d := l.fraction.value[0];
      at := |SignText(l.sign)| + 1;
    }
    assert text[at] == d;
    CountPositive(text, d);
  }

  /** An accepted price holds at least one digit. */
  lemma AcceptedHasDigit(price: string)
    requires CleanPrice(price).Success?
    ensures exists i | 0 <= i < |price| :: IsDigit(price[i])
  {
    var l :| Spells(l, Normalize(price));
    var d := LiteralDigit(l);
    NormalizeKeepsOthers(price, d);
    CountPositive(price, d);
    var i :| 0 <= i < |price| && price[i] == d;
  }

  /** An accepted price is written with digits, signs, points and commas only. */
  lemma AcceptedAlphabet(price: string, c: char)
    requires CleanPrice(price).Success?
    requires c in price
    ensures IsDigit(c) || c in "+-.,"
  {
    if !IsDigit(c) && c !in "+-.," {
      var l :| Spells(l, Normalize(price));
      LiteralAlphabet(l, c);
      NormalizeKeepsOthers(price, c);
      CountPositive(price, c);
      assert false;
    }
  }

  /** Without a comma every point is a thousands mark and is dropped, whatever its place:
      the text is read as a whole number. */
  lemma NoCommaDropsPoints(price: string)
    requires ',' !in price
    ensures Normalize(price) == Replace(price, '.', "")
    ensures CleanPrice(price).Success? ==> CleanPrice(price).value.places == 0
  {
    CountPositive(price, ',');
    ReplaceCount(price, '.', "", ',');
    CountPositive(Replace(price, '.', ""), ',');
    ReplaceAbsent(Replace(price, '.', ""), ',', ".");
  }

  /** Groups a digit string in threes from the right with `.`, as thousands are written. */
  function Group(whole: string): string {
    if |whole| <= 3 then whole
    else Group(whole[..|whole| - 3]) + "." + whole[|whole| - 3..]
  }

  lemma DigitsSplit(s: string, k: nat)
    requires AllDigits(s) && k <= |s|
    ensures AllDigits(s[..k]) && AllDigits(s[k..])
  {
    assert forall i | 0 <= i < |s| - k :: s[k..][i] == s[k + i];
  }

  /** A digit string has no separator to replace. */
  lemma DigitsUntouched(s: string)
    requires AllDigits(s)
    ensures Replace(s, '.', "") == s && ',' !in s
  {
    DigitsKeep(s);
    NoOtherInDigits(s, ',');
    CountPositive(s, ',');
  }

  /** Dropping the thousands marks of a grouped digit string gives the digits back. */
  lemma {:induction false} GroupDropsToDigits(whole: string)
    requires AllDigits(whole)
    ensures Replace(Group(whole), '.', "") == whole
    ensures ',' !in Group(whole)
  {
    if |whole| <= 3 {
      DigitsUntouched(whole);
    } else {
      var cut := |whole| - 3;
      var high, low := whole[..cut], whole[cut..];
      DigitsSplit(whole, cut);
      assert Group(whole) == Group(high) + "." + low;
      GroupDropsToDigits(high);
      DigitsUntouched(low);
      ReplaceConcat(Group(high), ".", '.', "");
      ReplaceConcat(Group(high) + ".", low, '.', "");
      assert Replace(".", '.', "") == "";
      assert high + low == whole;
      assert ',' !in Group(high) + "." && ',' !in low;
    }
  }

  /** How a price is typed in the form: optional minus, thousands grouped by `.`, and the
      decimals after `,` when there are any. `Dec(false, 123456, 2)` is written `"1.234,56"`. */
  function FormatPrice(d: Dec): string {
    var digits := PaddedDigits(d.coefficient, d.places + 1);
    var cut := |digits| - d.places;
    (if d.negative then "-" else "") + Group(digits[..cut])
      + (if d.places > 0 then "," + digits[cut..] else "")
  }

  /** A price whose normalised text is a literal is accepted with that literal's value. */
  lemma CleanPriceOfLiteral(price: string, l: Literal)
    requires WellFormed(l) && Normalize(price) == Render(l)
    ensures CleanPrice(price) == Success(ValueOf(l))
  {
    ScanRender(l);
  }

  /** A sign is left alone by both replacements. */
  lemma SignKept(sign: Sign)
    ensures Replace(SignText(sign), '.', "") == SignText(sign)
    ensures Replace(SignText(sign), ',', ".") == SignText(sign)
  {
    match sign
    case Unsigned =>
    case Plus => assert "+"[1..] == [];
    case Minus => assert "-"[1..] == [];
  }

  /** The decimal part of a typed price: a comma and the fraction digits, or nothing. */
  function CommaTail(l: Literal): string {
    if l.fraction.Some? then "," + l.fraction.value else ""
  }

  /** The decimal part has no thousands mark to drop, and its comma becomes the point. */
  lemma CommaTailReplaced(l: Literal)
    requires WellFormed(l)
    ensures Replace(CommaTail(l), '.', "") == CommaTail(l)
    ensures Replace(CommaTail(l), ',', ".") == (if l.fraction.Some? then "." + l.fraction.value else "")
  {
    if l.fraction.Some? {
      var f := l.fraction.value;
      DigitsKeep(f);
      assert Replace(",", '.', "") == "," && Replace(",", ',', ".") == ".";
      ReplaceConcat(",", f, '.', "");
      ReplaceConcat(",", f, ',', ".");
    }
  }

  /** Dropping the thousands marks of a typed price leaves sign, digits and decimal part. */
  lemma DropThousandsMarks(sign: Sign, whole: string, tail: string)
    requires AllDigits(whole) && Replace(tail, '.', "") == tail
    ensures Replace(SignText(sign) + Group(whole) + tail, '.', "") == SignText(sign) + whole + tail
  {
    GroupDropsToDigits(whole);
    SignKept(sign);
    ReplaceThree(SignText(sign), Group(whole), tail, '.', "");
  }

  /** The decimal comma of a typed price becomes the point of a literal. */
  lemma CommaBecomesPoint(l: Literal)
    requires WellFormed(l)
    ensures Replace(SignText(l.sign) + l.whole + CommaTail(l), ',', ".") == Render(l)
  {
    var sign, whole, tail := SignText(l.sign), l.whole, CommaTail(l);
    var pointTail := if l.fraction.Some? then "." + l.fraction.value else "";
    assert Replace(sign, ',', ".") == sign by { SignKept(l.sign); }
    assert Replace(whole, ',', ".") == whole by { DigitsKeep(whole); }
    assert Replace(tail, ',', ".") == pointTail by { CommaTailReplaced(l); }
    ReplaceThree(sign, whole, tail, ',', ".");
    assert Render(l) == sign + (whole + pointTail);
  }

  /** The literal a typed price turns into once normalised. */
  function TypedLiteral(d: Dec): Literal {
    var digits := PaddedDigits(d.coefficient, d.places + 1);
    var cut := |digits| - d.places;
    Literal(if d.negative then Minus else Unsigned, digits[..cut],
            if d.places > 0 then Some(digits[cut..]) else None)
  }

  lemma TypedLiteralValue(d: Dec)
    ensures WellFormed(TypedLiteral(d)) && ValueOf(TypedLiteral(d)) == d
  {
    var digits := PaddedDigits(d.coefficient, d.places + 1);
    var cut := |digits| - d.places;
    var l := TypedLiteral(d);
    assert l.whole + FractionDigits(l) == digits;
  }

  /** A typed price is the sign, the grouped digits and the decimal part of its literal. */
  lemma FormatShape(d: Dec)
    ensures var l := TypedLiteral(d);
            FormatPrice(d) == SignText(l.sign) + Group(l.whole) + CommaTail(l)
  {
  }

  lemma NormalizeFormat(d: Dec)
    ensures Normalize(FormatPrice(d)) == Render(TypedLiteral(d))
  {
    var l := TypedLiteral(d);
    FormatShape(d);
    TypedLiteralValue(d);
    CommaTailReplaced(l);
    DropThousandsMarks(l.sign, l.whole, CommaTail(l));
    CommaBecomesPoint(l);
  }

  /** Every decimal, typed the way the form's placeholder shows, is read back exactly,
      negative ones included: nothing checks the sign or the range. */
  lemma FormatRoundTrip(d: Dec)
    ensures CleanPrice(FormatPrice(d)) == Success(d)
  {
    NormalizeFormat(d);
    TypedLiteralValue(d);
    CleanPriceOfLiteral(FormatPrice(d), TypedLiteral(d));
  }

  /** Reads a concrete price through its two replacement steps. */
  lemma ReadExample(price: string, dropped: string, l: Literal)
    requires WellFormed(l)
    requires Replace(price, '.', "") == dropped && Replace(dropped, ',', ".") == Render(l)
    ensures CleanPrice(price) == Success(ValueOf(l))
  {
    CleanPriceOfLiteral(price, l);
  }

  /** The decimals denoted by the literals of the examples below. */
  lemma ExampleValues()
    ensures ValueOf(Literal(Unsigned, "55", Some("99"))) == Dec(false, 5599, 2)
    ensures ValueOf(Literal(Unsigned, "5599", None)) == Dec(false, 5599, 0)
    ensures ValueOf(Literal(Minus, "5", Some("00"))) == Dec(true, 500, 2)
  {
    assert "55" + "99" == "5599";
    assert "5599" + "" == "5599";
    assert "5" + "00" == "500";
    assert DigitsValue("5599") == 5599;
    assert DigitsValue("500") == 500;
  }

  /** Two places: the coefficient counted in hundredths. */
  lemma Hundredths(negative: bool, coefficient: nat)
    ensures ToReal(Dec(negative, coefficient, 2))
         == if negative then -(coefficient as real / 100.0) else coefficient as real / 100.0
  {
    assert Pow10(2) == 100;
  }

  /** The placeholder example `55,99` is fifty-five and ninety-nine hundredths. */
  lemma PlaceholderExample()
    ensures CleanPrice("55,99") == Success(Dec(false, 5599, 2))
    ensures ToReal(Dec(false, 5599, 2)) == 55.99
  {
    var l := Literal(Unsigned, "55", Some("99"));
    ExampleValues();
    ReadExample("55,99", "55,99", l);
    Hundredths(false, 5599);
  }

  /** Replacing in three consecutive parts. */
  lemma ReplaceThree(a: string, b: string, c: string, mark: char, subst: string)
    ensures Replace(a + b + c, mark, subst)
         == Replace(a, mark, subst) + Replace(b, mark, subst) + Replace(c, mark, subst)
  {
    ReplaceConcat(a, b, mark, subst);
    ReplaceConcat(a + b, c, mark, subst);
  }

  /** Replacing in four consecutive parts. */
  lemma ReplaceFour(a: string, b: string, c: string, d: string, mark: char, subst: string)
    ensures Replace(a + b + c + d, mark, subst)
         == Replace(a, mark, subst) + Replace(b, mark, subst) + Replace(c, mark, subst) + Replace(d, mark, subst)
  {
    ReplaceConcat(a, b, mark, subst);
    ReplaceConcat(a + b, c, mark, subst);
    ReplaceConcat(a + b + c, d, mark, subst);
  }

  /** Digits survive both replacements of the normalisation. */
  lemma DigitsKeep(s: string)
    requires AllDigits(s)
    ensures Replace(s, '.', "") == s && Replace(s, ',', ".") == s
  {
    NoPointInDigits(s);
    CountPositive(s, '.');
    ReplaceAbsent(s, '.', "");
    NoOtherInDigits(s, ',');
    CountPositive(s, ',');
    ReplaceAbsent(s, ',', ".");
  }

  lemma DigitsJoin(a: string, b: string)
    requires AllDigits(a) && AllDigits(b)
    ensures AllDigits(a + b)
  {
    assert forall i | 0 <= i < |a + b| :: (a + b)[i] == if i < |a| then a[i] else b[i - |a|];
  }

  /** Dropping the one thousands mark of `high.low` followed by a tail. */
  lemma DropOneMark(high: string, low: string, tail: string)
    requires Replace(high, '.', "") == high && Replace(low, '.', "") == low
    requires Replace(tail, '.', "") == tail
    ensures Replace(high + "." + low + tail, '.', "") == high + low + tail
  {
    assert Replace(".", '.', "") == "";
    ReplaceFour(high, ".", low, tail, '.', "");
  }

  /** The one decimal comma of `whole,fraction` becomes a point. */
  lemma CommaToPoint(whole: string, fraction: string)
    requires Replace(whole, ',', ".") == whole && Replace(fraction, ',', ".") == fraction
    ensures Replace(whole + "," + fraction, ',', ".") == whole + "." + fraction
  {
    assert Replace(",", ',', ".") == ".";
    ReplaceConcat(whole, ",", ',', ".");
    ReplaceConcat(whole + ",", fraction, ',', ".");
  }

  /** Normalising `high.low,fraction` runs the digits before the comma together and turns the
      comma into the decimal point. */
  lemma GroupedNormalize(high: string, low: string, fraction: string)
    requires AllDigits(high) && AllDigits(low) && AllDigits(fraction)
    ensures Replace(Replace(high + "." + low + ("," + fraction), '.', ""), ',', ".")
         == high + low + "." + fraction
  {
    var tail := "," + fraction;
    assert Replace(high, '.', "") == high && Replace(high, ',', ".") == high by { DigitsKeep(high); }
    assert Replace(low, '.', "") == low && Replace(low, ',', ".") == low by { DigitsKeep(low); }
    assert Replace(fraction, '.', "") == fraction && Replace(fraction, ',', ".") == fraction by {
      DigitsKeep(fraction);
    }
    assert Replace(tail, '.', "") == tail by {
      assert Replace(",", '.', "") == ",";
      ReplaceConcat(",", fraction, '.', "");
    }
    DropOneMark(high, low, tail);
    assert Replace(high + low, ',', ".") == high + low by { ReplaceConcat(high, low, ',', "."); }
    assert high + low + tail == high + low + "," + fraction;
    CommaToPoint(high + low, fraction);
  }

  /** A price with one thousands mark and a decimal comma reads as its digits run together,
      the ones after the comma being the places. */
  lemma GroupedPrice(high: string, low: string, fraction: string)
    requires AllDigits(high) && AllDigits(low) && AllDigits(fraction) && |high| + |low| > 0
    ensures CleanPrice(high + "." + low + "," + fraction)
         == Success(ValueOf(Literal(Unsigned, high + low, Some(fraction))))
  {
    var l := Literal(Unsigned, high + low, Some(fraction));
    var price := high + "." + low + "," + fraction;
    assert Normalize(price) == high + low + "." + fraction by {
      assert price == high + "." + low + ("," + fraction);
      GroupedNormalize(high, low, fraction);
    }
    assert WellFormed(l) by { DigitsJoin(high, low); }
    assert Render(l) == high + low + "." + fraction;
    CleanPriceOfLiteral(price, l);
  }

  /** A price typed with a decimal point is read a hundred times too large: `55.99` is 5599. */
  lemma PointTypedExample()
    ensures CleanPrice("55.99") == Success(Dec(false, 5599, 0))
  {
    var l := Literal(Unsigned, "5599", None);
    ExampleValues();
    ReadExample("55.99", "5599", l);
  }

  /** A negative price passes: `-5,00` is -5.00. */
  lemma NegativeExample()
    ensures CleanPrice("-5,00") == Success(Dec(true, 500, 2))
    ensures ToReal(Dec(true, 500, 2)) == -5.0
  {
    var l := Literal(Minus, "5", Some("00"));
    ExampleValues();
    ReadExample("-5,00", "-5,00", l);
    Hundredths(true, 500);
  }

  /** Two commas become two points, which no literal has. */
  lemma TwoCommasExample()
    ensures CleanPrice("1,234,56").Failure?
  {
    assert Count("1,234,56", ',') == 2;
  }

  /** The empty text and a text without digits are refused. */
  lemma NoDigitExamples()
    ensures CleanPrice("") == Failure(ValidationError(InvalidPriceMessage))
    ensures CleanPrice("abc") == Failure(ValidationError(InvalidPriceMessage))
  {
    if CleanPrice("").Success? {
      AcceptedHasDigit("");
    }
    if CleanPrice("abc").Success? {
      AcceptedHasDigit("abc");
      assert false;
    }
  }
}
