/** Exact decimal numbers as Python's `decimal.Decimal` builds them from a string.
    Only the finite, exponent-free part of the literal grammar is modelled:
    an optional sign, then digits with at most one decimal point and at least one digit. */
module Decimals {
  import opened Wrappers

  /** A finite decimal: sign, integer coefficient and number of digits after the point.
      `Decimal("-12.50")` is `Dec(true, 1250, 2)`; the sign of zero is kept, as Python keeps it. */
  datatype Dec = Dec(negative: bool, coefficient: nat, places: nat)

  function Pow10(n: nat): (r: nat)
    ensures r >= 1
  {
    if n == 0 then 1 else 10 * Pow10(n - 1)
  }

  /** The number a decimal denotes. */
  function ToReal(d: Dec): real {
    var magnitude := d.coefficient as real / Pow10(d.places) as real;
    if d.negative then -magnitude else magnitude
  }

  predicate IsDigit(c: char) {
    '0' <= c <= '9'
  }

  predicate AllDigits(s: string) {
    forall i | 0 <= i < |s| :: IsDigit(s[i])
  }

  function DigitValue(c: char): nat {
    if IsDigit(c) then c as int - '0' as int else 0
  }

  /** The value of a digit string read in base 10; the empty string reads as 0. */
  function DigitsValue(s: string): nat {
    if s == [] then 0 else DigitValue(s[0]) * Pow10(|s| - 1) + DigitsValue(s[1..])
  }

  /** Appending a digit shifts the value one place left. */
  lemma {:induction false} DigitsValueAppend(s: string, c: char)
    ensures DigitsValue(s + [c]) == 10 * DigitsValue(s) + DigitValue(c)
  {
    if s != [] {
      var t := s + [c];
      assert t[0] == s[0] && t[1..] == s[1..] + [c] && |t| - 1 == |s|;
      var a, b, rest := DigitValue(s[0]), Pow10(|s| - 1), DigitsValue(s[1..]);
      assert DigitsValue(t) == a * (10 * b) + DigitsValue(s[1..] + [c]);
      assert DigitsValue(s[1..] + [c]) == 10 * rest + DigitValue(c) by {
        DigitsValueAppend(s[1..], c);
      }
      assert DigitsValue(t) == 10 * (a * b + rest) + DigitValue(c) by {
        ShiftLeft(a, b, rest, DigitValue(c), DigitsValue(t));
      }
    } else {
      assert [] + [c] == [c];
    }
  }

  /** The arithmetic of one step of `DigitsValueAppend`. */
  lemma ShiftLeft(a: int, b: int, rest: int, d: int, x: int)
    requires x == a * (10 * b) + (10 * rest + d)
    ensures x == 10 * (a * b + rest) + d
  {
    assert a * (10 * b) == 10 * (a * b);
  }

  datatype Sign = Unsigned | Plus | Minus

  /** The parts of a decimal literal: sign, digits before the point, and the digits after
      the point when a point is written (`"5."` has `Some("")`, `"5"` has `None`). */
  datatype Literal = Literal(sign: Sign, whole: string, fraction: Option<string>)

  function FractionDigits(l: Literal): string {
    l.fraction.GetOr("")
  }

  /** A literal Python's `Decimal` accepts: digits only, and at least one digit in all. */
  predicate WellFormed(l: Literal) {
    && AllDigits(l.whole)
    && AllDigits(FractionDigits(l))
    && |l.whole| + |FractionDigits(l)| > 0
  }

  function SignText(s: Sign): string {
    match s
    case Unsigned => ""
    case Plus => "+"
    case Minus => "-"
  }

  /** The text of a literal after its sign. */
  function BodyText(l: Literal): string {
    l.whole + (if l.fraction.Some? then "." + l.fraction.value else "")
  }

  /** The text of a literal. */
  function Render(l: Literal): string {
    SignText(l.sign) + BodyText(l)
  }

  /** `s` is the text of the well-formed literal `l`. */
  predicate Spells(l: Literal, s: string) {
    WellFormed(l) && Render(l) == s
  }

  /** The first position of `c` in `s`, or `|s|` when `c` does not occur. */
  function IndexOf(s: string, c: char): (k: nat)
    ensures k <= |s|
    ensures k < |s| ==> s[k] == c
    ensures forall i | 0 <= i < k :: s[i] != c
  {
    if s == [] then 0
    else if s[0] == c then 0
    else 1 + IndexOf(s[1..], c)
  }

  /** Splits an optional leading sign off a literal's text. */
  function SplitSign(s: string): (Sign, string) {
    if |s| > 0 && s[0] == '+' then (Plus, s[1..])
    else if |s| > 0 && s[0] == '-' then (Minus, s[1..])
    else (Unsigned, s)
  }

  /** Reads the unsigned part of a literal: digits with at most one point. */
  function ScanBody(sign: Sign, body: string): (r: Option<Literal>)
    ensures r.Some? ==> WellFormed(r.value) && r.value.sign == sign && BodyText(r.value) == body
  {
    var k := IndexOf(body, '.');
    if k == |body| then
      if |body| > 0 && AllDigits(body) then Some(Literal(sign, body, None)) else None
    else
      var whole, fraction := body[..k], body[k + 1..];
      assert body == whole + "." + fraction;
      if AllDigits(whole) && AllDigits(fraction) && |whole| + |fraction| > 0
      then Some(Literal(sign, whole, Some(fraction)))
      else None
  }

  /** Reads the text of a decimal literal; `None` is Python's `InvalidOperation`. */
  function Scan(s: string): (r: Option<Literal>)
    ensures r.Some? ==> WellFormed(r.value) && Render(r.value) == s
  {
    var (sign, body) := SplitSign(s);
    assert SignText(sign) + body == s;
    ScanBody(sign, body)
  }

  /** A sign is split off again from the front of a text that does not start with one. */
  lemma SplitSignText(sign: Sign, body: string)
    requires |body| > 0 && body[0] != '+' && body[0] != '-'
    ensures SplitSign(SignText(sign) + body) == (sign, body)
  {
    var s := SignText(sign) + body;
    if sign != Unsigned {
      assert s[0] == SignText(sign)[0] && s[1..] == body;
    } else {
      assert s == body;
    }
  }

  /** The body of a well-formed literal is read back as that literal. */
  lemma ScanBodyText(l: Literal)
    requires WellFormed(l)
    ensures ScanBody(l.sign, BodyText(l)) == Some(l)
  {
    var body := BodyText(l);
    var k := IndexOf(body, '.');
    if l.fraction.Some? {
      assert body == l.whole + "." + l.fraction.value;
      assert body[|l.whole|] == '.';
      assert k == |l.whole|;
      assert body[..k] == l.whole;
      assert body[k + 1..] == l.fraction.value;
    } else {
      assert body == l.whole;
      assert k == |body|;
    }
  }

  /** Every well-formed literal is read back from its own text. */
  lemma ScanRender(l: Literal)
    requires WellFormed(l)
    ensures Scan(Render(l)) == Some(l)
  {
    var body := BodyText(l);
    assert |body| > 0 && (IsDigit(body[0]) || body[0] == '.') by {
      if |l.whole| > 0 {
        assert body[0] == l.whole[0];
      } else {
        assert body == "." + l.fraction.value;
      }
    }
    SplitSignText(l.sign, body);
    ScanBodyText(l);
  }

  /** Distinct well-formed literals have distinct texts, so a text names at most one literal. */
  lemma RenderInjective(l1: Literal, l2: Literal)
    requires WellFormed(l1) && WellFormed(l2)
    requires Render(l1) == Render(l2)
    ensures l1 == l2
  {
    ScanRender(l1);
    ScanRender(l2);
  }

  /** A text is accepted exactly when it is the text of a well-formed literal. */
  lemma ScanAcceptsExactly(s: string)
    ensures Scan(s).Some? <==> exists l :: Spells(l, s)
  {
    if exists l :: Spells(l, s) {
      var l :| Spells(l, s);
      ScanRender(l);
    }
    if Scan(s).Some? {
      assert Spells(Scan(s).value, s);
    }
  }

  /** The decimal a literal denotes: all its digits form the coefficient and the digits
      after the point count the places, as `Decimal("12.50")` keeps two places. */
  function ValueOf(l: Literal): Dec {
    Dec(l.sign == Minus, DigitsValue(l.whole + FractionDigits(l)), |FractionDigits(l)|)
  }

  /** A text names at most one well-formed literal, and the reader finds it. */
  lemma ScanSpelled(s: string)
    ensures forall l | Spells(l, s) :: Scan(s) == Some(l)
  {
    forall l | Spells(l, s)
      ensures Scan(s) == Some(l)
    {
      ScanRender(l);
    }
  }

  /** Python's `Decimal(s)` on the modelled grammar: the decimal, or `None` for `InvalidOperation`. */
  function ParseDecimal(s: string): (r: Option<Dec>)
    ensures r.Some? <==> exists l :: Spells(l, s)
    ensures forall l | Spells(l, s) :: r == Some(ValueOf(l))
  {
    ScanAcceptsExactly(s);
    ScanSpelled(s);
    match Scan(s)
    case None => None
    case Some(l) => Some(ValueOf(l))
  }

  /** Python's `int(s)` on the modelled grammar: a sign and digits, with no point. */
  function ParseInt(s: string): (r: Option<int>)
    ensures r.Some? <==> exists l :: Spells(l, s) && l.fraction.None?
    ensures forall l | Spells(l, s) && l.fraction.None? :: r.Some? && r.value as real == ToReal(ValueOf(l))
  {
    ScanSpelled(s);
    match Scan(s)
    case Some(l) =>
      if l.fraction.None? then
        var n: int := DigitsValue(l.whole);
        assert l.whole + FractionDigits(l) == l.whole;
        WholeToReal(ValueOf(l));
        assert Spells(l, s);
        Some(if l.sign == Minus then -n else n)
      else None
    case None => None
  }

  /** A decimal without places denotes its signed coefficient. */
  lemma WholeToReal(d: Dec)
    requires d.places == 0
    ensures ToReal(d) == if d.negative then -(d.coefficient as real) else d.coefficient as real
  {
    assert Pow10(0) == 1;
  }

  /** The digits of a natural number, most significant first, without leading zeros. */
  function NatToDigits(n: nat): (s: string)
    ensures |s| > 0 && AllDigits(s)
    ensures DigitsValue(s) == n
  {
    var last := '0' + (n % 10) as char;
    assert DigitValue(last) == n % 10;
    if n < 10 then
      [last]
    else
      var init := NatToDigits(n / 10);
      DigitsValueAppend(init, last);
      init + [last]
  }

  function Zeros(k: nat): (s: string)
    ensures |s| == k && AllDigits(s)
    ensures forall i | 0 <= i < k :: s[i] == '0'
  {
    if k == 0 then [] else ['0'] + Zeros(k - 1)
  }

  /** Leading zeros do not change the value of a digit string. */
  lemma {:induction false} DigitsValueZeros(k: nat, s: string)
    ensures DigitsValue(Zeros(k) + s) == DigitsValue(s)
  {
    if k == 0 {
      assert Zeros(k) + s == s;
    } else {
      assert (Zeros(k) + s)[1..] == Zeros(k - 1) + s;
      DigitsValueZeros(k - 1, s);
    }
  }

  /** The digits of `n` padded with leading zeros to at least `width` digits. */
  function PaddedDigits(n: nat, width: nat): (s: string)
    ensures |s| >= width && |s| > 0 && AllDigits(s)
    ensures DigitsValue(s) == n
  {
    var digits := NatToDigits(n);
    var pad := if |digits| < width then width - |digits| else 0;
    DigitsValueZeros(pad, digits);
    Zeros(pad) + digits
  }
}
