/**
 * systemd-analyze output as read by src/boot_config.rs: durations, phases and the total, in seconds over exact reals.
 */
module Systemd {
  import opened Text

  // ---- one duration ----

  predicate IsLetter(c: char) {
    'a' <= c <= 'z' || 'A' <= c <= 'Z'
  }

  function FirstLetter(s: string): (i: nat)
    ensures i <= |s|
  {
    if s == "" || IsLetter(s[0]) then 0 else 1 + FirstLetter(s[1..])
  }

  /** 0.d1d2d3... */
  function Fraction(digits: string): real
    requires AllDigits(digits, 10)
  {
    if digits == "" then 0.0 else (DigitValue(digits[0]) as real + Fraction(digits[1..])) / 10.0
  }

  function Magnitude(whole: string, digits: string): Option<real> {
    if whole + digits == "" || !AllDigits(whole, 10) || !AllDigits(digits, 10) then None
    else Some(Number(whole, 10) as real + Fraction(digits))
  }

  function ParseUnsignedReal(s: string): Option<real> {
    var dot := IndexOf(s, '.');
    Magnitude(s[..dot], if dot < |s| then s[dot + 1..] else "")
  }

  /**
   * f64::from_str on text without letters: an optional sign, digits, an optional point and digits; at least one digit.
   */
  function ParseReal(s: string): Option<real> {
    if s != "" && s[0] == '+' then ParseUnsignedReal(s[1..])
    else if s != "" && s[0] == '-' then
      match ParseUnsignedReal(s[1..])
      case None => None
      case Some(v) => Some(-v)
    else ParseUnsignedReal(s)
  }

  function Scale(unit: string): Option<real> {
    if unit == "h" then Some(3600.0)
    else if unit == "min" then Some(60.0)
    else if unit == "s" then Some(1.0)
    else if unit == "ms" then Some(0.001)
    else if unit == "us" then Some(0.000001)
    else None
  }

  function Scaled(value: real, scale: real): real {
    value * scale
  }

  /** Seconds of one `<number><unit>` word; nothing for any other word. */
  function TokenSeconds(token: string): Option<real> {
    var at := FirstLetter(token);
    var value, scale := ParseReal(token[..at]), Scale(token[at..]);
    if at < |token| && value.Some? && scale.Some? then Some(Scaled(value.value, scale.value)) else None
  }

  function Plus(a: Option<real>, b: Option<real>): Option<real> {
    if a.None? then b else if b.None? then a else Some(a.value + b.value)
  }

  /** Sum over the words that are durations; nothing when none is. */
  function Total(tokens: seq<string>): Option<real> {
    if tokens == [] then None
    else
      var n := |tokens| - 1;
      Plus(Total(tokens[..n]), TokenSeconds(tokens[n]))
  }

  function Duration(text: string): Option<real> {
    Total(Tokens(text))
  }

  /** parse_systemd_duration. */
  method ParseSystemdDuration(text: string) returns (r: Option<real>)
    ensures r == Duration(text)
  {
    hide ParseReal, Scale, Scaled, FirstLetter, TokensFrom;
    var total := 0.0;
    var found := false;
    var tokens := Tokens(text);
    for k := 0 to |tokens|
      invariant Total(tokens[..k]) == if found then Some(total) else None
      invariant !found ==> total == 0.0
    {
      assert tokens[..k + 1][..k] == tokens[..k] && tokens[..k + 1][k] == tokens[k];
      assert Total(tokens[..k + 1]) == Plus(Total(tokens[..k]), TokenSeconds(tokens[k]));
      var token := tokens[k];
      var unitAt := FirstLetter(token);
      if unitAt == |token| {
        continue;
      }
      var value := ParseReal(token[..unitAt]);
      if value.None? {
        continue;
      }
      var scale := Scale(token[unitAt..]);
      if scale.None? {
        continue;
      }
      total := total + Scaled(value.value, scale.value);
      found := true;
    }
    assert tokens[..|tokens|] == tokens;
    r := if found then Some(total) else None;
  }

  lemma {:induction false} TotalConcat(a: seq<string>, b: seq<string>)
    ensures Total(a + b) == Plus(Total(a), Total(b))
  {
    hide TokenSeconds;
    if b == [] {
      assert a + b == a;
    } else {
      var n := |b| - 1;
      assert (a + b)[..|a| + n] == a + b[..n];
      TotalConcat(a, b[..n]);
    }
  }

  /** Durations add over text joined by a space. */
  lemma DurationConcat(a: string, b: string)
    ensures Duration(a + " " + b) == Plus(Duration(a), Duration(b))
  {
    TokensConcat(a, b);
    TotalConcat(Tokens(a), Tokens(b));
  }

  // ---- numbers as text ----

  predicate AllDecimal(s: string) {
    forall i :: 0 <= i < |s| ==> '0' <= s[i] <= '9'
  }

  function Pow10(n: nat): (p: nat)
    ensures p > 0
  {
    if n == 0 then 1 else 10 * Pow10(n - 1)
  }

  function Over(n: nat, p: nat): real
    requires p > 0
  {
    n as real / p as real
  }

  /** The number written w.f: all its digits read as one whole number, over ten to the number of places. */
  function DecimalValue(w: string, f: string): real
    requires AllDecimal(w) && AllDecimal(f)
  {
    DecimalDigits(w + f);
    Over(Number(w + f, 10), Pow10(|f|))
  }

  datatype Sign = Unsigned | Positive | Negative

  /** A number as it may be written: a sign, digits, a point and digits, of which one digit is required. */
  datatype Numeral = Numeral(sign: Sign, whole: string, point: bool, digits: string)

  predicate IsNumeral(n: Numeral) {
    && AllDecimal(n.whole) && AllDecimal(n.digits) && n.whole + n.digits != ""
    && (n.digits != "" ==> n.point)
  }

  function SignText(sign: Sign): string {
    match sign
    case Unsigned => ""
    case Positive => "+"
    case Negative => "-"
  }

  function PlainText(w: string, point: bool, f: string): string {
    if point then w + ['.'] + f else w
  }

  function NumeralText(n: Numeral): string {
    SignText(n.sign) + PlainText(n.whole, n.point, n.digits)
  }

  function NumeralValue(n: Numeral): real
    requires IsNumeral(n)
  {
    if n.sign == Negative then -DecimalValue(n.whole, n.digits) else DecimalValue(n.whole, n.digits)
  }

  lemma DecimalDigits(s: string)
    ensures AllDigits(s, 10) <==> AllDecimal(s)
  {
  }

  lemma NumberLast(s: string)
    requires s != "" && AllDigits(s, 10)
    ensures AllDigits(s[..|s| - 1], 10)
    ensures Number(s, 10) == Number(s[..|s| - 1], 10) * 10 + DigitValue(s[|s| - 1])
  {
  }

  lemma AppendDigit(a: nat, p: nat, b: nat, d: int)
    ensures (a * p + b) * 10 + d == a * (10 * p) + (b * 10 + d)
  {
    assert a * (10 * p) == (a * p) * 10;
  }

  lemma {:induction false} NumberConcat(a: string, b: string)
    requires AllDigits(a, 10) && AllDigits(b, 10)
    ensures AllDigits(a + b, 10) && Number(a + b, 10) == Number(a, 10) * Pow10(|b|) + Number(b, 10)
  {
    if b == "" {
      assert a + b == a;
      hide AllDigits;
      assert Number(b, 10) == 0 && Pow10(|b|) == 1;
      assert Number(a, 10) * 1 == Number(a, 10);
    } else {
      var n := |b| - 1;
      assert (a + b)[..|a| + n] == a + b[..n] && (a + b)[|a| + n] == b[n];
      NumberConcat(a, b[..n]);
      NumberLast(a + b);
      NumberLast(b);
      assert Pow10(|b|) == 10 * Pow10(n);
      hide *;
      AppendDigit(Number(a, 10), Pow10(n), Number(b[..n], 10), DigitValue(b[n]));
    }
  }

  lemma DigitNumber(c: char)
    requires 0 <= DigitValue(c) < 10
    ensures AllDigits([c], 10) && Number([c], 10) == DigitValue(c)
  {
    assert [c][..0] == "";
  }

  /** The number v is n over p. */
  predicate IsRatio(v: real, n: nat, p: nat) {
    v * p as real == n as real
  }

  lemma RatioShift(v: real, d: nat, n: nat, p: nat)
    requires IsRatio(v, n, p)
    ensures IsRatio((d as real + v) / 10.0, d * p + n, 10 * p)
  {
    var x, q := (d as real + v) / 10.0, p as real;
    assert (d * p) as real == d as real * q;
    assert (10 * p) as real == 10.0 * q;
    assert x * (10.0 * q) == (x * 10.0) * q;
    assert (d as real + v) * q == d as real * q + v * q;
  }

  lemma RatioSum(whole: nat, v: real, n: nat, p: nat)
    requires p > 0 && IsRatio(v, n, p)
    ensures whole as real + v == Over(whole * p + n, p)
  {
    var q := p as real;
    assert (whole * p) as real == whole as real * q;
    assert (whole as real + v) * q == whole as real * q + v * q;
    assert ((whole as real + v) * q) / q == whole as real + v;
  }

  lemma FractionFirst(f: string)
    requires f != "" && AllDigits(f, 10)
    ensures AllDigits(f[1..], 10) && Fraction(f) == (DigitValue(f[0]) as real + Fraction(f[1..])) / 10.0
  {
  }

  lemma NumberFirst(f: string)
    requires f != "" && AllDigits(f, 10)
    ensures AllDigits(f[1..], 10)
    ensures Number(f, 10) == DigitValue(f[0]) * Pow10(|f| - 1) + Number(f[1..], 10)
  {
    DigitNumber(f[0]);
    assert [f[0]] + f[1..] == f;
    NumberConcat([f[0]], f[1..]);
  }

  /** The digits after the point are their whole number over the power of ten. */
  lemma {:induction false} FractionIs(f: string)
    requires AllDigits(f, 10)
    ensures IsRatio(Fraction(f), Number(f, 10), Pow10(|f|))
  {
    if f == "" {
    } else {
      var rest := f[1..];
      FractionFirst(f);
      NumberFirst(f);
      FractionIs(rest);
      assert Pow10(|f|) == 10 * Pow10(|rest|);
      hide *;
      RatioShift(Fraction(rest), DigitValue(f[0]), Number(rest, 10), Pow10(|rest|));
    }
  }

  lemma MagnitudeIs(w: string, f: string)
    requires AllDecimal(w) && AllDecimal(f) && w + f != ""
    ensures Magnitude(w, f) == Some(DecimalValue(w, f))
  {
    DecimalDigits(w);
    DecimalDigits(f);
    DecimalDigits(w + f);
    FractionIs(f);
    NumberConcat(w, f);
    var p, whole, g, n := Pow10(|f|), Number(w, 10), Fraction(f), Number(f, 10);
    assert DecimalValue(w, f) == Over(Number(w + f, 10), p);
    assert Magnitude(w, f) == Some(whole as real + g);
    hide *;
    RatioSum(whole, g, n, p);
  }

  lemma NoPoint(s: string)
    requires AllDecimal(s)
    ensures IndexOf(s, '.') == |s| && '.' !in s
  {
    var i := IndexOf(s, '.');
  }

  lemma PlainNumberReads(w: string, point: bool, f: string)
    requires AllDecimal(w) && AllDecimal(f) && w + f != "" && (f != "" ==> point)
    ensures ParseUnsignedReal(PlainText(w, point, f)) == Some(DecimalValue(w, f))
  {
    NoPoint(w);
    MagnitudeIs(w, f);
    hide Magnitude, DecimalValue, AllDecimal;
    var text := PlainText(w, point, f);
    if point {
      IndexOfIs(w, '.', f);
      hide IndexOf;
      assert text[..|w|] == w && text[|w| + 1..] == f;
    } else {
      assert text[..|w|] == w;
    }
  }

  lemma PlainStart(w: string, point: bool, f: string)
    requires AllDecimal(w) && AllDecimal(f) && w + f != "" && (f != "" ==> point)
    ensures var t := PlainText(w, point, f); t != "" && t[0] != '+' && t[0] != '-'
    ensures forall i :: 0 <= i < |PlainText(w, point, f)| ==> !IsLetter(PlainText(w, point, f)[i])
  {
  }

  lemma NumeralChars(n: Numeral)
    requires IsNumeral(n)
    ensures forall i :: 0 <= i < |NumeralText(n)| ==> !IsLetter(NumeralText(n)[i])
  {
    PlainStart(n.whole, n.point, n.digits);
    var sign, text, all := SignText(n.sign), PlainText(n.whole, n.point, n.digits), NumeralText(n);
    hide PlainText, IsNumeral;
    forall i | 0 <= i < |all|
      ensures !IsLetter(all[i])
    {
      assert all[i] == if i < |sign| then sign[i] else text[i - |sign|];
    }
  }

  lemma SignReads(text: string, v: real)
    requires ParseUnsignedReal(text) == Some(v)
    requires text != "" && text[0] != '+' && text[0] != '-'
    ensures ParseReal(text) == Some(v) && ParseReal("+" + text) == Some(v) && ParseReal("-" + text) == Some(-v)
  {
    hide ParseUnsignedReal;
    assert ("+" + text)[1..] == text && ("-" + text)[1..] == text;
  }

  /** Every number that can be written reads back as its exact value. */
  lemma NumeralReads(n: Numeral)
    requires IsNumeral(n)
    ensures ParseReal(NumeralText(n)) == Some(NumeralValue(n))
  {
    var text, v := PlainText(n.whole, n.point, n.digits), DecimalValue(n.whole, n.digits);
    PlainNumberReads(n.whole, n.point, n.digits);
    PlainStart(n.whole, n.point, n.digits);
    NumeralParts(n, text, v);
    hide *;
    SignReads(text, v);
  }

  lemma NumeralParts(n: Numeral, text: string, v: real)
    requires IsNumeral(n) && text == PlainText(n.whole, n.point, n.digits) && v == DecimalValue(n.whole, n.digits)
    ensures NumeralText(n) == if n.sign == Unsigned then text else if n.sign == Positive then "+" + text else "-" + text
    ensures NumeralValue(n) == if n.sign == Negative then -v else v
  {
    hide PlainText, DecimalValue, IsNumeral;
  }

  /** The unsigned number a text spells, when it spells one. */
  function Spelled(s: string, sign: Sign): Numeral {
    var dot := IndexOf(s, '.');
    Numeral(sign, s[..dot], dot < |s|, if dot < |s| then s[dot + 1..] else "")
  }

  lemma SpelledIs(s: string, sign: Sign)
    requires ParseUnsignedReal(s).Some?
    ensures IsNumeral(Spelled(s, sign)) && NumeralText(Spelled(s, sign)) == SignText(sign) + s
  {
    var n := Spelled(s, sign);
    DecimalDigits(n.whole);
    DecimalDigits(n.digits);
    hide AllDigits, AllDecimal, Fraction, Number;
    assert PlainText(n.whole, n.point, n.digits) == s;
  }

  lemma NoRealInNothing()
    ensures ParseReal("") == None
  {
  }

  lemma RealSpelled(s: string) returns (n: Numeral)
    requires s != "" && ParseReal(s).Some?
    ensures IsNumeral(n) && s == NumeralText(n)
  {
    hide ParseUnsignedReal, IsNumeral, NumeralText;
    if s[0] == '+' {
      n := Spelled(s[1..], Positive);
      SpelledIs(s[1..], Positive);
      assert s == "+" + s[1..];
    } else if s[0] == '-' {
      n := Spelled(s[1..], Negative);
      SpelledIs(s[1..], Negative);
      assert s == "-" + s[1..];
    } else {
      n := Spelled(s, Unsigned);
      SpelledIs(s, Unsigned);
      assert s == "" + s;
    }
  }

  /** Exactly the texts of that form are numbers. */
  lemma RealIff(s: string)
    ensures ParseReal(s).Some? <==> exists n :: IsNumeral(n) && s == NumeralText(n)
  {
    hide ParseReal, IsNumeral, NumeralText;
    if n :| IsNumeral(n) && s == NumeralText(n) {
      NumeralReads(n);
    }
    if ParseReal(s).Some? {
      NoRealInNothing();
      var n := RealSpelled(s);
    }
  }

  // ---- printed durations ----

  datatype Unit = Hours | Minutes | Seconds | Millis | Micros

  function UnitText(u: Unit): string {
    match u
    case Hours => "h"
    case Minutes => "min"
    case Seconds => "s"
    case Millis => "ms"
    case Micros => "us"
  }

  function UnitScale(u: Unit): real {
    match u
    case Hours => 3600.0
    case Minutes => 60.0
    case Seconds => 1.0
    case Millis => 0.001
    case Micros => 0.000001
  }

  /** One printed amount such as 2min or 31.3s. */
  datatype Amount = Amount(whole: nat, digits: string, unit: Unit)

  predicate IsAmount(a: Amount) {
    AllDecimal(a.digits)
  }

  function NumberText(a: Amount): string {
    if a.digits == "" then Decimal(a.whole) else Decimal(a.whole) + ['.'] + a.digits
  }

  function AmountText(a: Amount): string {
    NumberText(a) + UnitText(a.unit)
  }

  /** The number whose digits are printed, over the power of ten the point stands for, in the unit's seconds. */
  function AmountSeconds(a: Amount): real
    requires IsAmount(a)
  {
    DecimalReads(a.whole);
    DecimalValue(Decimal(a.whole), a.digits) * UnitScale(a.unit)
  }

  predicate AreAmounts(amounts: seq<Amount>) {
    forall i :: 0 <= i < |amounts| ==> IsAmount(amounts[i])
  }

  function SpanSeconds(amounts: seq<Amount>): real
    requires AreAmounts(amounts)
  {
    if amounts == [] then 0.0
    else
      var n := |amounts| - 1;
      SpanSeconds(amounts[..n]) + AmountSeconds(amounts[n])
  }

  function Words(amounts: seq<Amount>): (r: seq<string>)
    ensures |r| == |amounts| && forall i :: 0 <= i < |r| ==> r[i] == AmountText(amounts[i])
  {
    seq(|amounts|, i requires 0 <= i < |amounts| => AmountText(amounts[i]))
  }

  function SpanText(amounts: seq<Amount>): string {
    Join(Words(amounts), " ")
  }

  lemma {:induction false} FirstLetterAfter(a: string, b: string)
    requires forall i :: 0 <= i < |a| ==> !IsLetter(a[i])
    requires b != "" && IsLetter(b[0])
    ensures FirstLetter(a + b) == |a|
  {
    if a == "" {
      assert a + b == b;
    } else {
      assert (a + b)[1..] == a[1..] + b;
      FirstLetterAfter(a[1..], b);
    }
  }

  lemma NumberChars(a: Amount)
    requires IsAmount(a)
    ensures forall i :: 0 <= i < |NumberText(a)| ==> '0' <= NumberText(a)[i] <= '9' || NumberText(a)[i] == '.'
    ensures NumberText(a) != "" && '0' <= NumberText(a)[0] <= '9'
  {
    DecimalReads(a.whole);
    hide Decimal, Number;
    var d, t := Decimal(a.whole), NumberText(a);
    if a.digits != "" {
      forall i | 0 <= i < |t|
        ensures '0' <= t[i] <= '9' || t[i] == '.'
      {
        assert t[i] == if i < |d| then d[i] else if i == |d| then '.' else a.digits[i - |d| - 1];
      }
    }
  }

  function AmountNumeral(a: Amount): Numeral {
    Numeral(Unsigned, Decimal(a.whole), a.digits != "", a.digits)
  }

  function NumeralSeconds(n: Numeral, u: Unit): real
    requires IsNumeral(n)
  {
    NumeralValue(n) * UnitScale(u)
  }

  lemma AmountIsNumeral(a: Amount)
    requires IsAmount(a)
    ensures IsNumeral(AmountNumeral(a)) && NumeralText(AmountNumeral(a)) == NumberText(a)
    ensures NumeralSeconds(AmountNumeral(a), a.unit) == AmountSeconds(a)
  {
    DecimalReads(a.whole);
    hide Decimal, Number, DecimalValue;
  }

  /** Characters a printed duration is made of. */
  predicate IsSpanChar(c: char) {
    '0' <= c <= '9' || c == '.' || c == ' ' || c == 'h' || c == 'm' || c == 'i' || c == 'n' || c == 's' || c == 'u'
  }

  lemma UnitReads(u: Unit)
    ensures Scale(UnitText(u)) == Some(UnitScale(u))
    ensures UnitText(u) != "" && IsLetter(UnitText(u)[0])
  {
  }

  lemma UnitChars(u: Unit)
    ensures forall i :: 0 <= i < |UnitText(u)| ==> IsSpanChar(UnitText(u)[i]) && !IsSpace(UnitText(u)[i])
  {
  }

  lemma AmountChars(a: Amount)
    requires IsAmount(a)
    ensures IsWord(AmountText(a)) && '0' <= AmountText(a)[0] <= '9'
    ensures forall c :: c in AmountText(a) ==> IsSpanChar(c)
  {
    NumberChars(a);
    UnitChars(a.unit);
    UnitReads(a.unit);
    hide NumberText, UnitText, ParseReal, Scale;
    var n, u, t := NumberText(a), UnitText(a.unit), AmountText(a);
    forall i | 0 <= i < |t|
      ensures IsSpanChar(t[i]) && !IsSpace(t[i])
    {
      assert t[i] == if i < |n| then n[i] else u[i - |n|];
    }
  }

  lemma TokenReads(n: string, u: string, value: real, scale: real)
    requires forall i :: 0 <= i < |n| ==> !IsLetter(n[i])
    requires u != "" && IsLetter(u[0])
    requires ParseReal(n) == Some(value) && Scale(u) == Some(scale)
    ensures TokenSeconds(n + u) == Some(Scaled(value, scale))
  {
    hide ParseReal, Scale, Scaled;
    FirstLetterAfter(n, u);
    assert (n + u)[..|n|] == n && (n + u)[|n|..] == u;
  }

  lemma SecondsAreScaled(n: Numeral, u: Unit)
    requires IsNumeral(n)
    ensures Scaled(NumeralValue(n), UnitScale(u)) == NumeralSeconds(n, u)
  {
    hide NumeralValue, UnitScale, IsNumeral;
  }

  /** A number followed by a unit is that many units. */
  lemma WordReads(n: Numeral, u: Unit)
    requires IsNumeral(n)
    ensures TokenSeconds(NumeralText(n) + UnitText(u)) == Some(NumeralSeconds(n, u))
  {
    hide *;
    NumeralReads(n);
    NumeralChars(n);
    UnitReads(u);
    SecondsAreScaled(n, u);
    TokenReads(NumeralText(n), UnitText(u), NumeralValue(n), UnitScale(u));
  }

  lemma WordSpelled(token: string) returns (n: Numeral, u: Unit)
    requires TokenSeconds(token).Some?
    ensures IsNumeral(n) && token == NumeralText(n) + UnitText(u)
  {
    var at := FirstLetter(token);
    hide ParseReal, Scale, NumeralText, UnitText, FirstLetter, IsNumeral, Scaled;
    RealIff(token[..at]);
    UnitNamed(token[at..]);
    n :| IsNumeral(n) && token[..at] == NumeralText(n);
    u :| token[at..] == UnitText(u);
    assert token == token[..at] + token[at..];
  }

  /** Exactly the words made of a number and a unit are durations; every other word is skipped. */
  lemma WordIff(token: string)
    ensures TokenSeconds(token).Some? <==> exists n, u :: IsNumeral(n) && token == NumeralText(n) + UnitText(u)
  {
    hide TokenSeconds, NumeralText, UnitText, IsNumeral;
    if n, u :| IsNumeral(n) && token == NumeralText(n) + UnitText(u) {
      WordReads(n, u);
    }
    if TokenSeconds(token).Some? {
      var n, u := WordSpelled(token);
      assert IsNumeral(n) && token == NumeralText(n) + UnitText(u);
    }
  }

  lemma UnitNamed(unit: string)
    ensures Scale(unit).Some? <==> exists u :: unit == UnitText(u)
  {
    if Scale(unit).Some? {
      var u := if unit == "h" then Hours else if unit == "min" then Minutes else if unit == "s" then Seconds
               else if unit == "ms" then Millis else Micros;
      assert unit == UnitText(u);
    }
  }

  /** A printed amount reads back as its exact number of seconds. */
  lemma AmountReads(a: Amount)
    requires IsAmount(a)
    ensures TokenSeconds(AmountText(a)) == Some(AmountSeconds(a))
  {
    AmountIsNumeral(a);
    hide *;
    WordReads(AmountNumeral(a), a.unit);
    AmountTextIs(a);
  }

  lemma AmountTextIs(a: Amount)
    ensures AmountText(a) == NumberText(a) + UnitText(a.unit)
  {
  }

  /** The seconds of an amount from whole numbers: nothing of its digits is lost. */
  lemma SecondsAreExact(a: Amount)
    requires IsAmount(a)
    ensures AllDigits(a.digits, 10)
    ensures var p := Pow10(|a.digits|);
      AmountSeconds(a) == Over(a.whole * p + Number(a.digits, 10), p) * UnitScale(a.unit)
  {
    DecimalReads(a.whole);
    DecimalDigits(a.digits);
    DecimalDigits(Decimal(a.whole) + a.digits);
    NumberConcat(Decimal(a.whole), a.digits);
    hide Decimal, Number, Pow10, AllDigits, UnitScale, Over;
  }

  lemma {:induction false} WordsTotal(amounts: seq<Amount>)
    requires AreAmounts(amounts)
    ensures Total(Words(amounts)) == if amounts == [] then None else Some(SpanSeconds(amounts))
  {
    hide AmountText, TokenSeconds, AmountSeconds;
    if amounts == [] {
    } else {
      var n := |amounts| - 1;
      assert Words(amounts)[..n] == Words(amounts[..n]);
      WordsTotal(amounts[..n]);
      AmountReads(amounts[n]);
    }
  }

  lemma {:induction false} JoinChars(words: seq<string>)
    requires forall i, c :: 0 <= i < |words| && c in words[i] ==> IsSpanChar(c)
    ensures forall c :: c in Join(words, " ") ==> IsSpanChar(c)
  {
    if |words| <= 1 {
    } else {
      JoinChars(words[1..]);
    }
  }

  /** A printed duration reads back as its exact sum of seconds. */
  lemma SpanReads(amounts: seq<Amount>)
    requires AreAmounts(amounts) && amounts != []
    ensures Duration(SpanText(amounts)) == Some(SpanSeconds(amounts))
    ensures Tokens(SpanText(amounts)) == Words(amounts)
    ensures SpanText(amounts) != "" && '0' <= SpanText(amounts)[0] <= '9'
    ensures forall c :: c in SpanText(amounts) ==> IsSpanChar(c)
  {
    hide AmountText, TokenSeconds, AmountSeconds, IsSpanChar, NoSpace;
    var words := Words(amounts);
    forall i | 0 <= i < |words|
      ensures IsWord(words[i]) && '0' <= words[i][0] <= '9' && forall c :: c in words[i] ==> IsSpanChar(c)
    {
      AmountChars(amounts[i]);
    }
    TokensJoin(words);
    WordsTotal(amounts);
    JoinChars(words);
    FirstOfJoin(words);
  }

  lemma FirstOfJoin(words: seq<string>)
    requires words != [] && words[0] != ""
    ensures Join(words, " ") != "" && Join(words, " ")[0] == words[0][0]
  {
  }

  // ---- phases and total ----

  datatype BootTime = BootTime(
    total: real,
    firmware: Option<real>,
    bootloader: Option<real>,
    kernel: Option<real>,
    userspace: Option<real>)

  /** One part of the output between plus signs. The text after '=' is the total, not a phase. */
  function ReadPart(part: string, t: BootTime): BootTime {
    var phase := Trim(Split(part, '=')[0]);
    match Duration(phase)
    case None => t
    case Some(secs) =>
      if Contains(phase, "firmware") then t.(firmware := Some(secs))
      else if Contains(phase, "loader") then t.(bootloader := Some(secs))
      else if Contains(phase, "kernel") then t.(kernel := Some(secs))
      else if Contains(phase, "userspace") then t.(userspace := Some(secs))
      else t
  }

  function ReadParts(parts: seq<string>, t: BootTime): BootTime {
    if parts == [] then t else ReadParts(parts[1..], ReadPart(parts[0], t))
  }

  function FirstLine(s: string): string {
    if Lines(s) == [] then "" else Lines(s)[0]
  }

  function ReadTotal(stdout: string, t: BootTime): BootTime {
    var at := IndexOf(stdout, '=');
    if at == |stdout| then t
    else
      match Duration(FirstLine(stdout[at + 1..]))
      case None => t
      case Some(secs) => t.(total := secs)
  }

  function ReadAnalyze(stdout: string, t: BootTime): BootTime {
    ReadTotal(stdout, ReadParts(Split(stdout, '+'), t))
  }

  class BootMonitor {
    var bootTime: BootTime

    constructor ()
      ensures bootTime == BootTime(0.0, None, None, None, None)
    {
      bootTime := BootTime(0.0, None, None, None, None);
    }

    /** The part of linux_read_boot_time that takes the output of systemd-analyze. */
    method ReadSystemdAnalyze(stdout: string)
      modifies this
      ensures bootTime == ReadAnalyze(stdout, old(bootTime))
    {
      hide Trim, Contains, Duration;
      var parts := Split(stdout, '+');
      ghost var was := bootTime;
      for k := 0 to |parts|
        invariant ReadParts(parts[k..], bootTime) == ReadParts(parts, was)
      {
        assert parts[k..][1..] == parts[k + 1..] && parts[k..][0] == parts[k];
        var part := Trim(Split(parts[k], '=')[0]);
        var secs := ParseSystemdDuration(part);
        if secs.Some? {
          var duration := secs.value;
          if Contains(part, "firmware") {
            bootTime := bootTime.(firmware := Some(duration));
          } else if Contains(part, "loader") {
            bootTime := bootTime.(bootloader := Some(duration));
          } else if Contains(part, "kernel") {
            bootTime := bootTime.(kernel := Some(duration));
          } else if Contains(part, "userspace") {
            bootTime := bootTime.(userspace := Some(duration));
          }
        }
      }
      var eqPos := IndexOf(stdout, '=');
      if eqPos < |stdout| {
        var secs := ParseSystemdDuration(FirstLine(stdout[eqPos + 1..]));
        if secs.Some? {
          bootTime := bootTime.(total := secs.value);
        }
      }
    }
  }

  // ---- the line systemd-analyze prints ----

  datatype Label = Firmware | Loader | Kernel | Initrd | Userspace

  function LabelText(l: Label): string {
    match l
    case Firmware => "firmware"
    case Loader => "loader"
    case Kernel => "kernel"
    case Initrd => "initrd"
    case Userspace => "userspace"
  }

  datatype Phase = Phase(amounts: seq<Amount>, name: Label)

  predicate IsSpan(amounts: seq<Amount>) {
    amounts != [] && AreAmounts(amounts)
  }

  predicate IsPhase(p: Phase) {
    IsSpan(p.amounts)
  }

  const OPENING: string := "Startup finished in"
  const LEAD: string := OPENING + " "

  predicate IsLead(lead: string) {
    lead == LEAD || lead == ""
  }

  /** One labelled duration, the first one after the opening words. */
  function Trimmed(lead: string, p: Phase): string {
    lead + SpanText(p.amounts) + " (" + LabelText(p.name) + ")"
  }

  function PartText(first: bool, p: Phase): string {
    if first then "" + Trimmed(LEAD, p) + " " else " " + Trimmed("", p) + " "
  }

  /** Labelled durations separated by " + ". */
  function PhasesText(first: bool, phases: seq<Phase>): string
    requires phases != []
    decreases |phases|
  {
    if |phases| == 1 then PartText(first, phases[0])
    else PartText(first, phases[0]) + ['+'] + PhasesText(false, phases[1..])
  }

  /** The rest of the line after '=' and whatever other lines follow. */
  function TotalText(total: seq<Amount>, pad: string, tail: string): string {
    " " + SpanText(total) + pad + tail
  }

  function AnalyzeText(phases: seq<Phase>, total: seq<Amount>, pad: string, tail: string): string
    requires phases != []
  {
    PhasesText(true, phases) + (['='] + TotalText(total, pad, tail))
  }

  predicate IsTail(pad: string, tail: string) {
    (pad == "" || pad == " ") && '+' !in tail && (tail == "" || tail[0] == '\n')
  }

  /** What the phases say: the last phase with a label sets its field. */
  function SetPhase(p: Phase, t: BootTime): BootTime
    requires IsPhase(p)
  {
    SetField(p.name, Some(SpanSeconds(p.amounts)), t)
  }

  function SetField(l: Label, secs: Option<real>, t: BootTime): BootTime {
    match l
    case Firmware => t.(firmware := secs)
    case Loader => t.(bootloader := secs)
    case Kernel => t.(kernel := secs)
    case Userspace => t.(userspace := secs)
    case Initrd => t
  }

  predicate ArePhases(phases: seq<Phase>) {
    forall i :: 0 <= i < |phases| ==> IsPhase(phases[i])
  }

  function SetPhases(phases: seq<Phase>, t: BootTime): BootTime
    requires ArePhases(phases)
  {
    if phases == [] then t else SetPhases(phases[1..], SetPhase(phases[0], t))
  }

  // ---- recognising a phase ----

  /** Letters that occur in exactly one label and nowhere else in a phase. */
  function Mark(l: Label): char {
    match l
    case Firmware => 'w'
    case Loader => 'o'
    case Kernel => 'k'
    case Userspace => 'c'
    case Initrd => 'z'
  }

  predicate Unmarked(c: char) {
    c != 'w' && c != 'o' && c != 'k' && c != 'c' && c != '=' && c != '+' && c != '\n' && c != '\r'
  }

  lemma LeadChars(lead: string)
    requires IsLead(lead)
    ensures forall c :: c in lead ==> Unmarked(c)
  {
  }

  lemma LabelMarks(l: Label, m: Label)
    requires m != Initrd
    ensures Mark(m) in LabelText(m)
    ensures Mark(m) in LabelText(l) <==> l == m
  {
    assert LabelText(Firmware)[4] == 'w' && LabelText(Loader)[1] == 'o' && LabelText(Kernel)[0] == 'k'
           && LabelText(Userspace)[7] == 'c';
  }

  lemma LabelChars(l: Label)
    ensures forall c :: c in LabelText(l) ==> c != '=' && c != '+'
  {
  }

  lemma PhaseChars(lead: string, p: Phase, c: char)
    requires IsLead(lead) && IsPhase(p) && c in Trimmed(lead, p)
    ensures Unmarked(c) || c in LabelText(p.name)
  {
    LeadChars(lead);
    SpanReads(p.amounts);
    hide SpanText, LabelText, LEAD;
    var s, l := SpanText(p.amounts), LabelText(p.name);
    assert c in lead || c in s || c in " (" || c in l || c in ")";
  }

  /** A trimmed phase contains a known word exactly when that is its label. */
  lemma PhaseWord(lead: string, p: Phase, m: Label)
    requires IsLead(lead) && IsPhase(p) && m != Initrd
    ensures Contains(Trimmed(lead, p), LabelText(m)) <==> p.name == m
  {
    var t := Trimmed(lead, p);
    if p.name == m {
      hide LabelText, LEAD, SpanText, Contains;
      ContainsMiddle(lead + SpanText(p.amounts) + " (", LabelText(m), ")");
    } else if Contains(t, LabelText(m)) {
      LabelMarks(p.name, m);
      hide LabelText, LEAD, SpanText, Trimmed, Contains;
      ContainsLetter(t, LabelText(m), Mark(m));
      PhaseChars(lead, p, Mark(m));
    }
  }

  lemma WordDuration(w: string)
    requires IsWord(w)
    ensures Duration(w) == TokenSeconds(w)
  {
    hide TokenSeconds;
    TokensOfWord(w, "");
    assert "" + w == w;
    var tokens := Tokens(w);
    assert tokens == [w] && tokens[..0] == [];
    assert Total(tokens[..0]) == None;
    assert Total(tokens) == Plus(Total(tokens[..0]), TokenSeconds(tokens[0]));
  }

  lemma NotANumber(s: string)
    requires s == "" || (s[0] != '+' && s[0] != '-' && s[0] != '.' && DigitValue(s[0]) == -1)
    ensures ParseReal(s) == None
  {
    hide Number, Fraction;
    if s != "" {
      var whole := s[..IndexOf(s, '.')];
      assert whole[0] == s[0];
    }
  }

  /** A word that begins with a letter or a parenthesis is no duration. */
  lemma PlainWord(w: string)
    requires IsWord(w) && (IsLetter(w[0]) || w[0] == '(')
    ensures Duration(w) == None
  {
    WordDuration(w);
    var n := w[..FirstLetter(w)];
    assert n != "" ==> n[0] == w[0];
    NotANumber(n);
  }

  lemma PlainWords(a: string, b: string, c: string)
    requires forall w :: w in [a, b, c] ==> IsWord(w) && IsLetter(w[0])
    ensures Duration(a + " " + b + " " + c) == None
  {
    assert a in [a, b, c] && b in [a, b, c] && c in [a, b, c];
    PlainWord(a);
    PlainWord(b);
    PlainWord(c);
    hide Duration;
    DurationConcat(a, b);
    DurationConcat(a + " " + b, c);
  }

  lemma OpeningIsNoDuration()
    ensures Duration(OPENING) == None
  {
    hide Duration;
    var a, b, c := "Startup", "finished", "in";
    PlainWords(a, b, c);
    assert OPENING == a + " " + b + " " + c;
  }

  /** The words around a phase add nothing to its duration. */
  lemma PhaseDuration(lead: string, p: Phase)
    requires IsLead(lead) && IsPhase(p)
    ensures Duration(Trimmed(lead, p)) == Some(SpanSeconds(p.amounts))
  {
    LabelIsPlain(p.name);
    SpanReads(p.amounts);
    TrimmedIs(lead, p);
    hide SpanText, LabelText, SpanSeconds, Trimmed;
    var l := "(" + LabelText(p.name) + ")";
    assert l[0] == '(';
    SpanThenWord(SpanText(p.amounts), l);
    hide Duration;
    var core := SpanText(p.amounts) + " " + l;
    if lead == "" {
      assert lead + core == core;
    } else {
      OpeningIsNoDuration();
      hide OPENING;
      DurationConcat(OPENING, core);
    }
  }

  lemma SpanThenWord(s: string, l: string)
    requires IsWord(l) && l[0] == '('
    ensures Duration(s + " " + l) == Duration(s)
  {
    PlainWord(l);
    hide Duration;
    DurationConcat(s, l);
  }

  lemma TrimmedIs(lead: string, p: Phase)
    ensures Trimmed(lead, p) == lead + (SpanText(p.amounts) + " " + ("(" + LabelText(p.name) + ")"))
  {
    hide SpanText, LabelText;
    assert " (" == " " + "(";
  }

  lemma LabelIsPlain(l: Label)
    ensures IsWord("(" + LabelText(l) + ")")
  {
  }

  lemma BeforeFirst(a: string, c: char, rest: string)
    requires c !in a && (rest == "" || rest[0] == c)
    ensures Split(a + rest, c)[0] == a
  {
    if rest == "" {
      assert a + rest == a;
      SplitWhole(a, c);
    } else {
      assert a + rest == a + [c] + rest[1..];
      SplitFirst(a, c, rest[1..]);
    }
  }

  function LeadOf(first: bool): string {
    if first then LEAD else ""
  }

  lemma TrimmedEnds(lead: string, p: Phase)
    requires IsLead(lead) && IsPhase(p)
    ensures var t := Trimmed(lead, p); t != "" && !IsSpace(t[0]) && !IsSpace(t[|t| - 1])
  {
    SpanReads(p.amounts);
    hide SpanText, LabelText;
    var t := Trimmed(lead, p);
    assert t[|t| - 1] == ')';
    if lead == "" {
      assert t[0] == SpanText(p.amounts)[0];
    } else {
      assert t[0] == LEAD[0] == 'S';
    }
  }

  lemma PartTrims(first: bool, p: Phase)
    requires IsPhase(p)
    ensures Trim(PartText(first, p)) == Trimmed(LeadOf(first), p)
  {
    TrimmedEnds(LeadOf(first), p);
    hide Trimmed, LEAD, Trim;
    TrimPadded(if first then "" else " ", Trimmed(LeadOf(first), p), " ");
  }

  lemma PartChars(first: bool, p: Phase, c: char)
    requires IsPhase(p) && c in PartText(first, p)
    ensures c != '=' && c != '+'
  {
    LabelChars(p.name);
    hide Trimmed, LEAD, LabelText;
    if c in Trimmed(LeadOf(first), p) {
      PhaseChars(LeadOf(first), p, c);
    }
  }

  lemma PartClean(first: bool, p: Phase)
    requires IsPhase(p)
    ensures '=' !in PartText(first, p) && '+' !in PartText(first, p)
  {
    hide PartText;
    if '=' in PartText(first, p) {
      PartChars(first, p, '=');
    }
    if '+' in PartText(first, p) {
      PartChars(first, p, '+');
    }
  }

  /** One part of the output sets exactly the field its label names. */
  lemma PartReads(first: bool, p: Phase, rest: string, t: BootTime)
    requires IsPhase(p) && (rest == "" || rest[0] == '=')
    ensures ReadPart(PartText(first, p) + rest, t) == SetPhase(p, t)
  {
    PartClean(first, p);
    BeforeFirst(PartText(first, p), '=', rest);
    PartTrims(first, p);
    var lead := LeadOf(first);
    PhaseDuration(lead, p);
    PhaseWord(lead, p, Firmware);
    PhaseWord(lead, p, Loader);
    PhaseWord(lead, p, Kernel);
    PhaseWord(lead, p, Userspace);
    hide Duration, Trimmed, PartText, Trim, Contains, LEAD, SpanSeconds;
  }

  lemma {:induction false} PhasesClean(first: bool, phases: seq<Phase>)
    requires phases != [] && ArePhases(phases)
    ensures '=' !in PhasesText(first, phases)
    decreases |phases|
  {
    PartClean(first, phases[0]);
    hide PartText, IsPhase;
    if |phases| == 1 {
    } else {
      PhasesClean(false, phases[1..]);
    }
  }

  lemma PhasesTextStep(first: bool, phases: seq<Phase>, rest: string)
    requires |phases| > 1
    ensures PhasesText(first, phases) + rest
         == PartText(first, phases[0]) + ['+'] + (PhasesText(false, phases[1..]) + rest)
  {
    hide PartText;
    var part, more := PartText(first, phases[0]), PhasesText(false, phases[1..]);
    assert PhasesText(first, phases) == part + ['+'] + more;
    hide PhasesText;
    assert (part + ['+'] + more) + rest == part + ['+'] + (more + rest);
  }

  /** The first part of the text sets the field of the first phase. */
  lemma FirstPhaseRead(first: bool, p: Phase, more: string, t: BootTime)
    requires IsPhase(p)
    ensures ReadParts(Split(PartText(first, p) + ['+'] + more, '+'), t) == ReadParts(Split(more, '+'), SetPhase(p, t))
  {
    PartClean(first, p);
    PartReads(first, p, "", t);
    hide PartText, ReadPart, SetPhase, IsPhase, Split, ReadParts;
    assert PartText(first, p) + "" == PartText(first, p);
    ReadNext(PartText(first, p), more, t);
  }

  lemma LastPhaseRead(first: bool, p: Phase, rest: string, t: BootTime)
    requires IsPhase(p)
    requires rest != "" && rest[0] == '=' && '+' !in rest
    ensures ReadParts(Split(PartText(first, p) + rest, '+'), t) == SetPhase(p, t)
  {
    PartClean(first, p);
    PartReads(first, p, rest, t);
    hide PartText, ReadPart, SetPhase, IsPhase, Split, ReadParts;
    ReadLast(PartText(first, p) + rest, t);
  }

  lemma SetPhasesStep(phases: seq<Phase>, t: BootTime)
    requires phases != [] && ArePhases(phases)
    ensures IsPhase(phases[0]) && ArePhases(phases[1..])
    ensures SetPhases(phases, t) == SetPhases(phases[1..], SetPhase(phases[0], t))
    ensures |phases| == 1 ==> SetPhases(phases, t) == SetPhase(phases[0], t)
  {
    hide SetPhase, IsPhase;
  }

  lemma {:induction false} PhasesRead(first: bool, phases: seq<Phase>, rest: string, t: BootTime)
    requires phases != [] && ArePhases(phases)
    requires rest != "" && rest[0] == '=' && '+' !in rest
    ensures ReadParts(Split(PhasesText(first, phases) + rest, '+'), t) == SetPhases(phases, t)
    decreases |phases|
  {
    SetPhasesStep(phases, t);
    hide PartText, SetPhase, SetPhases, IsPhase, ArePhases, Split, ReadParts;
    if |phases| == 1 {
      LastPhaseRead(first, phases[0], rest, t);
    } else {
      PhasesTextStep(first, phases, rest);
      hide PhasesText;
      FirstPhaseRead(first, phases[0], PhasesText(false, phases[1..]) + rest, t);
      PhasesRead(false, phases[1..], rest, SetPhase(phases[0], t));
    }
  }

  lemma ReadLast(part: string, t: BootTime)
    requires '+' !in part
    ensures ReadParts(Split(part, '+'), t) == ReadPart(part, t)
  {
    hide ReadPart;
    SplitWhole(part, '+');
    assert [part][1..] == [];
  }

  lemma ReadNext(part: string, rest: string, t: BootTime)
    requires '+' !in part
    ensures ReadParts(Split(part + ['+'] + rest, '+'), t) == ReadParts(Split(rest, '+'), ReadPart(part, t))
  {
    hide ReadPart;
    SplitFirst(part, '+', rest);
    assert ([part] + Split(rest, '+'))[1..] == Split(rest, '+');
  }

  lemma SpanIsPlain(total: seq<Amount>)
    requires IsSpan(total)
    ensures NoBreak(SpanText(total)) && '+' !in SpanText(total)
  {
    SpanReads(total);
  }

  function TotalLine(total: seq<Amount>, pad: string): string {
    " " + SpanText(total) + pad
  }

  lemma TotalLineIs(total: seq<Amount>, pad: string, tail: string)
    requires IsSpan(total) && IsTail(pad, tail)
    ensures FirstLine(TotalText(total, pad, tail)) == TotalLine(total, pad)
  {
    SpanIsPlain(total);
    hide SpanText;
    var line := TotalLine(total, pad);
    assert NoBreak(line);
    if tail == "" {
      assert TotalText(total, pad, tail) == line;
      LinesLast(line);
    } else {
      assert TotalText(total, pad, tail) == Terminated(line, false) + tail[1..];
      LinesFirst(line, false, tail[1..]);
    }
  }

  lemma NoDuration()
    ensures Duration("") == None
  {
  }

  /** The total is read from the rest of its own line only. */
  lemma TotalReads(total: seq<Amount>, pad: string)
    requires IsSpan(total) && (pad == "" || pad == " ")
    ensures Duration(TotalLine(total, pad)) == Some(SpanSeconds(total))
  {
    SpanReads(total);
    NoDuration();
    hide SpanText, SpanSeconds, Duration;
    var s := SpanText(total);
    DurationConcat("", s);
    assert "" + " " + s == " " + s;
    if pad == " " {
      DurationConcat(" " + s, "");
      assert " " + s + " " + "" == TotalLine(total, pad);
    } else {
      assert " " + s == TotalLine(total, pad);
    }
  }

  lemma TotalFound(head: string, rest: string, t: BootTime, secs: real)
    requires '=' !in head && Duration(FirstLine(rest)) == Some(secs)
    ensures ReadTotal(head + (['='] + rest), t) == t.(total := secs)
  {
    hide Duration, FirstLine;
    IndexOfIs(head, '=', rest);
    var text := head + (['='] + rest);
    assert text == head + ['='] + rest;
    assert text[|head| + 1..] == rest;
  }

  /**
   * For every line with labelled phases and a total, followed by any lines without '+', the reader
   * sets each known phase to its exact duration (the last one when a label repeats) and the total exactly.
   */
  lemma AnalyzeRoundTrip(phases: seq<Phase>, total: seq<Amount>, pad: string, tail: string, t: BootTime)
    requires phases != [] && ArePhases(phases) && IsSpan(total) && IsTail(pad, tail)
    ensures ReadAnalyze(AnalyzeText(phases, total, pad, tail), t) == SetPhases(phases, t).(total := SpanSeconds(total))
  {
    SpanIsPlain(total);
    TotalLineIs(total, pad, tail);
    TotalReads(total, pad);
    hide SpanText, SpanSeconds, Duration, FirstLine, ReadParts, SetPhases, PhasesText, ReadTotal, TotalLine;
    var rest := TotalText(total, pad, tail);
    assert '+' !in ['='] + rest;
    PhasesClean(true, phases);
    PhasesRead(true, phases, ['='] + rest, t);
    TotalFound(PhasesText(true, phases), rest, SetPhases(phases, t), SpanSeconds(total));
  }

  function FieldOf(t: BootTime, l: Label): Option<real> {
    match l
    case Firmware => t.firmware
    case Loader => t.bootloader
    case Kernel => t.kernel
    case Userspace => t.userspace
    case Initrd => None
  }

  /** Each known phase is recovered: a label's field holds the last phase that carried it, or what it held before. */
  lemma {:induction false} PhaseRecovered(phases: seq<Phase>, t: BootTime, l: Label, k: nat)
    requires ArePhases(phases) && l != Initrd
    requires k < |phases| ==> phases[k].name == l
    requires forall j :: (if k < |phases| then k + 1 else 0) <= j < |phases| ==> phases[j].name != l
    ensures FieldOf(SetPhases(phases, t), l)
            == if k < |phases| then Some(SpanSeconds(phases[k].amounts)) else FieldOf(t, l)
    decreases |phases|
  {
    hide SpanSeconds;
    if phases == [] {
    } else {
      var tail := phases[1..];
      if 0 < k < |phases| {
        PhaseRecovered(tail, SetPhase(phases[0], t), l, k - 1);
      } else {
        PhaseRecovered(tail, SetPhase(phases[0], t), l, |tail|);
      }
    }
  }

  // ---- a single phase without a total ----

  lemma {:induction false} TrimStartTokens(s: string)
    ensures Tokens(TrimStart(s)) == Tokens(s)
  {
    if s == "" || !IsSpace(s[0]) {
    } else {
      TrimStartTokens(s[1..]);
    }
  }

  lemma {:induction false} TrimEndTokens(s: string)
    ensures Tokens(TrimEnd(s)) == Tokens(s)
  {
    if s == "" || !IsSpace(s[|s| - 1]) {
    } else {
      var front := s[..|s| - 1];
      TrimEndTokens(front);
      assert s == front + [s[|s| - 1]] + "";
      TokensCut(front, s[|s| - 1], "", "");
      assert Tokens("") == [];
    }
  }

  /** One phase without a total: its text runs to the end of the output, later lines included. */
  function LoneText(p: Phase, later: string): string {
    PartText(true, p) + later
  }

  /** The order in which the known words are looked for. */
  function Rank(l: Label): nat {
    match l
    case Firmware => 0
    case Loader => 1
    case Kernel => 2
    case Userspace => 3
    case Initrd => 4
  }

  /** A word that is looked for before the phase's own label stands on a later line. */
  predicate Shadowed(p: Phase, later: string) {
    exists m: Label :: Rank(m) < Rank(p.name) && Contains(later, LabelText(m))
  }

  predicate IsPlain(text: string) {
    '+' !in text && '=' !in text
  }

  /** The word is the phase's label or stands on a later line. */
  predicate Marked(p: Phase, later: string, m: Label) {
    p.name == m || Contains(later, LabelText(m))
  }

  /**
   * What the reader makes of such an output: durations on later lines are added, and the first word found names the
   * field.
   */
  function LoneReading(p: Phase, later: string, t: BootTime): BootTime
    requires IsPhase(p)
  {
    var secs := Plus(Some(SpanSeconds(p.amounts)), Duration(later));
    if Marked(p, later, Firmware) then t.(firmware := secs)
    else if Marked(p, later, Loader) then t.(bootloader := secs)
    else if Marked(p, later, Kernel) then t.(kernel := secs)
    else if Marked(p, later, Userspace) then t.(userspace := secs)
    else t
  }

  lemma LoneIsBody(p: Phase, later: string)
    ensures LoneText(p, later) == Trimmed(LEAD, p) + [' '] + later
    ensures LoneText(p, later) == Trimmed(LEAD, p) + " " + later
  {
    hide Trimmed, LEAD;
  }

  lemma LonePhaseDuration(p: Phase, later: string)
    requires IsPhase(p)
    ensures Duration(Trim(LoneText(p, later))) == Plus(Some(SpanSeconds(p.amounts)), Duration(later))
  {
    TrimStartTokens(LoneText(p, later));
    TrimEndTokens(TrimStart(LoneText(p, later)));
    hide LoneText, Trimmed, LEAD, SpanSeconds, TokensFrom, Total;
    LoneIsBody(p, later);
    PhaseDuration(LEAD, p);
    DurationConcat(Trimmed(LEAD, p), later);
  }

  lemma KnownWord(m: Label)
    ensures LabelText(m) != "" && NoSpace(LabelText(m))
  {
  }

  lemma LoneMark(p: Phase, later: string, m: Label)
    requires IsPhase(p) && m != Initrd
    ensures Contains(Trim(LoneText(p, later)), LabelText(m)) <==> Marked(p, later, m)
  {
    KnownWord(m);
    PhaseWord(LEAD, p, m);
    LoneIsBody(p, later);
    hide Contains, LoneText, Trimmed, LEAD, LabelText, NoSpace, Trim;
    TrimKeepsWords(LoneText(p, later), LabelText(m));
    ContainsAround(Trimmed(LEAD, p), ' ', later, LabelText(m));
  }

  lemma LonePartIs(p: Phase, later: string)
    requires IsPhase(p) && IsPlain(later)
    ensures IsPlain(LoneText(p, later))
    ensures Split(LoneText(p, later), '=') == [LoneText(p, later)]
  {
    PartClean(true, p);
    hide PartText;
    SplitWhole(LoneText(p, later), '=');
  }

  lemma PlainReads(text: string, t: BootTime)
    requires IsPlain(text)
    ensures ReadAnalyze(text, t) == ReadPart(text, t)
  {
    hide ReadPart;
    ReadLast(text, t);
    FoundInside(text, '=');
  }

  /** Without '+' and '=' the whole output is one part. */
  lemma LoneReads(p: Phase, later: string, t: BootTime)
    requires IsPhase(p) && IsPlain(later)
    ensures ReadAnalyze(LoneText(p, later), t) == LoneReading(p, later, t)
  {
    LonePartIs(p, later);
    PlainReads(LoneText(p, later), t);
    LonePhaseDuration(p, later);
    LoneMark(p, later, Firmware);
    LoneMark(p, later, Loader);
    LoneMark(p, later, Kernel);
    LoneMark(p, later, Userspace);
    hide Duration, Trim, Contains, LoneText, SpanSeconds, Marked, Split;
  }

  predicate AddsNothing(later: string) {
    Duration(later).None? || Duration(later).value == 0.0
  }

  const UNREAD: BootTime := BootTime(0.0, None, None, None, None)

  /**
   * An output of one phase without a total is read right exactly when no word looked for earlier stands on a later line
   * and, for a phase that has a field, the later lines hold no duration or durations that sum to zero.
   */
  lemma LonePhaseIff(p: Phase, later: string)
    requires IsPhase(p) && IsPlain(later)
    ensures (forall t :: ReadAnalyze(LoneText(p, later), t) == SetPhase(p, t))
            <==> !Shadowed(p, later) && (p.name == Initrd || AddsNothing(later))
  {
    forall t
      ensures ReadAnalyze(LoneText(p, later), t) == LoneReading(p, later, t)
    {
      LoneReads(p, later, t);
    }
    hide ReadAnalyze, LoneReading, SetPhase, Shadowed, AddsNothing, LoneText;
    if !Shadowed(p, later) && (p.name == Initrd || AddsNothing(later)) {
      forall t
        ensures LoneReading(p, later, t) == SetPhase(p, t)
      {
        RightReading(p, later, t);
      }
    } else {
      WrongReading(p, later);
      assert ReadAnalyze(LoneText(p, later), UNREAD) != SetPhase(p, UNREAD);
    }
  }

  lemma RightReading(p: Phase, later: string, t: BootTime)
    requires IsPhase(p) && !Shadowed(p, later) && (p.name == Initrd || AddsNothing(later))
    ensures LoneReading(p, later, t) == SetPhase(p, t)
  {
    ShadowedIff(p, later);
    PlusIff(SpanSeconds(p.amounts), Duration(later));
    hide Duration, SpanSeconds, Contains, LabelText, Plus, Shadowed;
  }

  lemma WrongReading(p: Phase, later: string)
    requires IsPhase(p) && (Shadowed(p, later) || (p.name != Initrd && !AddsNothing(later)))
    ensures LoneReading(p, later, UNREAD) != SetPhase(p, UNREAD)
  {
    ShadowedIff(p, later);
    PlusIff(SpanSeconds(p.amounts), Duration(later));
    hide Duration, SpanSeconds, Contains, LabelText, Plus, Shadowed;
  }

  lemma ShadowedIff(p: Phase, later: string)
    ensures Shadowed(p, later) <==>
      || (Rank(p.name) > 0 && Contains(later, LabelText(Firmware)))
      || (Rank(p.name) > 1 && Contains(later, LabelText(Loader)))
      || (Rank(p.name) > 2 && Contains(later, LabelText(Kernel)))
      || (Rank(p.name) > 3 && Contains(later, LabelText(Userspace)))
  {
    hide Contains, LabelText;
  }

  lemma PlusIff(a: real, d: Option<real>)
    ensures Plus(Some(a), d) == Some(a) <==> (d.None? || d.value == 0.0)
  {
  }

  /** A failing output: the word loader on a later line takes the seconds of a lone userspace phase. */
  lemma LoaderTakesUserspace(p: Phase, t: BootTime)
    requires IsPhase(p) && p.name == Userspace
    ensures AddsNothing("loader")
    ensures ReadAnalyze(LoneText(p, "loader"), t) == t.(bootloader := Some(SpanSeconds(p.amounts)))
  {
    LoaderWord();
    LoneReads(p, "loader", t);
    hide Duration, SpanSeconds, ReadAnalyze, LoneText, Contains;
  }

  lemma LoaderWord()
    ensures IsPlain("loader") && Duration("loader") == None
    ensures Contains("loader", "loader") && !Contains("loader", "firmware")
  {
    var w := LabelText(Loader);
    LabelChars(Loader);
    LabelMarks(Loader, Firmware);
    assert IsWord(w) && IsLetter(w[0]);
    PlainWord(w);
    hide Duration, Contains;
    ContainsMiddle("", w, "");
    assert "" + w + "" == w;
    if Contains(w, "firmware") {
      ContainsLetter(w, LabelText(Firmware), 'w');
    }
  }

  const TARGET: string := "graphical.target"
  const REACHED: string := TARGET + " " + "reached" + " " + "after"
  const IN_USERSPACE: string := "in" + " " + "userspace"

  /** The second line systemd-analyze prints, with any time. */
  function TargetLine(target: seq<Amount>): string {
    "\n" + (REACHED + " " + SpanText(target) + " " + IN_USERSPACE)
  }

  lemma ReachedIsNoDuration()
    ensures Duration(REACHED) == None
  {
    assert IsWord(TARGET) && IsWord("reached") && IsWord("after");
    assert IsLetter(TARGET[0]) && IsLetter("reached"[0]) && IsLetter("after"[0]);
    hide TARGET, Duration;
    PlainWords(TARGET, "reached", "after");
  }

  lemma EndingIsNoDuration()
    ensures Duration(IN_USERSPACE) == None
  {
    PlainWord("in");
    PlainWord("userspace");
    hide Duration;
    DurationConcat("in", "userspace");
  }

  lemma AfterBreak(text: string)
    ensures Duration("\n" + text) == Duration(text)
  {
    TokensSkip("\n", text);
    hide TokensFrom, Total;
  }

  lemma TargetLineDuration(target: seq<Amount>)
    requires IsSpan(target)
    ensures Duration(TargetLine(target)) == Some(SpanSeconds(target))
  {
    SpanReads(target);
    ReachedIsNoDuration();
    EndingIsNoDuration();
    hide SpanText, SpanSeconds, Duration, REACHED, IN_USERSPACE;
    DurationConcat(REACHED, SpanText(target));
    DurationConcat(REACHED + " " + SpanText(target), IN_USERSPACE);
    AfterBreak(REACHED + " " + SpanText(target) + " " + IN_USERSPACE);
  }

  /** Characters of no known word's mark and of no separator. */
  predicate IsQuiet(c: char) {
    c != 'w' && c != 'o' && c != 'k' && c != '=' && c != '+'
  }

  lemma ReachedChars()
    ensures forall c :: c in REACHED ==> IsQuiet(c)
  {
  }

  lemma EndingChars()
    ensures forall c :: c in IN_USERSPACE ==> IsQuiet(c)
  {
  }

  lemma TargetLineChars(target: seq<Amount>, c: char)
    requires IsSpan(target) && c in TargetLine(target)
    ensures IsQuiet(c)
  {
    SpanReads(target);
    ReachedChars();
    EndingChars();
    hide SpanText, REACHED, IN_USERSPACE;
    assert c == '\n' || c in REACHED || c == ' ' || c in SpanText(target) || c in IN_USERSPACE;
  }

  lemma TargetLineWords(target: seq<Amount>, m: Label)
    requires IsSpan(target) && m != Initrd
    ensures Contains(TargetLine(target), LabelText(m)) <==> m == Userspace
  {
    if m == Userspace {
      var front := "\n" + (REACHED + " " + SpanText(target) + " " + "in" + " ");
      hide SpanText, Contains, REACHED;
      ContainsMiddle(front, "userspace", "");
      assert front + "userspace" + "" == TargetLine(target);
    } else if Contains(TargetLine(target), LabelText(m)) {
      LabelMarks(m, m);
      hide TargetLine, LabelText, Contains;
      ContainsLetter(TargetLine(target), LabelText(m), Mark(m));
      TargetLineChars(target, Mark(m));
    }
  }

  /**
   * What systemd-analyze really prints below the first line fails the reader: after a lone phase without a total the
   * seconds of the target line are added to the phase, and given to userspace when the phase has no field of its own.
   */
  lemma TargetLineAdds(p: Phase, target: seq<Amount>, t: BootTime)
    requires IsPhase(p) && IsSpan(target)
    ensures ReadAnalyze(LoneText(p, TargetLine(target)), t)
         == SetField(if p.name == Initrd then Userspace else p.name,
                     Some(SpanSeconds(p.amounts) + SpanSeconds(target)), t)
  {
    hide *;
    SpanAmounts(target);
    TargetLinePlain(target);
    TargetLineDuration(target);
    TargetLineWords(target, Firmware);
    TargetLineWords(target, Loader);
    TargetLineWords(target, Kernel);
    TargetLineWords(target, Userspace);
    LineAdds(p, TargetLine(target), SpanSeconds(target), t);
  }

  lemma SpanAmounts(amounts: seq<Amount>)
    requires IsSpan(amounts)
    ensures AreAmounts(amounts)
  {
  }

  /** A later line of this duration with the word userspace and no other known word. */
  lemma LineAdds(p: Phase, later: string, secs: real, t: BootTime)
    requires IsPhase(p) && IsPlain(later) && Duration(later) == Some(secs)
    requires Contains(later, LabelText(Userspace)) && !Contains(later, LabelText(Firmware))
    requires !Contains(later, LabelText(Loader)) && !Contains(later, LabelText(Kernel))
    ensures ReadAnalyze(LoneText(p, later), t)
         == SetField(if p.name == Initrd then Userspace else p.name, Some(SpanSeconds(p.amounts) + secs), t)
  {
    hide *;
    LoneReads(p, later, t);
    LineFields(p, later, secs, t);
  }

  lemma LineFields(p: Phase, later: string, secs: real, t: BootTime)
    requires IsPhase(p) && Duration(later) == Some(secs)
    requires Contains(later, LabelText(Userspace)) && !Contains(later, LabelText(Firmware))
    requires !Contains(later, LabelText(Loader)) && !Contains(later, LabelText(Kernel))
    ensures LoneReading(p, later, t)
         == SetField(if p.name == Initrd then Userspace else p.name, Some(SpanSeconds(p.amounts) + secs), t)
  {
    hide Contains, LabelText, Duration, SpanSeconds;
  }

  lemma TargetLinePlain(target: seq<Amount>)
    requires IsSpan(target)
    ensures IsPlain(TargetLine(target))
  {
    hide TargetLine;
    if '+' in TargetLine(target) {
      TargetLineChars(target, '+');
    }
    if '=' in TargetLine(target) {
      TargetLineChars(target, '=');
    }
  }
}
