/** Numbers of JSON as section 6 of RFC 8259 writes them and the values they have, and what a
    reader of leading integers makes of them. */
module JsonNumbers {
  import opened Wrappers
  import opened Text

  predicate AllDigits(s: string) {
    forall i :: 0 <= i < |s| ==> IsDigit(s[i])
  }

  /** The parts of a number: digits, a fraction from its point on and an exponent from its `e` on. */
  datatype Number = Number(negative: bool, whole: string, fraction: string, exponent: string)
  {
    predicate Valid() {
      && whole != "" && AllDigits(whole) && (whole[0] == '0' ==> |whole| == 1)
      && (fraction == "" || (|fraction| >= 2 && fraction[0] == '.' && AllDigits(fraction[1..])))
      && (exponent == "" || (|exponent| >= 2 && exponent[0] in "eE" && Scale() != "" && AllDigits(Scale())))
    }

    /** The digits of the exponent. */
    function Scale(): string {
      if |exponent| < 2 then "" else if exponent[1] in "+-" then exponent[2..] else exponent[1..]
    }

    function Text(): string {
      (if negative then "-" else "") + whole + fraction + exponent
    }

    function Power(): int {
      var n: int := LeadingNat(Scale(), 0);
      if |exponent| >= 2 && exponent[1] == '-' then -n else n
    }

    /** All digits, moved behind or in front of the decimal point. */
    function Value(): real {
      var digits := if fraction == "" then "" else fraction[1..];
      var magnitude := Scaled(LeadingNat(whole + digits, 0) as real, Power() - |digits|);
      if negative then -magnitude else magnitude
    }

    /** The number in front of fraction and exponent. */
    function Whole(): int {
      var n: int := LeadingNat(whole, 0);
      if negative then -n else n
    }
  }

  /** `x` times ten to the power of `e`. */
  function Scaled(x: real, e: int): real
    decreases if e < 0 then -e else e
  {
    if e == 0 then x else if e > 0 then Scaled(10.0 * x, e - 1) else Scaled(x / 10.0, e + 1)
  }

  /** How many digits a text begins with. */
  function DigitCount(s: string): (n: nat)
    ensures n <= |s|
  {
    if s == "" || !IsDigit(s[0]) then 0 else DigitCount(s[1..]) + 1
  }

  /** Where the fraction ends in what is behind the whole part. */
  function FractionLength(u: string): (n: nat)
    ensures n <= |u|
  {
    if u != "" && u[0] == '.' then 1 + DigitCount(u[1..]) else 0
  }

  /** A text without its sign. */
  function Unsigned(text: string): string {
    if text != "" && text[0] == '-' then text[1..] else text
  }

  /** The number that a text denotes, if it denotes one. */
  function ParseNumber(text: string): Option<Number> {
    var t := Unsigned(text);
    var n := DigitCount(t);
    var f := FractionLength(t[n..]);
    var number := Number(text != "" && text[0] == '-', t[..n], t[n..][..f], t[n..][f..]);
    if number.Valid() then Some(number) else None
  }

  lemma {:induction false} DigitCountAt(digits: string, rest: string)
    requires AllDigits(digits) && (rest == "" || !IsDigit(rest[0]))
    ensures DigitCount(digits + rest) == |digits|
  {
    if digits == "" {
      assert digits + rest == rest;
    } else {
      assert (digits + rest)[1..] == digits[1..] + rest;
      DigitCountAt(digits[1..], rest);
    }
  }

  /** Parsing finds exactly the numbers whose text it is. */
  lemma {:induction false} ParseExactly(text: string, number: Number)
    ensures ParseNumber(text) == Some(number) <==> number.Valid() && number.Text() == text
  {
    if ParseNumber(text) == Some(number) {
      ParsedText(text);
    }
    if number.Valid() && number.Text() == text {
      TextParsed(number);
    }
  }

  lemma ParsedText(text: string)
    requires ParseNumber(text).Some?
    ensures ParseNumber(text).value.Text() == text
  {
    hide Number.Valid, DigitCount, FractionLength;
    var t := Unsigned(text);
    var n := DigitCount(t);
    TextSplit(ParseNumber(text).value);
    Cut(t, n);
    Cut(t[n..], FractionLength(t[n..]));
  }

  lemma TextSplit(number: Number)
    ensures number.Text() == (if number.negative then "-" else "") + (number.whole + (number.fraction + number.exponent))
  {
  }

  lemma Cut(s: string, n: nat)
    requires n <= |s|
    ensures s == s[..n] + s[n..]
  {
  }

  lemma TextParsed(number: Number)
    requires number.Valid()
    ensures ParseNumber(number.Text()) == Some(number)
  {
    hide Number.Valid, Number.Text, AllDigits, DigitCount, FractionLength, Unsigned;
    var tail := number.fraction + number.exponent;
    TextStart(number);
    SignSplit(number);
    DigitCountAt(number.whole, tail);
    Parts(number.whole, tail);
    FractionEnd(number);
    Parts(number.fraction, number.exponent);
  }

  lemma SignSplit(number: Number)
    requires number.whole != "" && number.whole[0] != '-'
    ensures var text := number.Text();
      && (number.negative <==> text != "" && text[0] == '-')
      && Unsigned(text) == number.whole + (number.fraction + number.exponent)
  {
    hide Number.Valid;
    TextSplit(number);
  }

  lemma Parts(a: string, b: string)
    ensures (a + b)[..|a|] == a && (a + b)[|a|..] == b
  {
  }

  lemma FractionEnd(number: Number)
    requires number.Valid()
    ensures FractionLength(number.fraction + number.exponent) == |number.fraction|
  {
    hide Number.Valid, AllDigits;
    TextStart(number);
    var u := number.fraction + number.exponent;
    if number.fraction != "" {
      assert u[1..] == number.fraction[1..] + number.exponent;
      DigitCountAt(number.fraction[1..], number.exponent);
    } else {
      assert u == number.exponent;
    }
  }

  /** What begins each part. */
  lemma TextStart(number: Number)
    requires number.Valid()
    ensures number.whole != "" && AllDigits(number.whole) && number.whole[0] != '-'
    ensures number.fraction != "" ==> number.fraction[0] == '.' && AllDigits(number.fraction[1..])
    ensures number.exponent != "" ==> number.exponent[0] != '.' && !IsDigit(number.exponent[0])
  {
  }

  lemma {:induction false} LeadingNatAll(digits: string, rest: string, acc: nat)
    requires AllDigits(digits) && (rest == "" || !IsDigit(rest[0]))
    ensures LeadingNat(digits + rest, acc) == LeadingNat(digits, acc)
  {
    if digits == "" {
      assert digits + rest == rest;
    } else {
      assert (digits + rest)[1..] == digits[1..] + rest;
      LeadingNatAll(digits[1..], rest, acc * 10 + (digits[0] as int - 48));
    }
  }

  lemma SignedRead(negative: bool, u: string)
    requires u != "" && IsDigit(u[0])
    ensures var n: int := LeadingNat(u, 0); LeadingInt((if negative then "-" else "") + u) == Some(if negative then -n else n)
  {
    hide LeadingNat;
    var text := (if negative then "-" else "") + u;
    assert negative ==> text[0] == '-' && text[1..] == u;
    assert !negative ==> text == u && text[0] == u[0] && text[0] != '-' && text[0] != '+';
    assert text != "" && !IsSpace(text[0]);
    assert AfterWs(text) == text;
  }

  /** `stoll` reads the part in front of fraction and exponent. */
  lemma WholeRead(number: Number)
    requires number.Valid()
    ensures Stoll(number.Text()) == if FitsInt64(number.Whole()) then Some(number.Whole()) else None
  {
    hide Number.Valid, Number.Text, LeadingNat, LeadingInt, AllDigits;
    var tail := number.fraction + number.exponent;
    WholeStart(number);
    TextSplit(number);
    SignedRead(number.negative, number.whole + tail);
    LeadingNatAll(number.whole, tail, 0);
  }

  lemma WholeStart(number: Number)
    requires number.Valid()
    ensures var u := number.whole + (number.fraction + number.exponent);
      && u != "" && IsDigit(u[0]) && AllDigits(number.whole)
      && (number.fraction + number.exponent == "" || !IsDigit((number.fraction + number.exponent)[0]))
  {
    hide Number.Valid;
    TextStart(number);
  }

  /** A number without fraction and exponent has the value of its digits. */
  lemma WholeValue(number: Number)
    requires number.fraction == "" && number.exponent == ""
    ensures number.Value() == number.Whole() as real
  {
    assert number.whole + "" == number.whole && number.Scale() == "";
  }

  /** The other literals are no numbers, for either reader. */
  lemma NamesAreNoNumbers()
    ensures ParseNumber("true") == None && ParseNumber("false") == None && ParseNumber("null") == None
    ensures Stoll("true") == None && Stoll("false") == None && Stoll("null") == None
  {
  }
}
