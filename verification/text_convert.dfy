/**
  Conversion between values and their text (`toString` / `fromString` in
  cinder's utility layer, exercised by test/unit/src/Utilities.cpp).

  `toString<T>` inserts a value into a text sink and returns the text;
  `fromString<T>` extracts a value of T from a text source.  Which
  insertion and extraction are used is decided by T alone, so the generic
  pair is modelled over a `Conversion<T>`: the writer and reader a type
  brings.  The model covers the three kinds of T the test exercises
  exactly: C++ `int` (decimal digits), `std::string` (the text itself)
  and a user type whose stream operators write and read one `int` field.
 */
module TextConvert {

  /** C++ `int`: 32 bits, two's complement. */
  type CInt = n: int | -0x8000_0000 <= n < 0x8000_0000

  /** What reading a value of T from a text gives: the value, or a parse
      error when the text does not wholly denote a value of T. */
  datatype Parsed<T> = Parsed(value: T) | ParseError

  /* ---------- Decimal digits ---------- */

  predicate IsDigit(c: char) {
    '0' <= c <= '9'
  }

  predicate AllDigits(s: string) {
    forall i :: 0 <= i < |s| ==> IsDigit(s[i])
  }

  /** The digits of a natural number, without leading zeros: either "0" or
      a digit string that starts with a non-zero digit. */
  predicate IsCanonicalDigits(s: string) {
    |s| >= 1 && AllDigits(s) && (s[0] == '0' ==> |s| == 1)
  }

  function DigitChar(d: nat): (c: char)
    requires d < 10
    ensures IsDigit(c)
  {
    ('0' as int + d) as char
  }

  function DigitValue(c: char): (d: nat)
    requires IsDigit(c)
    ensures d < 10 && DigitChar(d) == c
    ensures d == 0 <==> c == '0'
  {
    c as int - '0' as int
  }

  /** Decimal rendering of a natural number, most significant digit first. */
  function NatToDigits(n: nat): (s: string)
    ensures IsCanonicalDigits(s)
    ensures s == "0" <==> n == 0
    decreases n
  {
    if n < 10 then [DigitChar(n)]
    else NatToDigits(n / 10) + [DigitChar(n % 10)]
  }

  /** The natural number a digit string denotes (leading zeros allowed). */
  function DigitsToNat(s: string): nat
    requires AllDigits(s)
    decreases |s|
  {
    if s == [] then 0
    else DigitsToNat(s[..|s| - 1]) * 10 + DigitValue(s[|s| - 1])
  }

  /** Reading the digits of `n` gives `n`. */
  lemma {:induction false} DigitsOfNatRoundTrip(n: nat)
    ensures DigitsToNat(NatToDigits(n)) == n
    decreases n
  {
    var s := NatToDigits(n);
    if n >= 10 {
      DigitsOfNatRoundTrip(n / 10);
      assert s[..|s| - 1] == NatToDigits(n / 10);
    }
  }

  /** A digit string of two or more digits that does not start with '0'
      denotes at least 10. */
  lemma {:induction false} LeadingDigitBound(s: string)
    requires AllDigits(s) && |s| >= 2 && s[0] != '0'
    ensures DigitsToNat(s) >= 10
    decreases |s|
  {
    var p := s[..|s| - 1];
    if |s| > 2 {
      LeadingDigitBound(p);
    } else {
      assert p == [s[0]];
      assert DigitsToNat(p) == DigitValue(s[0]);
    }
  }

  /** Rendering the number a canonical digit string denotes gives back that
      string: canonical digit strings and natural numbers correspond
      one to one. */
  lemma {:induction false} CanonicalDigitsRoundTrip(s: string)
    requires IsCanonicalDigits(s)
    ensures NatToDigits(DigitsToNat(s)) == s
    decreases |s|
  {
    var n := DigitsToNat(s);
    if |s| == 1 {
      assert s[..0] == [];
    } else {
      var p := s[..|s| - 1];
      LeadingDigitBound(s);
      assert IsCanonicalDigits(p);
      CanonicalDigitsRoundTrip(p);
      assert n / 10 == DigitsToNat(p) && n % 10 == DigitValue(s[|s| - 1]);
      assert s == p + [s[|s| - 1]];
    }
  }

  /* ---------- int ---------- */

  /** Text an `int` extractor accepts in full: an optional sign followed by
      one or more decimal digits. */
  predicate IsIntText(s: string) {
    if |s| > 0 && (s[0] == '-' || s[0] == '+') then |s| >= 2 && AllDigits(s[1..])
    else |s| >= 1 && AllDigits(s)
  }

  /** The (unbounded) integer an int text denotes. */
  function IntTextValue(s: string): int
    requires IsIntText(s)
  {
    if s[0] == '-' then 0 - DigitsToNat(s[1..]) as int
    else if s[0] == '+' then DigitsToNat(s[1..])
    else DigitsToNat(s)
  }

  /** The text an `int` inserter writes: a '-' for negative values, then the
      digits of the magnitude without leading zeros. */
  predicate IsCanonicalIntText(s: string) {
    if |s| > 0 && s[0] == '-' then IsCanonicalDigits(s[1..]) && s[1..] != "0"
    else IsCanonicalDigits(s)
  }

  /** toString<int>: decimal rendering. */
  function IntToString(n: CInt): (s: string)
    ensures IsCanonicalIntText(s)
    ensures IsIntText(s) && IntTextValue(s) == n
    ensures |s| > 0 && (s[0] == '-' <==> n < 0)
  {
    var magnitude: nat := if n < 0 then 0 - n as int else n;
    DigitsOfNatRoundTrip(magnitude);
    if n < 0 then "-" + NatToDigits(magnitude) else NatToDigits(magnitude)
  }

  /** fromString<int>: accepts exactly the int texts whose value fits in
      an `int`, and fails on everything else (empty text, a lone sign,
      any character that is not a digit, a value out of range). */
  function ParseInt(s: string): (r: Parsed<CInt>)
    ensures r.Parsed? <==> IsIntText(s) && -0x8000_0000 <= IntTextValue(s) < 0x8000_0000
    ensures r.Parsed? ==> r.value == IntTextValue(s)
  {
    if s == [] then ParseError
    else
      var negative := s[0] == '-';
      var digits := if s[0] == '-' || s[0] == '+' then s[1..] else s;
      if digits == [] || !AllDigits(digits) then ParseError
      else
        var v: int := if negative then 0 - DigitsToNat(digits) as int else DigitsToNat(digits);
        if -0x8000_0000 <= v < 0x8000_0000 then Parsed(v) else ParseError
  }

  /** Every `int` survives a trip through its text. */
  lemma IntRoundTrip(n: CInt)
    ensures ParseInt(IntToString(n)) == Parsed(n)
  {
  }

  /** The other direction: a canonical int text that parses is exactly the
      text of the value it parses to. */
  lemma CanonicalIntTextRoundTrip(s: string)
    requires IsCanonicalIntText(s) && ParseInt(s).Parsed?
    ensures IntToString(ParseInt(s).value) == s
  {
    var n := ParseInt(s).value;
    if s[0] == '-' {
      var digits := s[1..];
      CanonicalDigitsRoundTrip(digits);
      assert n == 0 - DigitsToNat(digits) as int && n < 0;
      assert IntToString(n) == "-" + NatToDigits(DigitsToNat(digits));
      assert s == "-" + digits;
    } else {
      CanonicalDigitsRoundTrip(s);
      assert n == DigitsToNat(s);
    }
  }

  /* ---------- std::string ---------- */

  /** toString of a string is the string itself. */
  function StringToString(s: string): string {
    s
  }

  /** fromString<string>: the text itself, which never fails. */
  function ParseString(s: string): Parsed<string> {
    Parsed(s)
  }

  lemma StringConversionIsIdentity(s: string)
    ensures StringToString(s) == s
    ensures ParseString(s) == Parsed(s)
    ensures ParseString(StringToString(s)) == Parsed(s)
  {
  }

  /* ---------- A user type with stream operators ---------- */

  /** The test's `CustomType`: one `int` field; `==` compares that field. */
  datatype CustomType = CustomType(field: CInt)

  /** operator<< writes the field as an int. */
  function CustomToString(t: CustomType): (s: string)
    ensures IsCanonicalIntText(s)
    ensures IsIntText(s) && IntTextValue(s) == t.field
  {
    IntToString(t.field)
  }

  /** operator>> reads the field as an int. */
  function ParseCustom(s: string): (r: Parsed<CustomType>)
    ensures r.Parsed? <==> ParseInt(s).Parsed?
    ensures r.Parsed? ==> r.value.field == ParseInt(s).value
  {
    match ParseInt(s)
    case Parsed(n) => Parsed(CustomType(n))
    case ParseError => ParseError
  }

  lemma CustomRoundTrip(t: CustomType)
    ensures ParseCustom(CustomToString(t)) == Parsed(t)
  {
    IntRoundTrip(t.field);
  }

  /* ---------- The generic pair ---------- */

  /** How values of T are written to and read from text: the stream
      inserter and extractor a type brings along. */
  datatype Conversion<!T> = Conversion(write: T -> string, read: string -> Parsed<T>)

  /** toString<T> */
  function ToString<T>(c: Conversion<T>, v: T): string {
    c.write(v)
  }

  /** fromString<T> */
  function FromString<T>(c: Conversion<T>, s: string): Parsed<T> {
    c.read(s)
  }

  /** Every value of T survives a trip through its text. */
  ghost predicate RoundTrips<T(!new)>(c: Conversion<T>) {
    forall v :: FromString(c, ToString(c, v)) == Parsed(v)
  }

  const IntConversion: Conversion<CInt> := Conversion(IntToString, ParseInt)
  const StringConversion: Conversion<string> := Conversion(StringToString, ParseString)
  const CustomConversion: Conversion<CustomType> := Conversion(CustomToString, ParseCustom)

  /** The generic pair round-trips for every type the model covers. */
  lemma ConversionsRoundTrip()
    ensures RoundTrips(IntConversion)
    ensures RoundTrips(StringConversion)
    ensures RoundTrips(CustomConversion)
  {
    forall n: CInt ensures FromString(IntConversion, ToString(IntConversion, n)) == Parsed(n) {
      IntRoundTrip(n);
    }
    forall t: CustomType ensures FromString(CustomConversion, ToString(CustomConversion, t)) == Parsed(t) {
      CustomRoundTrip(t);
    }
  }

  /* ---------- The literal cases of the unit test ---------- */

  lemma LiteralCases()
    ensures ToString(IntConversion, 123) == "123"
    ensures ToString(StringConversion, "hello") == "hello"
    ensures ToString(CustomConversion, CustomType(123)) == "123"
    ensures FromString(IntConversion, "123") == Parsed(123)
    ensures FromString(StringConversion, "hello") == Parsed("hello")
    ensures FromString(CustomConversion, "123") == Parsed(CustomType(123))
  {
  }

  /** Texts that do not wholly denote an `int` are refused. */
  lemma MalformedIntTexts()
    ensures ParseInt("") == ParseError
    ensures ParseInt("-") == ParseError
    ensures ParseInt("12a") == ParseError
  {
  }

  /** 2^31, one past the largest `int`, is written "2147483648". */
  lemma RangeEdgeDigits()
    ensures NatToDigits(0x8000_0000) == "2147483648"
  {
    assert NatToDigits(21) == "21";
    assert NatToDigits(2147) == "2147";
    assert NatToDigits(2147483) == "2147483";
  }

  /** The range of `int` is enforced at both ends. */
  lemma IntTextBounds()
    ensures ParseInt("2147483648") == ParseError
    ensures ParseInt("-2147483648") == Parsed(-0x8000_0000)
  {
    RangeEdgeDigits();
    DigitsOfNatRoundTrip(0x8000_0000);
    assert "-2147483648"[1..] == "2147483648";
  }
}
