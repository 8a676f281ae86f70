/** Angles as NMEA text, ddmm.ffffff or dddmm.ffffff: how they are printed and read back. */
module Angle {
  import opened Decimal
  import opened Products
  import opened Reals
  import opened Texts

  const MILLION := 1000000

  // ----- parsing

  function Unsigned(s: string): string {
    if s != "" && (s[0] == '-' || s[0] == '+') then s[1..] else s
  }

  predicate Minus(s: string) {
    s != "" && s[0] == '-'
  }

  /** The digits at the start, and those of a decimal fraction after them. */
  function Whole(t: string): string {
    t[..DigitCount(t)]
  }

  function Fraction(t: string): string {
    var k := DigitCount(t);
    if k < |t| && t[k] == '.' then t[k + 1..][..DigitCount(t[k + 1..])] else ""
  }

  function Decimals(t: string): (x: real)
    ensures 0.0 <= x
  {
    NonNegativeQuotient(Read(Fraction(t)) as real, Pow10(|Fraction(t)|) as real);
    Read(Whole(t)) as real + Read(Fraction(t)) as real / Pow10(|Fraction(t)|) as real
  }

  /** String#to_i: an optional sign, and the value of the digits after it. */
  function ToI(s: string): int {
    var n: int := Read(Whole(Unsigned(s)));
    if Minus(s) then -n else n
  }

  /** String#to_f: an optional sign, and the value of the digits and the decimal fraction after it. */
  function ToF(s: string): (x: real)
    ensures !Minus(s) ==> 0.0 <= x
  {
    if Minus(s) then -Decimals(Unsigned(s)) else Decimals(Unsigned(s))
  }

  function Min(a: nat, b: nat): nat {
    if a < b then a else b
  }

  /** The angle in degrees. For no digits the range 0..-1 is the whole string. */
  function ParseDegrees(s: string, digits: nat): real {
    var head := if digits == 0 then s else s[..Min(digits, |s|)];
    var tail := if digits <= |s| then s[digits..] else "";
    ToI(head) as real + ToF(tail) / 60.0
  }

  function ParseAngle(s: string, digits: nat, degree: real): real {
    ParseDegrees(s, digits) * degree
  }

  // ----- printing

  /** sprintf '%0wd' */
  function PrintInteger(k: int, width: nat): string {
    if 0 <= k then Padded(k, width) else "-" + Padded(-k, if 0 < width then width - 1 else 0)
  }

  /** sprintf '%f' */
  function PrintFraction(x: real): (s: string)
    ensures s != ""
  {
    var q := RoundHalfEven((if x < 0.0 then -x else x) * 1000000.0);
    RoundHalfEvenError((if x < 0.0 then -x else x) * 1000000.0);
    (if x < 0.0 then "-" else "") + Print(q / MILLION) + "." + Padded(q % MILLION, 6)
  }

  function WholeDegrees(x: real): int {
    Truncate(x)
  }

  function WholeMinutes(x: real): int {
    Truncate((x - WholeDegrees(x) as real) * 60.0)
  }

  function FractionalMinute(x: real): real {
    (x - WholeDegrees(x) as real) * 60.0 - WholeMinutes(x) as real
  }

  /** The text of x degrees. The leading digit of the printed fraction is cut off. */
  function FormatDegrees(x: real, digits: nat): string {
    PrintInteger(WholeDegrees(x), digits) + PrintInteger(WholeMinutes(x), 2) +
    PrintFraction(FractionalMinute(x))[1..]
  }

  datatype Formatted = Text(text: string) | Raised

  /** The raise is never reached: the fraction is below 1 for every angle. */
  method FormatAngle(angle: real, digits: nat, degree: real) returns (r: Formatted)
    requires degree > 0.0
    ensures r == Text(FormatDegrees(angle / degree, digits))
  {
    hide PrintInteger, PrintFraction, Truncate;
    var inDegrees := angle / degree;
    var degrees := Truncate(inDegrees);
    var minutes := (inDegrees - degrees as real) * 60.0;
    var minutesWhole := Truncate(minutes);
    var minutesFractional := minutes - minutesWhole as real;
    TruncateError(minutes);
    if minutesFractional >= 1.0 {
      return Raised;
    }
    var degreesText := PrintInteger(degrees, digits);
    var minutesText := PrintInteger(minutesWhole, 2);
    var fractionText := PrintFraction(minutesFractional);
    r := Text(degreesText + minutesText + fractionText[1..]);
  }

  // ----- reading what is printed

  /** The fraction in millionths of a minute, after rounding: up to and including a million. */
  function Millionths(x: real): int {
    RoundHalfEven(Abs(FractionalMinute(x)) * 1000000.0)
  }

  /** The millionths after the decimal point. */
  function Kept(x: real): int {
    Millionths(x) % MILLION
  }

  lemma Split(x: real)
    requires 0.0 <= x
    ensures 0 <= WholeDegrees(x) == x.Floor && 0 <= WholeMinutes(x) < 60
    ensures 0.0 <= FractionalMinute(x) < 1.0
    ensures x == WholeDegrees(x) as real + (WholeMinutes(x) as real + FractionalMinute(x)) / 60.0
    ensures 0 <= Millionths(x) <= MILLION
    ensures Millionths(x) < MILLION <==> FractionalMinute(x) < 0.9999995
  {
    TruncateError(x);
    var minutes := (x - WholeDegrees(x) as real) * 60.0;
    TruncateError(minutes);
    assert 0.0 <= minutes < 60.0;
    var y := FractionalMinute(x) * 1000000.0;
    assert 0.0 <= y < 1000000.0;
    RoundHalfEvenBelow(y, MILLION);
    RoundHalfEvenError(y);
  }

  /** The parts of a negative angle are those of the opposite one, negated. */
  lemma Mirror(x: real)
    ensures WholeDegrees(-x) == -WholeDegrees(x)
    ensures WholeMinutes(-x) == -WholeMinutes(x)
    ensures FractionalMinute(-x) == -FractionalMinute(x)
    ensures Millionths(-x) == Millionths(x)
  {
    TruncateOdd(x);
    hide Truncate, RoundHalfEven;
    var minutes := (x - WholeDegrees(x) as real) * 60.0;
    assert (-x - WholeDegrees(-x) as real) * 60.0 == -minutes;
    TruncateOdd(minutes);
  }

  lemma MillionthsInRange(x: real)
    ensures 0 <= Millionths(x) <= MILLION
  {
    if x < 0.0 {
      Mirror(x);
      Split(-x);
    } else {
      Split(x);
    }
  }

  /** The millionths are the nearest integer, and of two equally near ones the even one. */
  lemma MillionthsAreNearest(x: real, minutes: real, f: real)
    requires minutes == (x - Truncate(x) as real) * 60.0 && f == minutes - Truncate(minutes) as real
    ensures var exact := (if f < 0.0 then -f else f) * 1000000.0;
            && -0.5 <= Millionths(x) as real - exact <= 0.5
            && (Millionths(x) as real - exact == 0.5 || exact - Millionths(x) as real == 0.5 ==> Millionths(x) % 2 == 0)
  {
    RoundHalfEvenError((if f < 0.0 then -f else f) * 1000000.0);
    hide RoundHalfEven;
  }

  /** The digits between the whole minute and the point: none, or for a negative fraction, of which
      the sign is cut off instead of the zero, the digit before its point. */
  function Lead(x: real): string {
    if FractionalMinute(x) < 0.0 && 0 <= Millionths(x) then Print(Millionths(x) / MILLION) else ""
  }

  /** The parts of a printed angle. */
  lemma TextOf(x: real, digits: nat) returns (fraction: string)
    ensures AllDigits(fraction) && |fraction| == 6 && Read(fraction) == Kept(x)
    ensures FormatDegrees(x, digits) ==
            PrintInteger(WholeDegrees(x), digits) + ((PrintInteger(WholeMinutes(x), 2) + Lead(x)) + "." + fraction)
  {
    MillionthsInRange(x);
    var q: nat := Millionths(x);
    PowSix();
    fraction := Padded(q % MILLION, 6);
    PaddedLength(q % MILLION, 6);
    ReadPadded(q % MILLION, 6);
    FractionText(FractionalMinute(x), q);
    hide Read, Print, Padded, PrintInteger, PrintFraction, WholeDegrees, WholeMinutes, FractionalMinute, Pow10;
    assert PrintFraction(FractionalMinute(x))[1..] == Lead(x) + "." + fraction;
    Regroup(PrintInteger(WholeDegrees(x), digits), PrintInteger(WholeMinutes(x), 2), Lead(x), "." + fraction);
    Associative(Lead(x), ".", fraction);
    Associative(PrintInteger(WholeMinutes(x), 2) + Lead(x), ".", fraction);
  }

  lemma FractionText(f: real, q: nat)
    requires q == RoundHalfEven(Abs(f) * 1000000.0) && q <= MILLION
    ensures PrintFraction(f)[1..] ==
            (if f < 0.0 then Print(q / MILLION) else "") + "." + Padded(q % MILLION, 6)
  {
    assert |Print(q / MILLION)| == 1;
    hide Print, Padded, RoundHalfEven;
    var unsigned := Print(q / MILLION) + "." + Padded(q % MILLION, 6);
    assert unsigned[1..] == "." + Padded(q % MILLION, 6);
    assert ("-" + unsigned)[1..] == unsigned;
  }

  /** The parts of a printed angle that is not negative. */
  lemma PlainTextOf(x: real, digits: nat) returns (degrees: string, minutes: string, fraction: string)
    requires 0.0 <= x
    ensures 0 <= WholeDegrees(x) && degrees == Padded(WholeDegrees(x), digits)
    ensures AllDigits(minutes) && |minutes| == 2 && Read(minutes) == WholeMinutes(x)
    ensures AllDigits(fraction) && |fraction| == 6 && Read(fraction) == Kept(x)
    ensures FormatDegrees(x, digits) == degrees + (minutes + "." + fraction)
  {
    Split(x);
    PowSix();
    var m: nat := WholeMinutes(x);
    degrees := Padded(WholeDegrees(x), digits);
    minutes := Padded(m, 2);
    PaddedLength(m, 2);
    ReadPadded(m, 2);
    hide Print, Padded, FormatDegrees;
    fraction := TextOf(x, digits);
    assert minutes + Lead(x) == minutes;
  }

  /** The value of digits, a point, and six digits. */
  lemma {:induction false} DecimalsOf(whole: string, fraction: string)
    requires AllDigits(whole) && AllDigits(fraction) && |fraction| == 6
    ensures Decimals(whole + "." + fraction) == Read(whole) as real + Read(fraction) as real / 1000000.0
  {
    PartsOf(whole, fraction);
    PowSix();
    hide Read, Pow10, Whole, Fraction;
    assert Pow10(|fraction|) as real == 1000000.0;
  }

  lemma PartsOf(whole: string, fraction: string)
    requires AllDigits(whole) && AllDigits(fraction)
    ensures Whole(whole + "." + fraction) == whole && Fraction(whole + "." + fraction) == fraction
  {
    var s := whole + "." + fraction;
    assert s == whole + ("." + fraction);
    DigitCountOf(whole, "." + fraction);
    assert s[..|whole|] == whole && s[|whole| + 1..] == fraction;
    DigitCountOf(fraction, "");
    assert fraction + "" == fraction;
  }

  lemma {:induction false} ToFOf(whole: string, fraction: string)
    requires AllDigits(whole) && AllDigits(fraction) && |fraction| == 6
    ensures ToF(whole + "." + fraction) == Read(whole) as real + Read(fraction) as real / 1000000.0
    ensures ToF("-" + (whole + "." + fraction)) == -(Read(whole) as real + Read(fraction) as real / 1000000.0)
  {
    DecimalsOf(whole, fraction);
    hide Decimals, Read;
    var s := whole + "." + fraction;
    assert s[0] != '-' && s[0] != '+';
    assert ("-" + s)[1..] == s;
  }

  /** x is n with the decimal point moved to the left by some places. */
  predicate IsMoved(x: real, n: nat, places: nat) {
    x * Pow10(places) as real == n as real
  }

  /** Decimal fractions of any length: the value is that of all digits together with the point moved to
      the left by as many places as the fraction has. Without a point it is that of the digits. */
  lemma {:induction false} ToFOfDigits(whole: string, fraction: string)
    requires AllDigits(whole) && AllDigits(fraction)
    ensures AllDigits(whole + fraction)
    ensures IsMoved(ToF(whole + "." + fraction), Read(whole + fraction), |fraction|)
    ensures ToF("-" + (whole + "." + fraction)) == -ToF(whole + "." + fraction)
    ensures ToF("+" + (whole + "." + fraction)) == ToF(whole + "." + fraction)
    ensures ToF(whole) == Read(whole) as real
  {
    WholeOnly(whole);
    hide *;
    ReadConcat(whole, fraction);
    MovesPoint(whole, fraction);
    SignBefore(whole, fraction);
  }

  lemma MovesPoint(whole: string, fraction: string)
    requires AllDigits(whole) && AllDigits(fraction)
    ensures AllDigits(whole + fraction) && IsMoved(Decimals(whole + "." + fraction), Read(whole + fraction), |fraction|)
  {
    hide *;
    ReadConcat(whole, fraction);
    PartsOf(whole, fraction);
    DecimalsAre(whole + "." + fraction, whole, fraction);
    Moved(Decimals(whole + "." + fraction), Read(whole), Read(fraction), Read(whole + fraction), |fraction|);
  }

  lemma DecimalsAre(t: string, whole: string, fraction: string)
    requires whole == Whole(t) && fraction == Fraction(t)
    ensures Decimals(t) == Read(whole) as real + Read(fraction) as real / Pow10(|fraction|) as real
  {
  }

  lemma Moved(x: real, w: nat, f: nat, n: nat, places: nat)
    requires x == w as real + f as real / Pow10(places) as real && n == w * Pow10(places) + f
    ensures IsMoved(x, n, places)
  {
    MovedPoint(w, f, Pow10(places), x);
  }

  lemma SignBefore(whole: string, fraction: string)
    requires AllDigits(whole)
    ensures var s := whole + "." + fraction;
            ToF(s) == Decimals(s) && ToF("-" + s) == -Decimals(s) && ToF("+" + s) == Decimals(s)
  {
    hide Decimals;
    var s := whole + "." + fraction;
    assert s[0] == if whole == "" then '.' else whole[0];
    assert ("-" + s)[1..] == s && ("+" + s)[1..] == s;
  }

  lemma WholeOnly(whole: string)
    requires AllDigits(whole)
    ensures ToF(whole) == Read(whole) as real
  {
    DigitCountOf(whole, "");
    assert whole + "" == whole && whole[..|whole|] == whole;
    assert Fraction(whole) == "";
    hide Read;
    assert Unsigned(whole) == whole;
    NoFraction(whole);
  }

  lemma NoFraction(t: string)
    requires Fraction(t) == ""
    ensures Decimals(t) == Read(Whole(t)) as real
  {
    assert Pow10(0) == 1 && Read("") == 0;
  }

  /** An angle of fixed-length degrees and minutes with a decimal fraction of any length, or none: the
      degrees, and the minutes with the fraction. */
  lemma {:induction false} ParsesDegrees(degrees: string, minutes: string, fraction: string) returns (m: real)
    requires AllDigits(degrees) && AllDigits(minutes) && AllDigits(fraction) && degrees != "" && |minutes| == 2
    ensures ParseDegrees(degrees + (minutes + "." + fraction), |degrees|) == Read(degrees) as real + m / 60.0
    ensures AllDigits(minutes + fraction) && IsMoved(m, Read(minutes + fraction), |fraction|)
    ensures ParseDegrees(degrees + minutes, |degrees|) == Read(degrees) as real + Read(minutes) as real / 60.0
  {
    ToFOfDigits(minutes, fraction);
    ToIOf(degrees);
    hide *;
    ParseFitting(degrees, minutes + "." + fraction, |degrees|);
    ParseFitting(degrees, minutes, |degrees|);
    m := ToF(minutes + "." + fraction);
  }

  lemma PowSix()
    ensures Pow10(6) == MILLION && Pow10(2) == 100
  {
    assert Pow10(1) == 10 * Pow10(0);
    assert Pow10(3) == 10 * Pow10(2);
    assert Pow10(5) == 10 * Pow10(4);
  }

  lemma {:induction false} ToIOf(s: string)
    requires AllDigits(s)
    ensures ToI(s) == Read(s) && ToI("-" + s) == -(Read(s) as int) && ToI("+" + s) == Read(s)
  {
    DigitCountOf(s, "");
    assert s + "" == s && ("-" + s)[1..] == s && ("+" + s)[1..] == s;
  }

  /** A number ends where something else follows its digits, or the digits after its point. */
  lemma ReadingStops(whole: string, fraction: string, rest: string)
    requires AllDigits(whole) && AllDigits(fraction) && whole != ""
    requires rest != "" && !IsDigit(rest[0]) && rest[0] != '_' && rest[0] != 'e' && rest[0] != 'E'
    ensures ToI(whole + rest) == Read(whole)
    ensures rest[0] != '.' ==> ToF(whole + rest) == Read(whole) as real
    ensures ToF(whole + "." + fraction + rest) == ToF(whole + "." + fraction)
  {
    hide Read, Pow10, ToF, ToI, Whole, Fraction;
    IntegerStops(whole, rest);
    if rest[0] != '.' {
      StopsAtPoint(whole, rest);
    }
    StopsAfterFraction(whole, fraction, rest);
    PartsOf(whole, fraction);
    SameParts(whole + "." + fraction + rest, whole + "." + fraction, whole[0]);
  }

  lemma IntegerStops(whole: string, rest: string)
    requires AllDigits(whole) && whole != "" && rest != "" && !IsDigit(rest[0])
    ensures ToI(whole + rest) == Read(whole)
  {
    DigitCountOf(whole, rest);
    assert (whole + rest)[..|whole|] == whole && (whole + rest)[0] == whole[0];
    hide Read;
  }

  lemma SameParts(t: string, t': string, c: char)
    requires t != "" && t' != "" && t[0] == t'[0] == c && IsDigit(c)
    requires Whole(t) == Whole(t') && Fraction(t) == Fraction(t')
    ensures ToF(t) == ToF(t')
  {
    hide Read, Whole, Fraction, Pow10;
  }

  lemma StopsAtPoint(whole: string, rest: string)
    requires AllDigits(whole) && whole != "" && rest != "" && !IsDigit(rest[0]) && rest[0] != '.'
    ensures ToF(whole + rest) == Read(whole) as real
  {
    DigitCountOf(whole, rest);
    var t := whole + rest;
    assert t[..|whole|] == whole && Fraction(t) == "";
    NoFraction(t);
    hide Decimals, Read;
    assert Unsigned(t) == t;
  }

  lemma StopsAfterFraction(whole: string, fraction: string, rest: string)
    requires AllDigits(whole) && AllDigits(fraction) && rest != "" && !IsDigit(rest[0])
    ensures var t := whole + "." + fraction + rest; Whole(t) == whole && Fraction(t) == fraction
  {
    var t := whole + "." + fraction + rest;
    assert t == whole + ("." + fraction + rest);
    DigitCountOf(whole, "." + fraction + rest);
    DigitCountOf(fraction, rest);
    assert t[..|whole|] == whole && t[|whole| + 1..] == fraction + rest && (fraction + rest)[..|fraction|] == fraction;
  }

  /** The text read back: all degree digits beyond the fixed number are taken for minutes. */
  lemma ParseOf(degrees: string, minutes: string, fraction: string, digits: nat)
    requires AllDigits(degrees) && AllDigits(minutes) && AllDigits(fraction)
    requires 0 < digits <= |degrees| && |fraction| == 6
    ensures AllDigits(degrees[digits..] + minutes)
    ensures ParseDegrees(degrees + (minutes + "." + fraction), digits) ==
            Read(degrees[..digits]) as real +
            (Read(degrees[digits..] + minutes) as real + Read(fraction) as real / 1000000.0) / 60.0
  {
    hide Read, ToI, ToF;
    var s := degrees + (minutes + "." + fraction);
    assert s[..digits] == degrees[..digits];
    assert s[digits..] == (degrees[digits..] + minutes) + "." + fraction;
    ToIOf(degrees[..digits]);
    ToFOf(degrees[digits..] + minutes, fraction);
  }

  /** Half a millionth of a minute, in degrees. */
  const TOLERANCE := 0.0000005 / 60.0

  /** With all degrees in the fixed digits, the error is that of the millionths kept. */
  lemma FittingDegrees(x: real, digits: nat)
    requires 0.0 <= x < Pow10(digits) as real && 0 < digits
    ensures ParseDegrees(FormatDegrees(x, digits), digits) - x ==
            (Kept(x) as real / 1000000.0 - FractionalMinute(x)) / 60.0
  {
    Split(x);
    var d: nat := WholeDegrees(x);
    assert d < Pow10(digits);
    hide Read, Pow10, Padded, FormatDegrees, ParseDegrees, Kept, WholeDegrees, WholeMinutes, FractionalMinute;
    var degrees, minutes, fraction := PlainTextOf(x, digits);
    PaddedLength(d, digits);
    ReadPadded(d, digits);
    ParseOf(degrees, minutes, fraction, digits);
    assert degrees[..digits] == degrees && degrees[digits..] + minutes == minutes;
  }

  /** What is lost when the digits of a long numeral beyond the first few are read as minutes. */
  lemma {:induction false} SplitNumeral(n: nat, digits: nat, minutes: string)
    requires 0 < digits < |Print(n)| && AllDigits(minutes) && |minutes| == 2
    ensures var head, rest := Print(n)[..digits], Print(n)[digits..];
            && AllDigits(rest + minutes)
            && Read(rest + minutes) == 100 * Read(rest) + Read(minutes)
            && 60 * (n - Read(head)) - 100 * Read(rest) >= 180
  {
    hide *;
    NumeralParts(n, digits);
    AppendMinutes(Print(n)[digits..], minutes);
    TooLow(Read(Print(n)[..digits]), Read(Print(n)[digits..]), Pow10(|Print(n)| - digits));
  }

  lemma NumeralParts(n: nat, digits: nat)
    requires 0 < digits < |Print(n)|
    ensures var head, rest, p := Print(n)[..digits], Print(n)[digits..], Pow10(|Print(n)| - digits);
            && AllDigits(head) && AllDigits(rest)
            && 0 < Read(head) && Read(rest) < p && 10 <= p && n == Read(head) * p + Read(rest)
  {
    LongIsPositive(n, digits);
    hide Read, Print, Pow10;
    var head, rest := Print(n)[..digits], Print(n)[digits..];
    assert Print(n) == head + rest;
    LeadingDigit(n);
    HeadIsPositive(head);
    ReadPrint(n);
    ReadConcat(head, rest);
    ReadBound(rest);
    PowTen(|rest|);
  }

  lemma AppendMinutes(rest: string, minutes: string)
    requires AllDigits(rest) && AllDigits(minutes) && |minutes| == 2
    ensures AllDigits(rest + minutes) && Read(rest + minutes) == 100 * Read(rest) + Read(minutes)
  {
    hide *;
    ReadConcat(rest, minutes);
    PowSix();
    TimesHundred(Read(rest), Pow10(|minutes|));
  }

  lemma LongIsPositive(n: nat, digits: nat)
    requires 0 < digits < |Print(n)|
    ensures 0 < n
  {
  }

  /** With more degrees, the text reads back far too low. */
  lemma TooManyDegrees(x: real, digits: nat)
    requires Pow10(digits) as real <= x && 0 < digits
    ensures x - ParseDegrees(FormatDegrees(x, digits), digits) >= 2.0
  {
    Split(x);
    var d := WholeDegrees(x);
    var degrees, minutes, fraction := PlainTextOf(x, digits);
    PaddedLength(d, digits);
    hide *;
    PowTen(digits);
    assert Pow10(digits) <= d;
    LongText(d, minutes, fraction, digits);
  }

  lemma LongText(d: nat, minutes: string, fraction: string, digits: nat)
    requires 0 < digits < |Print(d)|
    requires AllDigits(minutes) && |minutes| == 2 && Read(minutes) < 60 && AllDigits(fraction) && |fraction| == 6
    ensures ParseDegrees(Print(d) + (minutes + "." + fraction), digits) <= d as real - 2.0
  {
    hide *;
    PowSix();
    ReadBound(fraction);
    SplitNumeral(d, digits, minutes);
    LongParts(d, digits);
    ParseOf(Print(d), minutes, fraction, digits);
    Shortfall(d as real, d, Read(Print(d)[..digits]), Read(Print(d)[digits..]), Read(minutes), Read(fraction));
  }

  lemma LongParts(d: nat, digits: nat)
    requires digits <= |Print(d)|
    ensures AllDigits(Print(d)[..digits]) && AllDigits(Print(d)[digits..]) && MILLION == 1000000
  {
    hide Print;
  }

  lemma Shortfall(x: real, d: nat, h: nat, r: nat, m: nat, f: nat)
    requires d as real <= x && 60 * (d - h) - 100 * r >= 180 && m < 60 && f < MILLION
    ensures x - (h as real + ((100 * r + m) as real + f as real / 1000000.0) / 60.0) >= 2.0
  {
    assert f as real / 1000000.0 < 1.0;
    assert (60 * (d - h) - 100 * r) as real == 60.0 * (d as real - h as real) - 100.0 * r as real;
  }

  lemma TooLow(h: nat, r: nat, p: nat)
    requires 1 <= h && r < p && 10 <= p
    ensures h * p + r >= h + 9
    ensures 60 * (h * p + r - h) - 100 * r >= 180
  {
    assert (h - 1) * (p - 1) >= 0;
    assert h * p - h == (h - 1) * (p - 1) + (p - 1);
  }

  /** A numeral without padding starts with a digit other than zero. */
  lemma {:induction false} LeadingDigit(n: nat)
    requires 0 < n
    ensures Print(n)[0] != '0'
  {
    if n >= 10 {
      LeadingDigit(n / 10);
    }
  }

  lemma {:induction false} HeadIsPositive(s: string)
    requires AllDigits(s) && s != "" && s[0] != '0'
    ensures 0 < Read(s)
  {
    if |s| > 1 {
      HeadIsPositive(s[..|s| - 1]);
    }
  }

  lemma KeptError(x: real)
    requires 0.0 <= x
    ensures Abs(Kept(x) as real / 1000000.0 - FractionalMinute(x)) <= 0.0000005 <==> FractionalMinute(x) < 0.9999995
  {
    Split(x);
    RoundHalfEvenError(FractionalMinute(x) * 1000000.0);
    assert Kept(x) == if Millionths(x) < MILLION then Millionths(x) else 0;
    hide Kept, FractionalMinute, RoundHalfEven;
  }

  // ----- negative angles

  /** Where the degrees of a negative angle fit the fixed number of digits, of which one is the sign,
      they read back. */
  lemma NegativeDegrees(d: int, digits: nat)
    requires 0 <= d && 0 < digits && (d == 0 || d < Pow10(digits - 1))
    ensures var s := PrintInteger(-d, digits); |s| == digits && ToI(s) == -d
  {
    if d == 0 {
      assert Pow10(digits) >= 1;
      PaddedLength(0, digits);
      ReadPadded(0, digits);
      ToIOf(Padded(0, digits));
    } else {
      assert digits > 1 by {
        assert Pow10(0) == 1;
      }
      PaddedLength(d, digits - 1);
      ReadPadded(d, digits - 1);
      ToIOf(Padded(d, digits - 1));
    }
  }

  /** How the whole minute, the digit that is left of the fraction, and the fraction read back. */
  lemma NegativeMinutes(m: int, lead: string, fraction: string)
    requires 0 <= m && AllDigits(lead) && AllDigits(fraction) && |fraction| == 6 && |lead| <= 1
    ensures ToF((PrintInteger(-m, 2) + lead) + "." + fraction) ==
            var v := (if lead == "" then m else 10 * m + Read(lead)) as real + Read(fraction) as real / 1000000.0;
            if m == 0 then v else -v
  {
    var text := MinutesText(m);
    hide *;
    var all := text + lead;
    AppendLead(text, m, lead);
    ToFOf(all, fraction);
    var sign := if m == 0 then "" else "-";
    assert PrintInteger(-m, 2) == sign + text;
    SignFirst(sign, text, lead, "." + fraction);
    Associative((sign + text) + lead, ".", fraction);
    Associative(all, ".", fraction);
    assert "" + (all + "." + fraction) == all + "." + fraction;
  }

  lemma MinutesText(m: int) returns (text: string)
    requires 0 <= m
    ensures AllDigits(text) && Read(text) == m
    ensures PrintInteger(-m, 2) == (if m == 0 then "" else "-") + text
  {
    hide Read, Print;
    text := if m == 0 then Padded(0, 2) else Padded(m, 1);
    ReadPadded(0, 2);
    ReadPadded(m, 1);
    assert "" + text == text;
  }

  lemma AppendLead(text: string, m: int, lead: string)
    requires AllDigits(text) && Read(text) == m && AllDigits(lead) && |lead| <= 1
    ensures AllDigits(text + lead)
    ensures Read(text + lead) == if lead == "" then m else 10 * m + Read(lead)
  {
    ReadConcat(text, lead);
    assert Pow10(1) == 10 * Pow10(0);
    assert lead == "" ==> text + lead == text;
    hide Read;
  }

  /** With all degrees in the fixed digits, the error is that of the minutes. */
  lemma FittingNegative(x: real, digits: nat)
    requires x < 0.0 && 0 < digits && (WholeDegrees(x) == 0 || -WholeDegrees(x) < Pow10(digits - 1))
    ensures WholeMinutes(x) <= 0 && -1.0 < FractionalMinute(x) <= 0.0 && 0 <= Millionths(x)
    ensures var m, f, q := -WholeMinutes(x), -FractionalMinute(x), Millionths(x) as real / 1000000.0;
            60.0 * (ParseDegrees(FormatDegrees(x, digits), digits) - x) ==
            (if m == 0 then q + f else if f == 0.0 then 0.0 else -(9.0 * m as real + q - f))
  {
    NegativeParts(x);
    var v, tail := NegativeRead(x, digits);
    var p := ParseDegrees(FormatDegrees(x, digits), digits);
    hide FormatDegrees, ParseDegrees, Pow10, WholeDegrees, WholeMinutes, Millionths, FractionalMinute;
    var d, m, f, q := -WholeDegrees(x), -WholeMinutes(x), -FractionalMinute(x), Millionths(x);
    NegativeTail(m, f, q, v, q % MILLION, tail);
    MinutesError(p, x, d, m, f, tail);
  }

  /** The whole minutes m of a negative angle are read as m, or as m followed by the digit that is
      left of the fraction. */
  predicate MinutesReadBack(x: real, v: int, tail: real) {
    var m, q := -WholeMinutes(x), Millionths(x);
    v == (if FractionalMinute(x) == 0.0 then m else 10 * m + q / MILLION) &&
    tail == var t := v as real + (q % MILLION) as real / 1000000.0; if m == 0 then t else -t
  }

  lemma NegativeRead(x: real, digits: nat) returns (v: int, tail: real)
    requires x < 0.0 && 0 < digits && (WholeDegrees(x) == 0 || -WholeDegrees(x) < Pow10(digits - 1))
    ensures MinutesReadBack(x, v, tail)
    ensures ParseDegrees(FormatDegrees(x, digits), digits) == WholeDegrees(x) as real + tail / 60.0
  {
    NegativeParts(x);
    hide *;
    var fraction := TextOf(x, digits);
    v, tail := NegativeTailRead(x, fraction);
    NegativeDegrees(-WholeDegrees(x), digits);
    ParseFitting(PrintInteger(WholeDegrees(x), digits),
      (PrintInteger(WholeMinutes(x), 2) + Lead(x)) + "." + fraction, digits);
  }

  lemma NegativeTailRead(x: real, fraction: string) returns (v: int, tail: real)
    requires x < 0.0 && AllDigits(fraction) && |fraction| == 6 && Read(fraction) == Kept(x)
    ensures MinutesReadBack(x, v, tail)
    ensures ToF((PrintInteger(WholeMinutes(x), 2) + Lead(x)) + "." + fraction) == tail
  {
    NegativeParts(x);
    hide *;
    var m, q := -WholeMinutes(x), Millionths(x);
    LeadOf(x, q);
    NegativeMinutes(m, Lead(x), fraction);
    assert -m == WholeMinutes(x);
    v := if Lead(x) == "" then m else 10 * m + Read(Lead(x));
    tail := ToF((PrintInteger(WholeMinutes(x), 2) + Lead(x)) + "." + fraction);
    ReadBack(x, m, q, v, tail);
  }

  lemma ReadBack(x: real, m: int, q: int, v: int, tail: real)
    requires m == -WholeMinutes(x) && q == Millionths(x)
    requires v == if FractionalMinute(x) == 0.0 then m else 10 * m + q / MILLION
    requires tail == var t := v as real + (q % MILLION) as real / 1000000.0; if m == 0 then t else -t
    ensures MinutesReadBack(x, v, tail)
  {
  }

  lemma NegativeParts(x: real)
    requires x < 0.0
    ensures WholeDegrees(x) <= 0 && WholeMinutes(x) <= 0 && -1.0 < FractionalMinute(x) <= 0.0
    ensures -x == (-WholeDegrees(x)) as real + ((-WholeMinutes(x)) as real + (-FractionalMinute(x))) / 60.0
    ensures 0 <= Millionths(x) <= MILLION && Kept(x) == Millionths(x) % MILLION
    ensures FractionalMinute(x) == 0.0 ==> Millionths(x) == 0
  {
    Mirror(x);
    Split(-x);
    NoMillionths(x);
    hide WholeDegrees, WholeMinutes, FractionalMinute, Millionths;
  }

  lemma NegativeTail(m: int, f: real, q: nat, v: int, rest: nat, tail: real)
    requires 0 <= m && (f == 0.0 ==> q == 0) && rest == q % MILLION
    requires v == if f == 0.0 then m else 10 * m + q / MILLION
    requires tail == var t := v as real + rest as real / 1000000.0; if m == 0 then t else -t
    ensures tail + m as real + f ==
            if m == 0 then q as real / 1000000.0 + f
            else if f == 0.0 then 0.0 else -(9.0 * m as real + q as real / 1000000.0 - f)
  {
    SplitMillions(q);
    assert (10 * m + q / MILLION) as real == 10.0 * m as real + (q / MILLION) as real;
  }

  lemma MinutesError(p: real, x: real, d: int, m: int, f: real, tail: real)
    requires p == (-d) as real + tail / 60.0 && -x == d as real + (m as real + f) / 60.0
    ensures 60.0 * (p - x) == tail + m as real + f
  {
  }

  lemma SplitMillions(q: nat)
    ensures q as real / 1000000.0 == (q / MILLION) as real + (q % MILLION) as real / 1000000.0
  {
    assert q == (q / MILLION) * MILLION + q % MILLION;
    assert q as real == (q / MILLION) as real * 1000000.0 + (q % MILLION) as real;
  }

  lemma NoMillionths(x: real)
    ensures FractionalMinute(x) == 0.0 ==> Millionths(x) == 0
  {
    RoundHalfEvenInteger(0);
  }

  lemma LeadOf(x: real, q: nat)
    requires q == Millionths(x) <= MILLION
    ensures AllDigits(Lead(x)) && |Lead(x)| <= 1
    ensures Lead(x) == "" <==> 0.0 <= FractionalMinute(x)
    ensures Lead(x) != "" ==> Read(Lead(x)) == q / MILLION
  {
    ReadPrint(q / MILLION);
  }

  lemma ParseFitting(degrees: string, tail: string, digits: nat)
    requires 0 < digits == |degrees|
    ensures ParseDegrees(degrees + tail, digits) == ToI(degrees) as real + ToF(tail) / 60.0
  {
    hide ToI, ToF;
    assert (degrees + tail)[..digits] == degrees && (degrees + tail)[digits..] == tail;
  }

  /** With more degrees, the text of a negative angle reads back far too high. */
  lemma TooManyNegativeDegrees(x: real, digits: nat)
    requires x < 0.0 && 0 < digits && WholeDegrees(x) != 0 && Pow10(digits - 1) <= -WholeDegrees(x)
    ensures ParseDegrees(FormatDegrees(x, digits), digits) - x >= 1.0
  {
    hide *;
    var d := -WholeDegrees(x);
    NegativeFloor(x);
    OverflowingText(d, digits);
    var fraction := TextOf(x, digits);
    LongNegativeText(d, (PrintInteger(WholeMinutes(x), 2) + Lead(x)) + "." + fraction, digits);
  }

  lemma NegativeFloor(x: real)
    requires x < 0.0
    ensures 0 <= -WholeDegrees(x) && (-WholeDegrees(x)) as real <= -x
  {
  }

  lemma LongNegativeText(d: int, tail: string, digits: nat)
    requires 0 < d && 0 < digits <= |Print(d)|
    ensures ParseDegrees(("-" + Print(d)) + tail, digits) >= 1.0 - d as real
  {
    hide Print, Read, ParseDegrees;
    HeadIsSmaller(d, digits - 1);
    ParseOverflowing(Print(d), tail, digits);
  }

  lemma OverflowingText(d: int, digits: nat)
    requires 0 < digits && 0 < d && Pow10(digits - 1) <= d
    ensures PrintInteger(-d, digits) == "-" + Print(d) && |Print(d)| >= digits
  {
    hide Print, Pow10;
    if digits > 1 {
      PaddedLength(d, digits - 1);
    }
  }

  lemma ParseOverflowing(numeral: string, tail: string, digits: nat)
    requires 0 < digits <= |numeral| && AllDigits(numeral)
    ensures ParseDegrees(("-" + numeral) + tail, digits) >= -(Read(numeral[..digits - 1]) as real)
  {
    hide Read;
    var s := ("-" + numeral) + tail;
    assert s[..digits] == "-" + numeral[..digits - 1];
    assert s[digits..][0] == numeral[digits - 1];
    ToIOf(numeral[..digits - 1]);
    hide ToI, ToF;
  }

  // ----- the round trip, exactly

  /** When printing and parsing keeps an angle. Not negative: the degrees fit the fixed number of
      digits, and the fractional minute does not round up to 1. Negative: the degrees fit one digit
      less, or there are none; and there is no fractional minute, or one that rounds to nothing
      without a whole minute before it. */
  predicate Printable(x: real, digits: nat)
    requires 0 < digits
  {
    if 0.0 <= x then x < Pow10(digits) as real && FractionalMinute(x) < 0.9999995
    else
      && (WholeDegrees(x) == 0 || -WholeDegrees(x) < Pow10(digits - 1))
      && (FractionalMinute(x) == 0.0 || (WholeMinutes(x) == 0 && -0.0000005 <= FractionalMinute(x)))
  }

  lemma NegativeError(x: real, digits: nat)
    requires x < 0.0 && 0 < digits
    ensures Abs(ParseDegrees(FormatDegrees(x, digits), digits) - x) <= TOLERANCE <==> Printable(x, digits)
  {
    if WholeDegrees(x) == 0 || -WholeDegrees(x) < Pow10(digits - 1) {
      FittingNegative(x, digits);
      SmallFraction(x);
      hide FormatDegrees, ParseDegrees, Millionths, WholeDegrees, WholeMinutes, FractionalMinute, Pow10;
    } else {
      TooManyNegativeDegrees(x, digits);
      hide FormatDegrees, ParseDegrees, WholeDegrees, WholeMinutes, FractionalMinute, Pow10;
    }
  }

  lemma SmallFraction(x: real)
    ensures Abs(FractionalMinute(x)) <= 0.0000005 ==> Millionths(x) == 0
  {
    assert Abs(FractionalMinute(x)) <= 0.0000005 ==> Abs(FractionalMinute(x)) * 1000000.0 <= 0.5;
    hide FractionalMinute;
  }

  /** Printing and parsing an angle is exact to half a millionth of a minute exactly when it is
      printable. */
  lemma FormatParseError(x: real, digits: nat)
    requires 0 < digits
    ensures Abs(ParseDegrees(FormatDegrees(x, digits), digits) - x) <= TOLERANCE <==> Printable(x, digits)
  {
    if x < 0.0 {
      NegativeError(x, digits);
    } else {
      KeptError(x);
      hide Kept, FractionalMinute, FormatDegrees, ParseDegrees, Pow10;
      if x < Pow10(digits) as real {
        FittingDegrees(x, digits);
      } else {
        TooManyDegrees(x, digits);
      }
    }
  }

  /** The same for angles in any unit. */
  lemma FormatParseAngleError(angle: real, digits: nat, degree: real)
    requires 0 < digits && 0.0 < degree
    ensures Abs(ParseAngle(FormatDegrees(angle / degree, digits), digits, degree) - angle) <= TOLERANCE * degree <==>
            Printable(angle / degree, digits)
  {
    hide FormatDegrees, ParseAngle, Printable, Abs;
    Quotient(angle, degree);
    ErrorInUnit(angle, angle / degree, digits, degree);
  }

  lemma ErrorInUnit(angle: real, x: real, digits: nat, degree: real)
    requires angle == x * degree && 0 < digits && 0.0 < degree
    ensures Abs(ParseAngle(FormatDegrees(x, digits), digits, degree) - angle) <= TOLERANCE * degree <==>
            Printable(x, digits)
  {
    hide *;
    var text := FormatDegrees(x, digits);
    FormatParseError(x, digits);
    InUnit(text, digits, degree);
    ScaledBy(ParseAngle(text, digits, degree), ParseDegrees(text, digits), angle, x, TOLERANCE, degree);
  }

  lemma InUnit(s: string, digits: nat, degree: real)
    ensures ParseAngle(s, digits, degree) == ParseDegrees(s, digits) * degree
  {
  }

  lemma {:induction false} ParseText(degrees: string, minutes: string, fraction: string) returns (x: real)
    requires AllDigits(degrees) && AllDigits(minutes) && AllDigits(fraction)
    requires degrees != "" && |minutes| == 2 && |fraction| == 6
    ensures x == ParseDegrees(degrees + (minutes + "." + fraction), |degrees|)
    ensures Read(minutes) < 100 && Read(fraction) < MILLION
    ensures x == Read(degrees) as real + (Read(minutes) as real + Read(fraction) as real / 1000000.0) / 60.0
  {
    hide Read, Pow10, ParseDegrees;
    x := ParseDegrees(degrees + (minutes + "." + fraction), |degrees|);
    ParseOf(degrees, minutes, fraction, |degrees|);
    assert degrees[..|degrees|] == degrees && degrees[|degrees|..] + minutes == minutes;
    ReadBound(minutes);
    ReadBound(fraction);
    PowSix();
  }

  /** Parsing and printing: a text with two minute digits and six fractional digits is reproduced
      exactly when its minutes are below 60. */
  lemma {:induction false} ParseFormatText(degrees: string, minutes: string, fraction: string)
    requires AllDigits(degrees) && AllDigits(minutes) && AllDigits(fraction)
    requires degrees != "" && |minutes| == 2 && |fraction| == 6
    ensures var s := degrees + (minutes + "." + fraction);
            FormatDegrees(ParseDegrees(s, |degrees|), |degrees|) == s <==> Read(minutes) < 60
  {
    hide ParseDegrees, FormatDegrees, Read;
    var x := ParseText(degrees, minutes, fraction);
    if Read(minutes) < 60 {
      ReproducesText(x, degrees, minutes, fraction);
    } else {
      ChangesText(x, degrees, minutes, fraction);
    }
  }

  lemma {:induction false} ReproducesText(x: real, degrees: string, minutes: string, fraction: string)
    requires AllDigits(degrees) && AllDigits(minutes) && AllDigits(fraction)
    requires degrees != "" && |minutes| == 2 && |fraction| == 6 && Read(minutes) < 60 && Read(fraction) < MILLION
    requires x == Read(degrees) as real + (Read(minutes) as real + Read(fraction) as real / 1000000.0) / 60.0
    ensures FormatDegrees(x, |degrees|) == degrees + (minutes + "." + fraction)
  {
    hide Read, Padded, FormatDegrees, Kept, WholeMinutes, FractionalMinute, WholeDegrees;
    NonNegativeParts(x, Read(degrees), Read(minutes), Read(fraction));
    ExactParts(x, Read(degrees), Read(minutes), Read(fraction));
    var degrees', minutes', fraction' := PlainTextOf(x, |degrees|);
    PaddedRead(degrees);
    ReadInjective(minutes, minutes');
    ReadInjective(fraction, fraction');
  }

  lemma {:induction false} ChangesText(x: real, degrees: string, minutes: string, fraction: string)
    requires AllDigits(degrees) && AllDigits(minutes) && AllDigits(fraction)
    requires degrees != "" && |minutes| == 2 && |fraction| == 6
    requires 60 <= Read(minutes) < 100 && Read(fraction) < MILLION
    requires x == Read(degrees) as real + (Read(minutes) as real + Read(fraction) as real / 1000000.0) / 60.0
    ensures FormatDegrees(x, |degrees|) != degrees + (minutes + "." + fraction)
  {
    hide Read, Padded, FormatDegrees, Kept, WholeMinutes, FractionalMinute, WholeDegrees;
    NonNegativeParts(x, Read(degrees), Read(minutes), Read(fraction));
    NextDegree(x, Read(degrees), Read(minutes), Read(fraction));
    var degrees', minutes', fraction' := PlainTextOf(x, |degrees|);
    ReadPadded(Read(degrees) + 1, |degrees|);
    assert degrees' != degrees;
    DifferentPrefix(degrees, minutes + "." + fraction, degrees', minutes' + "." + fraction');
  }

  lemma NonNegativeParts(x: real, d: nat, m: nat, f: nat)
    requires x == d as real + (m as real + f as real / 1000000.0) / 60.0
    ensures 0.0 <= x
  {
  }

  lemma DifferentPrefix(a: string, b: string, c: string, d: string)
    requires a != c && |b| == |d|
    ensures a + b != c + d
  {
    assert (a + b)[..|a|] == a && (c + d)[..|c|] == c;
  }

  lemma NextDegree(x: real, d: nat, m: nat, f: nat)
    requires 60 <= m < 100 && f < MILLION
    requires x == d as real + (m as real + f as real / 1000000.0) / 60.0
    ensures WholeDegrees(x) == d + 1
  {
    var g := f as real / 1000000.0;
    assert 0.0 <= g < 1.0;
    assert (d + 1) as real <= x < (d + 2) as real;
  }

  lemma ExactParts(x: real, d: nat, m: nat, f: nat)
    requires m < 60 && f < MILLION
    requires x == d as real + (m as real + f as real / 1000000.0) / 60.0
    ensures WholeDegrees(x) == d && WholeMinutes(x) == m && Kept(x) == f
  {
    var g := f as real / 1000000.0;
    assert 0.0 <= g < 1.0;
    assert x.Floor == d;
    assert (x - d as real) * 60.0 == m as real + g;
    assert (m as real + g).Floor == m;
    assert FractionalMinute(x) == g;
    assert g * 1000000.0 == f as real;
    RoundHalfEvenInteger(f);
  }
}
