/** Longitudes: rounding to degrees, minutes and seconds, printing, parsing, and normalisation. */
module Longitude {
  import opened Decimal
  import opened Reals
  import opened Texts

  datatype Longitude = Longitude(value: real, valid: bool)

  const INVALID := Longitude(0.0, false)

  /** The exclusive bounds of an unsigned and of a signed 32-bit integer. */
  const UINT_END := 0x1_0000_0000
  const INT_END := 0x8000_0000

  function Magnitude(degrees: nat, minutes: nat, seconds: nat): real {
    degrees as real + minutes as real / 60.0 + seconds as real / 3600.0
  }

  function FromDms(degrees: nat, minutes: nat, seconds: nat, positive: bool): Longitude {
    var value := Magnitude(degrees, minutes, seconds);
    Longitude(if positive then value else -value, true)
  }

  // ----- rounding to seconds

  function RoundedSeconds(value: real): int {
    (value * 3600.0 + 0.5).Floor
  }

  /** The conversion to int and the following abs() are defined. */
  predicate InRange(value: real) {
    -INT_END < RoundedSeconds(value) < INT_END
  }

  datatype Dms = Dms(degrees: nat, minutes: nat, seconds: nat, positive: bool, remainder: real)

  function ToDmsSpec(value: real): Dms
    requires InRange(value)
  {
    var rounded := RoundedSeconds(value);
    var total: nat := if rounded >= 0 then rounded else -rounded;
    Dms(total / 3600, total / 60 % 60, total % 60, rounded >= 0, value - rounded as real / 3600.0)
  }

  method ToDms(longitude: Longitude)
    returns (degrees: nat, minutes: nat, seconds: nat, positive: bool, remainder: real)
    requires InRange(longitude.value)
    ensures minutes < 60 && seconds < 60
    ensures longitude.value == FromDms(degrees, minutes, seconds, positive).value + remainder
    ensures -1.0 / 7200.0 <= remainder < 1.0 / 7200.0
    ensures positive <==> -1.0 / 7200.0 <= longitude.value
    ensures Dms(degrees, minutes, seconds, positive, remainder) == ToDmsSpec(longitude.value)
  {
    var valueSeconds := longitude.value * 3600.0;
    var rounded := (valueSeconds + 0.5).Floor;
    remainder := (valueSeconds - rounded as real) / 3600.0;
    positive := rounded >= 0;
    rounded := if rounded < 0 then -rounded else rounded;
    ghost var total := rounded;

    seconds := rounded % 60;
    rounded := rounded / 60;
    minutes := rounded % 60;
    rounded := rounded / 60;
    degrees := rounded;

    assert total == 3600 * degrees + 60 * minutes + seconds;
    DmsOfTotal(total, degrees, minutes, seconds);
  }

  /** The documented sign, positive for values from 0 on, is the one computed exactly for the values
      that do not round up to zero: it fails from -1/7200 on, below 0. */
  lemma SignIsDocumented(value: real)
    requires InRange(value)
    ensures (ToDmsSpec(value).positive <==> 0.0 <= value) <==> !(-1.0 / 7200.0 <= value < 0.0)
  {
    var x := value * 3600.0 + 0.5;
    assert 0 <= RoundedSeconds(value) <==> 0.0 <= x;
  }

  /** For example, a quarter of a second west is positive. */
  lemma QuarterSecondWest()
    ensures InRange(-1.0 / 14400.0) && ToDmsSpec(-1.0 / 14400.0).positive
  {
    assert RoundedSeconds(-1.0 / 14400.0) == 0;
  }

  lemma DmsOfTotal(total: nat, degrees: nat, minutes: nat, seconds: nat)
    requires total == 3600 * degrees + 60 * minutes + seconds && minutes < 60 && seconds < 60
    ensures total / 3600 == degrees && total / 60 % 60 == minutes && total % 60 == seconds
    ensures Magnitude(degrees, minutes, seconds) == total as real / 3600.0
  {
    assert total / 60 == 60 * degrees + minutes;
  }

  /** The result is determined by its properties: any split with minutes and seconds below 60
      and a remainder in the half-open interval is the one computed. */
  lemma DmsIsUnique(value: real, d: Dms)
    requires InRange(value)
    requires d.minutes < 60 && d.seconds < 60
    requires value == FromDms(d.degrees, d.minutes, d.seconds, d.positive).value + d.remainder
    requires -1.0 / 7200.0 <= d.remainder < 1.0 / 7200.0
    requires d.positive || 0 < d.degrees + d.minutes + d.seconds
    ensures d == ToDmsSpec(value)
  {
    var total := 3600 * d.degrees + 60 * d.minutes + d.seconds;
    DmsOfTotal(total, d.degrees, d.minutes, d.seconds);
    var signed := if d.positive then total else -total;
    assert value * 3600.0 + 0.5 == signed as real + (d.remainder * 3600.0 + 0.5);
    assert RoundedSeconds(value) == signed;
  }

  lemma SecondsOfDms(degrees: nat, minutes: nat, seconds: nat, positive: bool)
    ensures var total := 3600 * degrees + 60 * minutes + seconds;
            var value := FromDms(degrees, minutes, seconds, positive).value;
            && RoundedSeconds(value) == (if positive then total else -total)
            && value == RoundedSeconds(value) as real / 3600.0
  {
    var total := 3600 * degrees + 60 * minutes + seconds;
    assert Magnitude(degrees, minutes, seconds) * 3600.0 == total as real;
  }

  /** What the constructor from degrees, minutes and seconds makes can be converted back exactly
      when it has less than 2^31 seconds. It is then inverted, except for the sign of zero, exactly
      when minutes and seconds are below 60. */
  lemma DmsRoundTrip(degrees: nat, minutes: nat, seconds: nat, positive: bool)
    ensures var value := FromDms(degrees, minutes, seconds, positive).value;
            && (InRange(value) <==> 3600 * degrees + 60 * minutes + seconds < INT_END)
            && (InRange(value) ==>
                  var d := ToDmsSpec(value);
                  && d.remainder == 0.0
                  && 3600 * d.degrees + 60 * d.minutes + d.seconds == 3600 * degrees + 60 * minutes + seconds
                  && (d.positive <==> positive || degrees + minutes + seconds == 0)
                  && ((d.degrees, d.minutes, d.seconds) == (degrees, minutes, seconds) <==>
                        minutes < 60 && seconds < 60))
  {
    SecondsOfDms(degrees, minutes, seconds, positive);
    hide FromDms, RoundedSeconds;
    var total := 3600 * degrees + 60 * minutes + seconds;
    SplitTotal(total);
    if minutes < 60 && seconds < 60 {
      DmsOfTotal(total, degrees, minutes, seconds);
    }
  }

  lemma SplitTotal(total: nat)
    ensures total == 3600 * (total / 3600) + 60 * (total / 60 % 60) + total % 60
    ensures total / 60 % 60 < 60 && total % 60 < 60
  {
    assert total / 60 / 60 == total / 3600;
  }

  // ----- printing

  const DEGREE_SIGN := '\U{00B0}'
  const MINUTE_SIGN := '\''
  const SECOND_SIGN := '\"'

  function Format(longitude: Longitude, positiveString: string, negativeString: string): string
    requires InRange(longitude.value)
  {
    var d := ToDmsSpec(longitude.value);
    Print(d.degrees) + [DEGREE_SIGN] + " " + Print(d.minutes) + [MINUTE_SIGN] + " " +
    Print(d.seconds) + [SECOND_SIGN] + " " + (if d.positive then positiveString else negativeString)
  }

  // ----- parsing

  function Trimmed(s: string): string {
    DropLastSpaces(DropSpaces(s))
  }

  datatype Match<T> = NoMatch | Match(captured: T, rest: string)

  /** Matches (\d+)m? for the unit sign m. */
  function MatchNumber(s: string, sign: char): (m: Match<string>)
    ensures m.Match? ==> m.captured != "" && AllDigits(m.captured)
  {
    var n := DigitCount(s);
    if n == 0 then NoMatch
    else Match(s[..n], if n < |s| && s[n] == sign then s[n + 1..] else s[n..])
  }

  /** Matches \s+. */
  function MatchSpaces(s: string): Match<()> {
    if s != "" && IsSpace(s[0]) then Match((), DropSpaces(s)) else NoMatch
  }

  datatype Numbers = Numbers(degrees: string, minutes: string, seconds: string)

  /** Matches (\d+)°?\s+(\d+)'?\s+(\d+)"?. Digits, signs and spaces are disjoint, so the pattern
      has one way to match at most. */
  function MatchNumbers(s: string): (m: Match<Numbers>)
    ensures m.Match? ==>
              && AllDigits(m.captured.degrees) && AllDigits(m.captured.minutes) && AllDigits(m.captured.seconds)
  {
    var d := MatchNumber(s, DEGREE_SIGN);
    if d.NoMatch? then NoMatch else
    var s1 := MatchSpaces(d.rest);
    if s1.NoMatch? then NoMatch else
    var m := MatchNumber(s1.rest, MINUTE_SIGN);
    if m.NoMatch? then NoMatch else
    var s2 := MatchSpaces(m.rest);
    if s2.NoMatch? then NoMatch else
    var sec := MatchNumber(s2.rest, SECOND_SIGN);
    if sec.NoMatch? then NoMatch else
    Match(Numbers(d.captured, m.captured, sec.captured), sec.rest)
  }

  function FromStrings(n: Numbers, positive: bool): Longitude
    requires AllDigits(n.degrees) && AllDigits(n.minutes) && AllDigits(n.seconds)
  {
    if Read(n.degrees) >= UINT_END then INVALID
    else if Read(n.minutes) >= UINT_END then INVALID
    else if Read(n.seconds) >= UINT_END then INVALID
    else FromDms(Read(n.degrees), Read(n.minutes), Read(n.seconds), positive)
  }

  predicate IsWest(c: char) {
    c == 'W' || c == 'w'
  }

  predicate IsDesignator(c: char) {
    c == 'E' || c == 'e' || IsWest(c)
  }

  function Parse(text: string): Longitude {
    var s := Trimmed(text);
    if s == "" then INVALID else ParseTrimmed(s)
  }

  function ParseTrimmed(s: string): Longitude
    requires s != ""
  {
    var m1 := MatchNumbers(s);
    if m1.Match? && m1.rest == "" then FromStrings(m1.captured, true) else
    var m2 := if s[0] == '+' || s[0] == '-' then MatchNumbers(DropSpaces(s[1..])) else NoMatch;
    if m2.Match? && m2.rest == "" then FromStrings(m2.captured, s[0] != '-') else
    if m1.Match? && |DropSpaces(m1.rest)| == 1 && IsDesignator(DropSpaces(m1.rest)[0])
    then FromStrings(m1.captured, !IsWest(DropSpaces(m1.rest)[0]))
    else INVALID
  }

  // ----- what the parser accepts

  /** The ways to give the sign: none, + or - in front, or E or W (in either case) at the end. */
  datatype Sign = NoSign | Front(c: char, spaces: string) | Back(spaces: string, c: char) {
    ghost predicate Valid() {
      match this
      case NoSign => true
      case Front(c, spaces) => (c == '+' || c == '-') && AllSpaces(spaces)
      case Back(spaces, c) => AllSpaces(spaces) && (c == 'E' || c == 'e' || c == 'W' || c == 'w')
    }

    predicate Positive() {
      match this
      case NoSign => true
      case Front(c, _) => c != '-'
      case Back(_, c) => c != 'W' && c != 'w'
    }

    function Before(): string {
      match this
      case Front(c, spaces) => [c] + spaces
      case _ => ""
    }

    function After(): string {
      match this
      case Back(spaces, c) => spaces + [c]
      case _ => ""
    }
  }

  /** One number: its digits, and its unit sign or not. */
  datatype Part = Part(digits: string, signed: bool) {
    ghost predicate Valid() {
      digits != "" && AllDigits(digits)
    }

    function Text(sign: char): string {
      digits + if signed then [sign] else ""
    }
  }

  datatype Spelling = Spelling(sign: Sign, degrees: Part, gap1: string, minutes: Part, gap2: string, seconds: Part) {
    ghost predicate Valid() {
      && sign.Valid() && degrees.Valid() && minutes.Valid() && seconds.Valid()
      && gap1 != "" && AllSpaces(gap1) && gap2 != "" && AllSpaces(gap2)
    }

    function Body(): string {
      degrees.Text('\U{00B0}') + (gap1 + (minutes.Text('\'') + (gap2 + seconds.Text('\"'))))
    }

    function Text(): string {
      sign.Before() + (Body() + sign.After())
    }

    function Captured(): Numbers {
      Numbers(degrees.digits, minutes.digits, seconds.digits)
    }
  }

  lemma MatchNumberOf(part: Part, sign: char, s: string)
    requires part.Valid() && !IsDigit(sign) && (s == "" || (!IsDigit(s[0]) && s[0] != sign))
    ensures MatchNumber(part.Text(sign) + s, sign) == Match(part.digits, s)
  {
    var tail := (if part.signed then [sign] else "") + s;
    assert part.Text(sign) + s == part.digits + tail;
    DigitCountOf(part.digits, tail);
    assert part.signed ==> tail[1..] == s;
  }

  lemma MatchSpacesOf(gap: string, s: string)
    requires gap != "" && AllSpaces(gap) && s != "" && !IsSpace(s[0])
    ensures MatchSpaces(gap + s) == Match((), s)
  {
    DropSpacesOf(gap, s);
  }

  lemma MatchNumbersOf(p: Spelling, s: string)
    requires p.Valid() && (s == "" || (!IsDigit(s[0]) && s[0] != SECOND_SIGN))
    ensures MatchNumbers(p.Body() + s) == Match(p.Captured(), s)
  {
    hide MatchNumber, MatchSpaces;
    var t3 := p.seconds.Text(SECOND_SIGN) + s;
    var t2 := p.minutes.Text(MINUTE_SIGN) + (p.gap2 + t3);
    assert p.Body() + s == p.degrees.Text(DEGREE_SIGN) + (p.gap1 + t2);
    MatchNumberOf(p.degrees, DEGREE_SIGN, p.gap1 + t2);
    MatchSpacesOf(p.gap1, t2);
    MatchNumberOf(p.minutes, MINUTE_SIGN, p.gap2 + t3);
    MatchSpacesOf(p.gap2, t3);
    MatchNumberOf(p.seconds, SECOND_SIGN, s);
  }

  lemma TrimmedText(before: string, p: Spelling, after: string)
    requires p.Valid() && AllSpaces(before) && AllSpaces(after)
    ensures Trimmed(before + p.Text() + after) == p.Text()
  {
    var text := p.Text();
    var body := p.Body();
    assert body[0] == p.degrees.digits[0];
    assert text[0] == if p.sign.Front? then p.sign.c else body[0];
    assert text[|text| - 1] ==
           if p.sign.Back? then p.sign.c
           else if p.seconds.signed then SECOND_SIGN else p.seconds.digits[|p.seconds.digits| - 1];
    assert before + text + after == before + (text + after);
    DropSpacesOf(before, text + after);
    DropLastSpacesOf(text, after);
  }

  lemma ParsesPlain(p: Spelling)
    requires p.Valid() && p.sign.NoSign?
    ensures p.Text() != "" && ParseTrimmed(p.Text()) == FromStrings(p.Captured(), true)
  {
    hide MatchNumbers, Spelling.Body;
    assert p.Text() == p.Body() + "";
    MatchNumbersOf(p, "");
    NoLeadingDigit(p.Text());
  }

  lemma ParsesFront(p: Spelling)
    requires p.Valid() && p.sign.Front?
    ensures p.Text() != "" && ParseTrimmed(p.Text()) == FromStrings(p.Captured(), p.sign.c != '-')
  {
    var text, body := p.Text(), p.Body();
    assert body[0] == p.degrees.digits[0];
    hide MatchNumbers, Spelling.Body;
    assert body + "" == body;
    assert text[0] == p.sign.c && text[1..] == p.sign.spaces + body;
    NoLeadingDigit(text);
    DropSpacesOf(p.sign.spaces, body);
    MatchNumbersOf(p, "");
  }

  lemma ParsesDesignator(s: string, n: Numbers, tail: string, c: char)
    requires s != "" && s[0] != '+' && s[0] != '-' && tail != "" && IsDesignator(c)
    requires MatchNumbers(s) == Match(n, tail) && DropSpaces(tail) == [c]
    ensures AllDigits(n.degrees) && AllDigits(n.minutes) && AllDigits(n.seconds)
    ensures ParseTrimmed(s) == FromStrings(n, !IsWest(c))
  {
    hide MatchNumbers, DropSpaces, FromStrings;
  }

  lemma ParsesBack(p: Spelling)
    requires p.Valid() && p.sign.Back?
    ensures p.Text() != "" && ParseTrimmed(p.Text()) == FromStrings(p.Captured(), !IsWest(p.sign.c))
  {
    var text, body := p.Text(), p.Body();
    var tail := p.sign.spaces + [p.sign.c];
    assert body[0] == p.degrees.digits[0];
    hide MatchNumbers, Spelling.Body, ParseTrimmed, FromStrings, DropSpaces;
    assert text == body + tail;
    assert text[0] == body[0];
    MatchNumbersOf(p, tail);
    DropSpacesOf(p.sign.spaces, [p.sign.c]);
    ParsesDesignator(text, p.Captured(), tail, p.sign.c);
  }

  lemma NoLeadingDigit(s: string)
    ensures s == "" || !IsDigit(s[0]) ==> MatchNumbers(s).NoMatch?
  {
  }

  /** Every spelling of every documented format is understood: leading and trailing white space,
      unit signs or not, any white space between the numbers, leading zeros, and the sign in any
      of its forms. The result is invalid only for numbers of 2^32 and above. */
  lemma ParsesSpelling(before: string, p: Spelling, after: string)
    requires p.Valid() && AllSpaces(before) && AllSpaces(after)
    ensures Parse(before + p.Text() + after) == FromStrings(p.Captured(), p.sign.Positive())
    ensures var d, m, s := Read(p.degrees.digits), Read(p.minutes.digits), Read(p.seconds.digits);
            Parse(before + p.Text() + after) ==
            if d >= 0x1_0000_0000 || m >= 0x1_0000_0000 || s >= 0x1_0000_0000 then INVALID
            else FromDms(d, m, s, p.sign.Positive())
  {
    hide ParseTrimmed, Trimmed, Spelling.Text;
    TrimmedText(before, p, after);
    match p.sign {
      case NoSign => ParsesPlain(p);
      case Front(_, _) => ParsesFront(p);
      case Back(_, _) => ParsesBack(p);
    }
  }

  lemma NumberMatched(s: string, sign: char) returns (part: Part)
    requires MatchNumber(s, sign).Match?
    ensures part.Valid() && part.digits == MatchNumber(s, sign).captured
    ensures s == part.Text(sign) + MatchNumber(s, sign).rest
  {
    var n := DigitCount(s);
    part := Part(s[..n], n < |s| && s[n] == sign);
  }

  lemma SpacesMatched(s: string) returns (gap: string)
    requires MatchSpaces(s).Match?
    ensures gap != "" && AllSpaces(gap) && s == gap + MatchSpaces(s).rest
  {
    gap := SpacesDropped(s);
  }

  lemma NumbersMatched(s: string, sign: Sign) returns (p: Spelling)
    requires MatchNumbers(s).Match? && sign.Valid()
    ensures p.Valid() && p.sign == sign && p.Captured() == MatchNumbers(s).captured
    ensures s == p.Body() + MatchNumbers(s).rest
  {
    hide MatchNumber, MatchSpaces;
    var m1 := MatchNumber(s, DEGREE_SIGN);
    var degrees := NumberMatched(s, DEGREE_SIGN);
    var gap1 := SpacesMatched(m1.rest);
    var s2 := MatchSpaces(m1.rest).rest;
    var m2 := MatchNumber(s2, MINUTE_SIGN);
    var minutes := NumberMatched(s2, MINUTE_SIGN);
    var gap2 := SpacesMatched(m2.rest);
    var s3 := MatchSpaces(m2.rest).rest;
    var seconds := NumberMatched(s3, SECOND_SIGN);
    p := Spelling(sign, degrees, gap1, minutes, gap2, seconds);
    hide Part.Text;
    var rest := MatchNumbers(s).rest;
    assert s3 == seconds.Text(SECOND_SIGN) + rest;
    assert m2.rest == (gap2 + seconds.Text(SECOND_SIGN)) + rest;
    assert s2 == (minutes.Text(MINUTE_SIGN) + (gap2 + seconds.Text(SECOND_SIGN))) + rest;
    assert s == p.Body() + rest;
  }

  lemma CoreMatched(s: string) returns (p: Spelling)
    requires s != "" && ParseTrimmed(s).valid
    ensures p.Valid() && s == p.Text()
  {
    hide MatchNumbers, Spelling.Body;
    var m1 := MatchNumbers(s);
    if m1.Match? && m1.rest == "" {
      p := NumbersMatched(s, NoSign);
    } else if s[0] == '+' || s[0] == '-' {
      NoLeadingDigit(s);
      var spaces := SpacesDropped(s[1..]);
      p := NumbersMatched(DropSpaces(s[1..]), Front(s[0], spaces));
      assert s == [s[0]] + (spaces + DropSpaces(s[1..]));
      assert s == ([s[0]] + spaces) + (p.Body() + "");
    } else {
      var spaces := SpacesDropped(m1.rest);
      var c := DropSpaces(m1.rest)[0];
      p := NumbersMatched(s, Back(spaces, c));
      assert m1.rest == spaces + [c];
    }
  }

  /** ... and nothing else is: whatever parses is a spelling between white space. */
  lemma ParsesOnlySpellings(text: string) returns (before: string, p: Spelling, after: string)
    requires Parse(text).valid
    ensures p.Valid() && AllSpaces(before) && AllSpaces(after) && text == before + p.Text() + after
  {
    before := SpacesDropped(text);
    after := LastSpacesDropped(DropSpaces(text));
    hide ParseTrimmed, Spelling.Text;
    p := CoreMatched(Trimmed(text));
    assert text == before + (p.Text() + after);
  }

  /** The spelling that is printed. */
  function Printed(d: Dms): (p: Spelling)
    ensures p.Valid()
  {
    Spelling(Back(" ", if d.positive then 'E' else 'W'), Part(Print(d.degrees), true), " ",
             Part(Print(d.minutes), true), " ", Part(Print(d.seconds), true))
  }

  lemma FormatIsSpelling(longitude: Longitude)
    requires InRange(longitude.value)
    ensures Format(longitude, "E", "W") == "" + Printed(ToDmsSpec(longitude.value)).Text() + ""
  {
    hide ToDmsSpec, Print;
  }

  lemma ReadPrinted(d: Dms)
    requires d.degrees < INT_END && d.minutes < 60 && d.seconds < 60
    ensures FromStrings(Printed(d).Captured(), d.positive) == FromDms(d.degrees, d.minutes, d.seconds, d.positive)
  {
    hide Print, Read;
    ReadPrint(d.degrees);
    ReadPrint(d.minutes);
    ReadPrint(d.seconds);
  }

  lemma DmsValue(value: real)
    requires InRange(value)
    ensures var d := ToDmsSpec(value);
            && d.degrees < INT_END && d.minutes < 60 && d.seconds < 60
            && FromDms(d.degrees, d.minutes, d.seconds, d.positive) == Longitude(value - d.remainder, true)
  {
    var d := ToDmsSpec(value);
    var total := 3600 * d.degrees + 60 * d.minutes + d.seconds;
    var rounded := RoundedSeconds(value);
    SplitTotal(if rounded >= 0 then rounded else -rounded);
    DmsOfTotal(total, d.degrees, d.minutes, d.seconds);
  }

  /** Printing and parsing: the printed text reads back as the value without its remainder. */
  lemma FormatRoundTrip(longitude: Longitude)
    requires InRange(longitude.value)
    ensures Parse(Format(longitude, "E", "W")) ==
            Longitude(longitude.value - ToDmsSpec(longitude.value).remainder, true)
  {
    var d := ToDmsSpec(longitude.value);
    hide ToDmsSpec, Format, Parse, FromStrings, FromDms;
    FormatIsSpelling(longitude);
    ParsesSpelling("", Printed(d), "");
    DmsValue(longitude.value);
    ReadPrinted(d);
  }

  // ----- normalisation

  /** fmod (x, 360): the remainder of the division truncated towards zero. */
  function Fmod360(x: real): real {
    x - 360.0 * Truncate(x / 360.0) as real
  }

  function NormalizedValue(value: real): real {
    var newValue := Fmod360(value);
    if newValue > 180.0 then newValue - 360.0
    else if newValue <= -180.0 then newValue + 360.0
    else newValue
  }

  function Normalized(longitude: Longitude): Longitude {
    Longitude(NormalizedValue(longitude.value), true)
  }

  lemma NormalizedInRange(value: real) returns (turns: int)
    ensures -180.0 < NormalizedValue(value) <= 180.0
    ensures value == NormalizedValue(value) + 360.0 * turns as real
  {
    var t := Truncate(value / 360.0);
    var m := Fmod360(value);
    turns := if m > 180.0 then t + 1 else if m <= -180.0 then t - 1 else t;
  }

  ghost predicate TurnsApart(value: real, other: real, turns: int) {
    value == other + 360.0 * turns as real
  }

  /** Two values have the same normal form exactly when they differ by whole turns. */
  lemma NormalForm(value: real, other: real)
    ensures NormalizedValue(value) == NormalizedValue(other) <==>
            exists k: int :: TurnsApart(value, other, k)
  {
    var i := NormalizedInRange(value);
    var j := NormalizedInRange(other);
    if NormalizedValue(value) == NormalizedValue(other) {
      assert TurnsApart(value, other, i - j);
    }
    if k: int :| TurnsApart(value, other, k) {
      var d := i - j - k;
      assert NormalizedValue(other) - NormalizedValue(value) == 360.0 * d as real;
      assert d == 0;
    }
  }

  function SolarTimeOffset(longitude: Longitude, other: Longitude): real {
    (Normalized(longitude).value - Normalized(other).value) / 360.0 * 86400.0
  }

  function ClockTimeOffset(longitude: Longitude, other: Longitude): real {
    -SolarTimeOffset(longitude, other)
  }

  /** A longitude that is some degrees less than half a turn to the east is four minutes of solar time
      later for each degree, as long as the 180th meridian is not between the two; across it, the offset
      is a day less, and so negative. */
  lemma EastIsLaterExactly(east: Longitude, west: Longitude, degrees: real, turns: int)
    requires 0.0 < degrees < 180.0 && TurnsApart(east.value, west.value + degrees, turns)
    ensures SolarTimeOffset(east, west) ==
            240.0 * (if NormalizedValue(west.value) + degrees <= 180.0 then degrees else degrees - 360.0)
    ensures ClockTimeOffset(east, west) == -SolarTimeOffset(east, west)
    ensures 0.0 < SolarTimeOffset(east, west) <==> NormalizedValue(west.value) + degrees <= 180.0
  {
    var i := NormalizedInRange(east.value);
    var j := NormalizedInRange(west.value);
    var e, w := NormalizedValue(east.value), NormalizedValue(west.value);
    var k := j + turns - i;
    assert e == w + degrees + 360.0 * k as real;
    assert k == 0 || k == -1;
  }

  /** For example, 179° west is two degrees to the east of 179° east, and its solar time is later, but
      the offset is negative. */
  lemma AcrossTheDateLine()
    ensures TurnsApart(-179.0, 179.0 + 2.0, -1)
    ensures SolarTimeOffset(Longitude(-179.0, true), Longitude(179.0, true)) == -85920.0
  {
    EastIsLaterExactly(Longitude(-179.0, true), Longitude(179.0, true), 2.0, -1);
    assert Truncate(179.0 / 360.0) == 0;
  }

  /** The offsets are less than a day, add up along a chain of longitudes, are opposite to each
      other and in the two directions, and do not depend on whole turns. */
  lemma Offsets(a: Longitude, b: Longitude, c: Longitude, turns: int)
    ensures -86400.0 < SolarTimeOffset(a, b) < 86400.0
    ensures SolarTimeOffset(a, b) + SolarTimeOffset(b, c) == SolarTimeOffset(a, c)
    ensures ClockTimeOffset(a, b) == SolarTimeOffset(b, a)
    ensures SolarTimeOffset(Longitude(a.value + 360.0 * turns as real, true), b) == SolarTimeOffset(a, b)
  {
    var i := NormalizedInRange(a.value);
    var j := NormalizedInRange(b.value);
    assert TurnsApart(a.value + 360.0 * turns as real, a.value, turns);
    NormalForm(a.value + 360.0 * turns as real, a.value);
  }
}
