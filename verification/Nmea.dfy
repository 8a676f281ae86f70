/** NMEA sentences: $payload*checksum, with the fields of the payload separated by commas. */
module Nmea {
  import opened Wrappers

  type Bytes = seq<bv8>

  const DOLLAR: bv8 := 0x24
  const STAR: bv8 := 0x2A
  const COMMA: bv8 := 0x2C
  const LF: bv8 := 0x0A

  // ----- the checksum

  function Xor(data: Bytes): bv8 {
    if data == [] then 0 else Xor(data[..|data| - 1]) ^ data[|data| - 1]
  }

  function HexDigit(n: bv8): bv8
    requires n < 16
  {
    if n < 10 then 0x30 + n else 0x37 + n
  }

  function Hex(x: bv8): (h: Bytes)
    ensures |h| == 2
    ensures forall c :: c in h ==> c != LF && c != STAR && c != DOLLAR
  {
    [HexDigit(x >> 4), HexDigit(x & 0x0F)]
  }

  /** A hexadecimal digit, in upper case, and its value. */
  predicate IsHexDigit(c: bv8) {
    '0' as bv8 <= c <= '9' as bv8 || 'A' as bv8 <= c <= 'F' as bv8
  }

  function HexValue(c: bv8): bv8
    requires IsHexDigit(c)
  {
    if c <= '9' as bv8 then c - '0' as bv8 else 10 + (c - 'A' as bv8)
  }

  /** Two such digits, the upper one first, of which the value is the number. */
  lemma HexIsRead(x: bv8)
    ensures IsHexDigit(Hex(x)[0]) && IsHexDigit(Hex(x)[1])
    ensures 16 * HexValue(Hex(x)[0]) + HexValue(Hex(x)[1]) == x && HexValue(Hex(x)[0]) < 16
  {
    assert x >> 4 < 16 && x & 0x0F < 16;
    assert 16 * (x >> 4) + (x & 0x0F) == x;
  }

  lemma HexIsInjective(x: bv8, y: bv8)
    ensures Hex(x) == Hex(y) ==> x == y
  {
    if Hex(x) == Hex(y) {
      assert Hex(x)[0] == Hex(y)[0] && Hex(x)[1] == Hex(y)[1];
      assert x >> 4 == y >> 4 && x & 0x0F == y & 0x0F;
    }
    assert x == ((x >> 4) << 4) | (x & 0x0F);
    assert y == ((y >> 4) << 4) | (y & 0x0F);
  }

  function Checksum(data: Bytes): Bytes {
    Hex(Xor(data))
  }

  method CalculateChecksum(data: Bytes) returns (text: Bytes)
    ensures |text| == 2 && IsHexDigit(text[0]) && IsHexDigit(text[1])
    ensures 16 * HexValue(text[0]) + HexValue(text[1]) == Xor(data) && HexValue(text[0]) < 16
    ensures text == Checksum(data)
  {
    var sum: bv8 := 0;
    for i := 0 to |data|
      invariant sum == Xor(data[..i])
    {
      sum := sum ^ data[i];
      assert data[..i + 1][..i] == data[..i];
    }
    assert data[..|data|] == data;
    text := Hex(sum);
    HexIsRead(sum);
  }

  lemma {:induction false} XorUpdate(data: Bytes, k: nat, c: bv8)
    requires k < |data|
    ensures Xor(data[k := c]) == Xor(data) ^ data[k] ^ c
  {
    var last := |data| - 1;
    if k == last {
      assert data[k := c][..last] == data[..last];
    } else {
      assert data[k := c][..last] == data[..last][k := c];
      XorUpdate(data[..last], k, c);
    }
  }

  /** The sum of nothing is 0, and the sum of two texts is that of their sums; a text followed by
      itself has the sum 0. */
  lemma {:induction false} XorOfTwo(a: Bytes, b: Bytes)
    ensures Xor([]) == 0 && (forall c :: Xor([c]) == c)
    ensures Xor(a + b) == Xor(a) ^ Xor(b)
    ensures Xor(a + a) == 0
    decreases |b|
  {
    forall c ensures Xor([c]) == c {
      assert [c][..0] == [];
    }
    XorConcat(a, b);
    XorConcat(a, a);
  }

  lemma {:induction false} XorConcat(a: Bytes, b: Bytes)
    ensures Xor(a + b) == Xor(a) ^ Xor(b)
    decreases |b|
  {
    if b == [] {
      assert a + b == a;
    } else {
      XorConcat(a, b[..|b| - 1]);
      assert (a + b)[..|a + b| - 1] == a + b[..|b| - 1];
    }
  }

  lemma {:induction false} XorFirst(c: bv8, data: Bytes)
    ensures Xor([c] + data) == c ^ Xor(data)
  {
    var s := [c] + data;
    if data == [] {
      assert s[..0] == [];
    } else {
      assert s[..|s| - 1] == [c] + data[..|data| - 1];
      XorFirst(c, data[..|data| - 1]);
    }
  }

  lemma XorChanges(data: Bytes, k: nat, c: bv8)
    requires k < |data| && c != data[k]
    ensures Xor(data[k := c]) != Xor(data)
  {
    hide Xor;
    XorUpdate(data, k, c);
  }

  lemma XorWithoutDollar(data: Bytes)
    requires data != [] && data[0] == DOLLAR
    ensures Xor(data[1..]) != Xor(data)
  {
    hide Xor;
    assert data == [data[0]] + data[1..];
    XorFirst(data[0], data[1..]);
  }

  /** Replacing one byte always changes the checksum, and so does dropping a leading dollar. */
  lemma ChecksumDetects(data: Bytes, k: nat, c: bv8)
    requires k < |data|
    ensures c != data[k] ==> Checksum(data[k := c]) != Checksum(data)
    ensures data[0] == DOLLAR ==> Checksum(data[1..]) != Checksum(data)
  {
    hide Xor, Hex, DOLLAR;
    if c != data[k] {
      XorChanges(data, k, c);
      HexIsInjective(Xor(data[k := c]), Xor(data));
    }
    if data[0] == DOLLAR {
      XorWithoutDollar(data);
      HexIsInjective(Xor(data[1..]), Xor(data));
    }
  }

  // ----- joining and splitting

  function Join(parts: seq<Bytes>): Bytes {
    if parts == [] then [] else if |parts| == 1 then parts[0] else parts[0] + [COMMA] + Join(parts[1..])
  }

  function Sentence(payload: Bytes): Bytes {
    [DOLLAR] + payload + [STAR] + Checksum(payload)
  }

  function JoinSentence(parts: seq<Bytes>): Bytes {
    Sentence(Join(parts))
  }

  /** A dollar, the parts with commas between, a star, and the checksum of what is between the two. */
  lemma JoinedIs(parts: seq<Bytes>)
    ensures var s, payload := JoinSentence(parts), Join(parts);
            var n := |payload|;
            && |s| == n + 4 && s[0] == 0x24 && s[1..n + 1] == payload && s[n + 1] == 0x2A
            && 16 * HexValue(s[n + 2]) + HexValue(s[n + 3]) == Xor(payload)
  {
    var payload := Join(parts);
    var h := Checksum(payload);
    var s := Sentence(payload);
    HexIsRead(Xor(payload));
    assert s[|payload| + 2] == h[0] && s[|payload| + 3] == h[1];
    hide Xor, Hex;
  }

  /** All fields between commas; one empty field for the empty payload. */
  function AllFields(payload: Bytes): (fields: seq<Bytes>)
    ensures fields != []
  {
    if payload == [] then [[]] else
      var rest := AllFields(payload[1..]);
      if payload[0] == COMMA then [[]] + rest else [[payload[0]] + rest[0]] + rest[1..]
  }

  function WithoutTrailingEmpty(fields: seq<Bytes>): seq<Bytes> {
    if fields != [] && fields[|fields| - 1] == [] then WithoutTrailingEmpty(fields[..|fields| - 1]) else fields
  }

  /** String#split: trailing empty fields are removed. */
  function Fields(payload: Bytes): seq<Bytes> {
    WithoutTrailingEmpty(AllFields(payload))
  }

  function FirstStar(line: Bytes, from: nat): (j: nat)
    requires from <= |line|
    ensures from <= j <= |line|
    ensures forall k :: from <= k < j ==> line[k] != STAR
    ensures j < |line| ==> line[j] == STAR
    decreases |line| - from
  {
    if from < |line| && line[from] != STAR then FirstStar(line, from + 1) else from
  }

  /** The pattern ^\$([^*]*)\*(..)$ at position i. The anchors are those of a line, the dot does
      not match a line break, the class before the star does. */
  function MatchAt(line: Bytes, i: nat): Option<(Bytes, Bytes)>
    requires i < |line|
  {
    if (i == 0 || line[i - 1] == LF) && line[i] == DOLLAR then
      var j := FirstStar(line, i + 1);
      if j + 2 < |line| && line[j + 1] != LF && line[j + 2] != LF && (j + 3 == |line| || line[j + 3] == LF)
      then Some((line[i + 1..j], line[j + 1..j + 3]))
      else None
    else None
  }

  /** The leftmost match. */
  function FirstMatch(line: Bytes, from: nat): Option<(Bytes, Bytes)>
    requires from <= |line|
    decreases |line| - from
  {
    if from == |line| then None
    else if MatchAt(line, from).Some? then MatchAt(line, from)
    else FirstMatch(line, from + 1)
  }

  function SplitSentence(line: Bytes): Option<seq<Bytes>> {
    match FirstMatch(line, 0)
    case None => None
    case Some((payload, checksum)) => if checksum == Checksum(payload) then Some(Fields(payload)) else None
  }

  lemma {:induction false} FirstMatchIs(line: Bytes, from: nat) returns (i: nat)
    requires from <= |line| && FirstMatch(line, from).Some?
    ensures from <= i < |line| && MatchAt(line, i) == FirstMatch(line, from)
    ensures forall j :: from <= j < i ==> MatchAt(line, j).None?
    decreases |line| - from
  {
    if MatchAt(line, from).Some? {
      i := from;
    } else {
      i := FirstMatchIs(line, from + 1);
    }
  }

  // ----- what is split

  /** Between line[i], at the start of a line, and line[j]: a dollar, a payload without stars, a star,
      and two bytes that end the line. */
  ghost predicate IsSentenceAt(line: Bytes, i: nat, j: nat) {
    && i < j && j + 2 < |line|
    && (i == 0 || line[i - 1] == 0x0A) && line[i] == 0x24
    && line[j] == 0x2A && 0x2A !in line[i + 1..j]
    && line[j + 1] != 0x0A && line[j + 2] != 0x0A && (j + 3 == |line| || line[j + 3] == 0x0A)
  }

  /** The first such part of a text is the one that counts: it is split if its last two bytes are the
      checksum of its payload. */
  lemma SplitsTheFirst(line: Bytes, i: nat, j: nat)
    requires IsSentenceAt(line, i, j) && forall i', j' :: 0 <= i' < i && 0 <= j' ==> !IsSentenceAt(line, i', j')
    ensures SplitSentence(line) ==
            if line[j + 1..j + 3] == Checksum(line[i + 1..j]) then Some(Fields(line[i + 1..j])) else None
  {
    StarIs(line, i, j);
    if FirstMatch(line, 0).None? {
      NoMatch(line, 0, i);
    } else {
      var k := FirstMatchIs(line, 0);
      MatchIsSentence(line, k);
      assert k == i;
    }
  }

  /** A text with no such part is not split. */
  lemma SplitsNothingElse(line: Bytes)
    requires forall i: nat, j: nat :: !IsSentenceAt(line, i, j)
    ensures SplitSentence(line) == None
  {
    if FirstMatch(line, 0).Some? {
      var k := FirstMatchIs(line, 0);
      MatchIsSentence(line, k);
    }
  }

  lemma StarIs(line: Bytes, i: nat, j: nat)
    requires IsSentenceAt(line, i, j)
    ensures FirstStar(line, i + 1) == j
    ensures MatchAt(line, i) == Some((line[i + 1..j], line[j + 1..j + 3]))
  {
    assert forall q :: i < q < j ==> line[q] == line[i + 1..j][q - i - 1];
  }

  lemma MatchIsSentence(line: Bytes, i: nat)
    requires i < |line| && MatchAt(line, i).Some?
    ensures IsSentenceAt(line, i, FirstStar(line, i + 1))
  {
  }

  lemma {:induction false} NoMatch(line: Bytes, from: nat, i: nat)
    requires from <= i < |line| && FirstMatch(line, from).None?
    ensures MatchAt(line, i).None?
    decreases |line| - from
  {
    if from < i {
      NoMatch(line, from + 1, i);
    }
  }

  // ----- round trip

  ghost predicate Clean(part: Bytes) {
    0x2C !in part && 0x2A !in part
  }

  lemma MatchSentence(payload: Bytes, end: Bytes)
    requires STAR !in payload && (end == [] || end == [LF])
    ensures SplitSentence(Sentence(payload) + end) == Some(Fields(payload))
  {
    var s := Sentence(payload) + end;
    var h := Checksum(payload);
    var j := FirstStar(s, 1);
    assert forall k :: 1 <= k <= |payload| ==> s[k] == payload[k - 1];
    assert s[|payload| + 1] == STAR;
    assert j == |payload| + 1;
    assert s[1..j] == payload;
    assert s[j + 1] == h[0] && s[j + 2] == h[1] && h[0] in h && h[1] in h;
    assert s[j + 1..j + 3] == h;
    assert MatchAt(s, 0) == Some((payload, h));
  }

  lemma {:induction false} AllFieldsOfPart(part: Bytes, rest: Bytes)
    requires COMMA !in part
    ensures AllFields(part) == [part]
    ensures AllFields(part + [COMMA] + rest) == [part] + AllFields(rest)
    decreases |part|
  {
    if part == [] {
      assert part + [COMMA] + rest == [COMMA] + rest;
    } else {
      AllFieldsOfPart(part[1..], rest);
      assert (part + [COMMA] + rest)[1..] == part[1..] + [COMMA] + rest;
      assert part == [part[0]] + part[1..];
    }
  }

  lemma {:induction false} AllFieldsOfJoin(parts: seq<Bytes>)
    requires parts != [] && forall part :: part in parts ==> COMMA !in part
    ensures AllFields(Join(parts)) == parts
    decreases |parts|
  {
    assert parts[0] in parts;
    if |parts| == 1 {
      AllFieldsOfPart(parts[0], []);
    } else {
      AllFieldsOfPart(parts[0], Join(parts[1..]));
      AllFieldsOfJoin(parts[1..]);
    }
  }

  lemma {:induction false} JoinHasNo(parts: seq<Bytes>, c: bv8)
    requires c != COMMA && forall part :: part in parts ==> c !in part
    ensures c !in Join(parts)
    decreases |parts|
  {
    if parts != [] {
      assert parts[0] in parts;
      JoinHasNo(parts[1..], c);
    }
  }

  /** A field holds no comma, and only bytes of the payload. */
  lemma {:induction false} FieldsAreClean(payload: Bytes, field: Bytes)
    ensures field in AllFields(payload) ==> COMMA !in field && forall c :: c in field ==> c in payload
    decreases |payload|
  {
    if payload != [] && field in AllFields(payload) {
      var rest := AllFields(payload[1..]);
      if payload[0] == COMMA {
        if field != [] {
          FieldsAreClean(payload[1..], field);
        }
      } else if field == [payload[0]] + rest[0] {
        FieldsAreClean(payload[1..], rest[0]);
      } else {
        FieldsAreClean(payload[1..], field);
      }
    }
  }

  lemma {:induction false} TrailingEmptyOnly(fields: seq<Bytes>, field: Bytes)
    requires field != []
    ensures field in WithoutTrailingEmpty(fields) <==> field in fields
    decreases |fields|
  {
    if fields != [] && fields[|fields| - 1] == [] {
      TrailingEmptyOnly(fields[..|fields| - 1], field);
      assert fields == fields[..|fields| - 1] + [[]];
    }
  }

  /** Splitting a joined sentence, with or without a line break after it, gives back the parts,
      without trailing empty ones, exactly when no part holds a comma or a star. */
  lemma JoinSplitRoundTrip(parts: seq<Bytes>, end: Bytes)
    requires end == [] || end == [0x0A]
    ensures SplitSentence(JoinSentence(parts) + end) == Some(WithoutTrailingEmpty(parts)) <==>
            forall part :: part in parts ==> Clean(part)
  {
    if forall part :: part in parts ==> Clean(part) {
      JoinHasNo(parts, STAR);
      MatchSentence(Join(parts), end);
      if parts == [] {
        assert WithoutTrailingEmpty([[]]) == WithoutTrailingEmpty([[]][..0]);
      } else {
        AllFieldsOfJoin(parts);
      }
    } else {
      var part :| part in parts && !Clean(part);
      var line := JoinSentence(parts) + end;
      TrailingEmptyOnly(parts, part);
      if FirstMatch(line, 0).Some? {
        var i := FirstMatchIs(line, 0);
        var payload := FirstMatch(line, 0).value.0;
        assert STAR !in payload;
        TrailingEmptyOnly(AllFields(payload), part);
        FieldsAreClean(payload, part);
      }
    }
  }

  // ----- error detection

  /** Replacing any single byte of a sentence, whether of the payload, the checksum or the frame,
      is always detected. */
  lemma SingleByteErrorIsDetected(payload: Bytes, k: nat, c: bv8)
    requires STAR !in payload && LF !in payload
    requires k < |Sentence(payload)| && c != Sentence(payload)[k]
    ensures SplitSentence(Sentence(payload)[k := c]) == None
  {
    var t := Sentence(payload)[k := c];
    if SplitSentence(t) != None {
      var i := FirstMatchIs(t, 0);
      SentenceBytes(payload);
      if i == 0 {
        ErrorAtFirst(payload, k, c);
      } else {
        ErrorAtLater(payload, k, c, i);
      }
    }
  }

  lemma SentenceBytes(payload: Bytes)
    requires STAR !in payload && LF !in payload
    ensures var s, n := Sentence(payload), |payload|;
            && |s| == n + 4 && s[0] == DOLLAR && s[n + 1] == STAR && s[n + 2..] == Checksum(payload)
            && s[1..n + 1] == payload
            && (forall k :: 1 <= k <= n ==> s[k] == payload[k - 1])
            && (forall k :: 0 <= k < n + 4 ==> s[k] != LF && (s[k] == STAR <==> k == n + 1))
            && s[n + 2] != DOLLAR && s[n + 3] != DOLLAR
  {
    var s, n := Sentence(payload), |payload|;
    var h := Checksum(payload);
    assert s[n + 2] == h[0] && s[n + 3] == h[1];
    assert h[0] in h && h[1] in h;
    assert s[n + 2..] == h;
  }

  lemma ErrorAtFirst(payload: Bytes, k: nat, c: bv8)
    requires STAR !in payload && LF !in payload
    requires k < |payload| + 4 && c != Sentence(payload)[k]
    ensures var m := MatchAt(Sentence(payload)[k := c], 0);
            && (m.Some? ==> m.value.1 != Checksum(m.value.0))
            && (1 <= k <= |payload| && c != STAR ==> m.Some?)
  {
    SentenceBytes(payload);
    hide Sentence, Checksum;
    var s, n := Sentence(payload), |payload|;
    var t := s[k := c];
    assert forall q :: 0 <= q < |t| ==> t[q] == if q == k then c else s[q];
    if k != 0 {
      var j := FirstStar(t, 1);
      if 1 <= k <= n {
        if c == STAR {
          assert j == k;
        } else {
          assert t[n + 1] == STAR && j == n + 1;
          assert t[1..j] == payload[k - 1 := c];
          assert t[j + 1..j + 3] == Checksum(payload);
          ChecksumDetects(payload, k - 1, c);
        }
      } else if k == n + 1 {
        assert j == |t|;
      } else {
        assert t[n + 1] == STAR && j == n + 1;
        assert t[1..j] == payload;
        assert t[j + 1..j + 3][k - n - 2] != Checksum(payload)[k - n - 2];
      }
    }
  }

  /** In a payload with line breaks too, replacing a byte by anything but a star is detected. */
  lemma PayloadErrorIsDetected(payload: Bytes, k: nat, c: bv8)
    requires STAR !in payload && k < |payload| && c != STAR && c != payload[k]
    ensures SplitSentence(Sentence(payload)[k + 1 := c]) == None
  {
    var t, n := Sentence(payload)[k + 1 := c], |payload|;
    assert forall q :: 1 <= q <= n ==> t[q] == payload[k := c][q - 1];
    var j := FirstStar(t, 1);
    assert t[n + 1] == STAR && j == n + 1;
    var h := Checksum(payload);
    assert t[n + 2] == h[0] && t[n + 3] == h[1] && h[0] in h && h[1] in h;
    assert t[1..j] == payload[k := c] && t[j + 1..j + 3] == h;
    ChecksumDetects(payload, k, c);
  }

  lemma ErrorAtLater(payload: Bytes, k: nat, c: bv8, i: nat)
    requires STAR !in payload && LF !in payload
    requires k < |payload| + 4 && c != Sentence(payload)[k] && 0 < i < |payload| + 4
    requires MatchAt(Sentence(payload)[k := c], 0).None?
    ensures var m := MatchAt(Sentence(payload)[k := c], i);
            m.Some? ==> m.value.1 != Checksum(m.value.0)
  {
    SentenceBytes(payload);
    ErrorAtFirst(payload, k, c);
    hide Sentence, Checksum;
    var s, n := Sentence(payload), |payload|;
    var t := s[k := c];
    assert forall q :: 0 <= q < |t| ==> t[q] == if q == k then c else s[q];
    var j := FirstStar(t, i + 1);
    if MatchAt(t, i).Some? {
      assert i == k + 1 && c == LF;
      assert k == 0 || k == n + 1;
      assert k == n + 1 ==> j == |t|;
      assert n > 0 && payload[0] == DOLLAR;
      assert t[n + 1] == STAR && j == n + 1;
      assert t[i + 1..j] == payload[1..];
      assert t[j + 1..j + 3] == Checksum(payload);
      ChecksumDetects(payload, 0, payload[0]);
    }
  }
}
