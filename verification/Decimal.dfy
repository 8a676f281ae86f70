/** Decimal numerals: the digits of a natural number with or without leading zeros, the value that
    a numeral is read as, and the connection of the two, which the text forms of coordinates, angles
    and numbered names have in common. */
module Decimal {
  import opened Products

  predicate IsDigit(c: char) {
    '0' <= c <= '9'
  }

  predicate AllDigits(s: string) {
    forall i :: 0 <= i < |s| ==> IsDigit(s[i])
  }

  function Digit(d: nat): (c: char)
    requires d < 10
    ensures IsDigit(c)
  {
    ('0' as int + d) as char
  }

  function DigitValue(c: char): (d: nat)
    requires IsDigit(c)
    ensures d < 10
  {
    c as int - '0' as int
  }

  function Pow10(n: nat): (p: nat)
    ensures 0 < p
  {
    if n == 0 then 1 else 10 * Pow10(n - 1)
  }

  function Print(n: nat): (s: string)
    ensures AllDigits(s) && s != ""
  {
    if n < 10 then [Digit(n)] else Print(n / 10) + [Digit(n % 10)]
  }

  function Read(s: string): nat
    requires AllDigits(s)
  {
    if s == "" then 0 else 10 * Read(s[..|s| - 1]) + DigitValue(s[|s| - 1])
  }

  function Zeros(n: nat): (s: string)
    ensures |s| == n && AllDigits(s)
  {
    seq(n, i => '0')
  }

  /** The numeral of n, with leading zeros up to the given width. */
  function Padded(n: nat, width: nat): (s: string)
    ensures AllDigits(s) && s != ""
  {
    var s := Print(n);
    if |s| < width then Zeros(width - |s|) + s else s
  }

  lemma {:induction false} ReadPrint(n: nat)
    ensures Read(Print(n)) == n
  {
    if n >= 10 {
      ReadPrint(n / 10);
      assert Print(n)[..|Print(n)| - 1] == Print(n / 10);
    }
  }

  lemma ReadLast(s: string, c: char)
    requires AllDigits(s) && IsDigit(c)
    ensures AllDigits(s + [c]) && Read(s + [c]) == 10 * Read(s) + DigitValue(c)
  {
    assert (s + [c])[..|s|] == s;
  }

  lemma {:induction false} ReadConcat(a: string, b: string)
    requires AllDigits(a) && AllDigits(b)
    ensures AllDigits(a + b)
    ensures Read(a + b) == Read(a) * Pow10(|b|) + Read(b)
    decreases |b|
  {
    hide Read, Pow10;
    if b == "" {
      assert a + b == a;
      ReadNothing();
    } else {
      var b', c := b[..|b| - 1], b[|b| - 1];
      ReadConcat(a, b');
      ReadLast(a + b', c);
      assert a + b == a + b' + [c];
      ReadLast(b', c);
      assert b == b' + [c];
      PowNext(|b'|);
    }
  }

  lemma ReadNothing()
    ensures Read("") == 0 && Pow10(0) == 1
  {
  }

  lemma PowNext(n: nat)
    ensures Pow10(n + 1) == 10 * Pow10(n)
  {
  }

  lemma {:induction false} ReadZeros(n: nat)
    ensures Read(Zeros(n)) == 0
  {
    if n > 0 {
      assert Zeros(n)[..n - 1] == Zeros(n - 1);
      ReadZeros(n - 1);
    }
  }

  lemma {:induction false} ReadPadded(n: nat, width: nat)
    ensures Read(Padded(n, width)) == n
  {
    hide Read, Print, Pow10, Zeros;
    ReadPrint(n);
    var s := Print(n);
    if |s| < width {
      ReadConcat(Zeros(width - |s|), s);
      ReadZeros(width - |s|);
    }
  }

  lemma {:induction false} ReadBound(s: string)
    requires AllDigits(s)
    ensures Read(s) < Pow10(|s|)
  {
    if s != "" {
      ReadBound(s[..|s| - 1]);
    }
  }

  /** A number below 10^width has at most width digits; a larger one has more. */
  lemma {:induction false} PrintLength(n: nat, width: nat)
    requires 0 < width
    ensures |Print(n)| <= width <==> n < Pow10(width)
  {
    if width == 1 {
      assert Pow10(1) == 10 * Pow10(0);
    } else if n >= 10 {
      PrintLength(n / 10, width - 1);
      assert Pow10(width) == 10 * Pow10(width - 1);
    } else {
      assert Pow10(width) == 10 * Pow10(width - 1);
      PowTen(width - 1);
    }
  }

  lemma {:induction false} PowTen(n: nat)
    ensures 1 <= Pow10(n)
    ensures 0 < n ==> 10 <= Pow10(n)
  {
    if n > 0 {
      PowTen(n - 1);
    }
  }

  lemma {:induction false} PaddedLength(n: nat, width: nat)
    requires 0 < width
    ensures n < Pow10(width) ==> |Padded(n, width)| == width
    ensures n >= Pow10(width) ==> Padded(n, width) == Print(n) && |Print(n)| > width
  {
    PrintLength(n, width);
  }

  /** Numerals of the same length are determined by their value. */
  lemma {:induction false} ReadInjective(s: string, t: string)
    requires AllDigits(s) && AllDigits(t) && |s| == |t| && Read(s) == Read(t)
    ensures s == t
  {
    if s != "" {
      var s', t' := s[..|s| - 1], t[..|t| - 1];
      assert Read(s) == 10 * Read(s') + DigitValue(s[|s| - 1]);
      assert Read(t) == 10 * Read(t') + DigitValue(t[|t| - 1]);
      hide Read;
      LastDigit(Read(s'), DigitValue(s[|s| - 1]), Read(t'), DigitValue(t[|t| - 1]));
      ReadInjective(s', t');
      assert s == s' + [s[|s| - 1]] && t == t' + [t[|t| - 1]];
    }
  }

  lemma LastDigit(a: nat, d: nat, b: nat, e: nat)
    requires d < 10 && e < 10 && 10 * a + d == 10 * b + e
    ensures a == b && d == e
  {
  }

  lemma {:induction false} PaddedRead(s: string)
    requires AllDigits(s) && s != ""
    ensures Padded(Read(s), |s|) == s
  {
    ReadBound(s);
    PaddedLength(Read(s), |s|);
    ReadPadded(Read(s), |s|);
    ReadInjective(Padded(Read(s), |s|), s);
  }

  /** The number of digits at the start. */
  function DigitCount(s: string): (n: nat)
    ensures n <= |s| && AllDigits(s[..n])
    ensures n < |s| ==> !IsDigit(s[n])
  {
    if s != "" && IsDigit(s[0]) then
      var n := DigitCount(s[1..]);
      assert s[..n + 1] == [s[0]] + s[1..][..n];
      n + 1
    else 0
  }

  lemma {:induction false} DigitCountOf(digits: string, s: string)
    requires AllDigits(digits) && (s == "" || !IsDigit(s[0]))
    ensures DigitCount(digits + s) == |digits|
    decreases |digits|
  {
    if digits == "" {
      assert digits + s == s;
    } else {
      assert (digits + s)[1..] == digits[1..] + s;
      DigitCountOf(digits[1..], s);
    }
  }

  lemma ReadOne(c: char)
    requires IsDigit(c)
    ensures Read([c]) == DigitValue(c)
  {
    assert [c][..0] == "";
  }

  lemma ReadHead(s: string)
    requires AllDigits(s) && s != ""
    ensures s[0] == '0' ==> Read(s) == Read(s[1..])
    ensures s[0] != '0' ==> 0 < Read(s)
  {
    assert s == [s[0]] + s[1..];
    ReadConcat([s[0]], s[1..]);
    ReadOne(s[0]);
    hide Read, Pow10;
    if s[0] != '0' {
      AtLeast(DigitValue(s[0]), Pow10(|s| - 1));
    }
  }

  lemma {:induction false} PowGrows(a: nat, b: nat)
    requires a <= b
    ensures Pow10(a) <= Pow10(b)
    decreases b
  {
    if a < b {
      PowGrows(a, b - 1);
    }
  }

  lemma LongerIsLarger(u: string, v: string)
    requires AllDigits(u) && AllDigits(v) && |u| < |v| && v[0] != '0'
    ensures Read(u) < Read(v)
  {
    ReadBound(u);
    assert v == [v[0]] + v[1..];
    ReadConcat([v[0]], v[1..]);
    ReadOne(v[0]);
    PowGrows(|u|, |v| - 1);
    hide Read, Pow10;
    AtLeast(DigitValue(v[0]), Pow10(|v| - 1));
  }

  lemma Pow10OfTwo()
    ensures Pow10(2) == 100
  {
    assert Pow10(1) == 10 * Pow10(0);
  }

  /** A numeral is larger than any proper part at its start. */
  lemma HeadIsSmaller(n: nat, k: nat)
    requires 0 < n && k < |Print(n)|
    ensures Read(Print(n)[..k]) < n
  {
    hide Read, Print, Pow10;
    var head, rest := Print(n)[..k], Print(n)[k..];
    assert Print(n) == head + rest;
    ReadPrint(n);
    ReadConcat(head, rest);
    PowTen(|rest|);
    TenTimes(Read(head), Pow10(|rest|));
  }
}
