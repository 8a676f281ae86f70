/** The sort criterion for strings with a number suffix. Its pattern is (.*)(\d+), anchored: the
    first group is greedy, so the second one is exactly the last digit. */
module NumericOrder {
  import opened Decimal
  import opened Products

  /** Lexicographical order. */
  predicate Before(s: string, t: string) {
    t != "" && (s == "" || s[0] < t[0] || (s[0] == t[0] && Before(s[1..], t[1..])))
  }

  /** At the first index at which s and t differ, s has the smaller character or has ended. */
  ghost predicate DiffersAt(s: string, t: string, k: nat) {
    k <= |s| && k < |t| && s[..k] == t[..k] && (k == |s| || s[k] < t[k])
  }

  lemma SameStart(s: string, t: string, k: nat)
    requires s != "" && t != "" && DiffersAt(s, t, k)
    ensures k == 0 || s[0] == t[0]
  {
    assert k > 0 ==> s[..k][0] == s[0] && t[..k][0] == t[0];
  }

  lemma {:induction false} BeforeIs(s: string, t: string)
    ensures Before(s, t) <==> exists k :: DiffersAt(s, t, k)
    decreases |s|
  {
    if s == "" {
      assert t != "" ==> DiffersAt(s, t, 0);
    } else if t == "" {
    } else if s[0] != t[0] {
      assert Before(s, t) ==> DiffersAt(s, t, 0);
      if k: nat :| DiffersAt(s, t, k) {
        SameStart(s, t, k);
      }
    } else {
      BeforeIs(s[1..], t[1..]);
      if k: nat :| DiffersAt(s[1..], t[1..], k) {
        assert s[..k + 1] == [s[0]] + s[1..][..k] && t[..k + 1] == [t[0]] + t[1..][..k];
        assert DiffersAt(s, t, k + 1);
      }
      if k: nat :| DiffersAt(s, t, k) {
        assert s[1..][..k - 1] == s[..k][1..] && t[1..][..k - 1] == t[..k][1..];
        assert DiffersAt(s[1..], t[1..], k - 1);
      }
    }
  }

  /** The dot does not match a line break. */
  predicate Matches(s: string) {
    s != "" && IsDigit(s[|s| - 1]) && '\n' !in s[..|s| - 1]
  }

  function Prefix(s: string): string
    requires Matches(s)
  {
    s[..|s| - 1]
  }

  function Suffix(s: string): nat
    requires Matches(s)
  {
    DigitValue(s[|s| - 1])
  }

  predicate StringNumericLessThan(s1: string, s2: string) {
    if Matches(s1) && Matches(s2) && Prefix(s1) != Prefix(s2) then Before(Prefix(s1), Prefix(s2))
    else if Matches(s1) && Matches(s2) && Suffix(s1) != Suffix(s2) then Suffix(s1) < Suffix(s2)
    else Before(s1, s2)
  }

  /** A way to match the pattern: the first group has no line break, the second one is digits. */
  ghost predicate Splits(s: string, k: nat) {
    k < |s| && '\n' !in s[..k] && forall i :: k <= i < |s| ==> '0' <= s[i] <= '9'
  }

  /** A string matches if it has such a way; the one that counts is that of the longest first group. */
  lemma MatchesExactly(s: string)
    ensures Matches(s) <==> exists k :: Splits(s, k)
    ensures Matches(s) ==> Splits(s, |Prefix(s)|) && Prefix(s) <= s
    ensures Matches(s) ==> forall k: nat :: Splits(s, k) ==> k <= |Prefix(s)|
    ensures Matches(s) ==> Suffix(s) == Read(s[|Prefix(s)|..])
  {
    if Matches(s) {
      assert Splits(s, |s| - 1);
      assert s[|s| - 1..] == [s[|s| - 1]];
      ReadOne(s[|s| - 1]);
    }
    if k: nat :| Splits(s, k) {
      forall i | 0 <= i < |s| - 1
        ensures s[i] != '\n'
      {
        if i < k {
          assert s[i] == s[..k][i];
        }
      }
    }
  }

  // ----- the lexicographical order

  lemma {:induction false} BeforeIsStrict(s: string, t: string)
    ensures !Before(s, s)
    ensures !(Before(s, t) && Before(t, s))
    ensures s == t || Before(s, t) || Before(t, s)
    decreases |s|
  {
    if s != "" {
      BeforeIsStrict(s[1..], if t == "" then "" else t[1..]);
      assert t != "" ==> (s == t <==> s[0] == t[0] && s[1..] == t[1..]);
    }
  }

  lemma {:induction false} BeforeIsTransitive(s: string, t: string, u: string)
    requires Before(s, t) && Before(t, u)
    ensures Before(s, u)
    decreases |s|
  {
    if s != "" && s[0] == t[0] == u[0] {
      BeforeIsTransitive(s[1..], t[1..], u[1..]);
    }
  }

  lemma {:induction false} BeforeWithPrefix(p: string, s: string, t: string)
    ensures Before(p + s, p + t) <==> Before(s, t)
  {
    if p == "" {
      assert p + s == s && p + t == t;
    } else {
      assert (p + s)[1..] == p[1..] + s && (p + t)[1..] == p[1..] + t;
      BeforeWithPrefix(p[1..], s, t);
    }
  }

  // ----- the criterion

  lemma MatchedIs(s: string)
    requires Matches(s)
    ensures s == Prefix(s) + [Digit(Suffix(s))]
  {
  }

  /** On all strings: irreflexive, asymmetric, and total on distinct strings. */
  lemma IsStrictAndTotal(s: string, t: string)
    ensures !StringNumericLessThan(s, s)
    ensures !(StringNumericLessThan(s, t) && StringNumericLessThan(t, s))
    ensures s == t || StringNumericLessThan(s, t) || StringNumericLessThan(t, s)
  {
    BeforeIsStrict(s, t);
    if Matches(s) && Matches(t) {
      MatchedIs(s);
      MatchedIs(t);
      BeforeIsStrict(Prefix(s), Prefix(t));
    }
  }

  /** Transitive on the strings that match the pattern, and on those that do not. */
  lemma IsTransitive(s: string, t: string, u: string)
    requires Matches(s) == Matches(t) == Matches(u)
    requires StringNumericLessThan(s, t) && StringNumericLessThan(t, u)
    ensures StringNumericLessThan(s, u)
  {
    if Matches(s) {
      MatchedIs(s);
      MatchedIs(t);
      MatchedIs(u);
      BeforeIsStrict(s, t);
      BeforeIsStrict(t, u);
      if Prefix(s) != Prefix(t) && Prefix(t) != Prefix(u) {
        BeforeIsTransitive(Prefix(s), Prefix(t), Prefix(u));
        BeforeIsStrict(Prefix(s), Prefix(t));
      }
    } else {
      BeforeIsTransitive(s, t, u);
    }
  }

  // ----- when a list can be sorted by it

  /** The criterion orders a before b although a is lexicographically greater: the prefix of a is a
      proper prefix of that of b, and goes on there with a character below the last digit of a. */
  predicate Inverted(a: string, b: string) {
    && Matches(a) && Matches(b)
    && var p, q := Prefix(a), Prefix(b);
       |p| < |q| && q[..|p|] == p && q[|p|] < a[|a| - 1]
  }

  /** This is the only difference from the lexicographical order. */
  lemma DiffersWhenInverted(a: string, b: string)
    ensures StringNumericLessThan(a, b) && !Before(a, b) <==> Inverted(a, b)
  {
    if Matches(a) && Matches(b) {
      var p, q, c, d := Prefix(a), Prefix(b), a[|a| - 1], b[|b| - 1];
      assert a == p + [c] && b == q + [d];
      hide Prefix;
      DiffersAfterPrefix(p, q, c, d);
      if p == q {
        BeforeWithPrefix(p, [c], [d]);
      }
    } else {
      hide Before;
    }
  }

  lemma {:induction false} DiffersAfterPrefix(p: string, q: string, c: char, d: char)
    ensures Before(p, q) && !Before(p + [c], q + [d]) <==> |p| < |q| && q[..|p|] == p && q[|p|] < c
    decreases |p|
  {
    if p == "" {
      assert p + [c] == [c] && [c][1..] == "";
      assert q != "" ==> (q + [d])[0] == q[0] && (q + [d])[1..] != "";
    } else {
      assert (p + [c])[1..] == p[1..] + [c];
      if q == "" {
      } else {
        assert (q + [d])[1..] == q[1..] + [d];
        DiffersAfterPrefix(p[1..], q[1..], c, d);
        assert |p| < |q| ==> (q[..|p|] == p <==> q[0] == p[0] && q[1..][..|p| - 1] == p[1..]);
      }
    }
  }

  ghost predicate TransitiveOn(strings: iset<string>) {
    forall s, t, u :: s in strings && t in strings && u in strings ==>
      StringNumericLessThan(s, t) && StringNumericLessThan(t, u) ==> StringNumericLessThan(s, u)
  }

  /** An inverted pair, and a string that does not match between its two. */
  ghost predicate Cycle(a: string, b: string, u: string) {
    Inverted(a, b) && !Matches(u) && Before(b, u) && Before(u, a)
  }

  lemma CycleIsNotTransitive(a: string, b: string, u: string)
    requires Cycle(a, b, u)
    ensures StringNumericLessThan(a, b) && StringNumericLessThan(b, u) && !StringNumericLessThan(a, u)
  {
    DiffersWhenInverted(a, b);
    BeforeIsStrict(u, a);
  }

  /** A failure of transitivity is a cycle of three strings; turned so that the one that does not
      match comes last, it is an inverted pair with that string between the two. */
  lemma FailureIsCycle(s: string, t: string, u: string)
    requires StringNumericLessThan(s, t) && StringNumericLessThan(t, u) && !StringNumericLessThan(s, u)
    ensures Cycle(s, t, u) || Cycle(t, u, s) || Cycle(u, s, t)
  {
    IsStrictAndTotal(s, u);
    IsStrictAndTotal(s, t);
    assert StringNumericLessThan(u, s);
    if Matches(s) == Matches(t) == Matches(u) {
      IsTransitive(s, t, u);
    } else if !Matches(u) {
      TurnedCycle(s, t, u);
    } else if !Matches(s) {
      TurnedCycle(t, u, s);
    } else {
      TurnedCycle(u, s, t);
    }
  }

  lemma TurnedCycle(a: string, b: string, u: string)
    requires StringNumericLessThan(a, b) && StringNumericLessThan(b, u) && StringNumericLessThan(u, a)
    requires !Matches(u)
    ensures Cycle(a, b, u)
  {
    assert Before(b, u) && Before(u, a);
    BeforeIsTransitive(b, u, a);
    BeforeIsStrict(b, a);
    DiffersWhenInverted(a, b);
  }

  /** The criterion is transitive on a set of strings, and so can sort a list of them, exactly when
      no string that does not match lies between the two of an inverted pair. */
  lemma TransitiveExactly(strings: iset<string>)
    ensures TransitiveOn(strings) <==>
            !exists a, b, u :: a in strings && b in strings && u in strings && Cycle(a, b, u)
  {
    hide StringNumericLessThan, Cycle;
    if a, b, u :| a in strings && b in strings && u in strings && Cycle(a, b, u) {
      CycleIsNotTransitive(a, b, u);
    }
    if !TransitiveOn(strings) {
      var s, t, u :| s in strings && t in strings && u in strings
        && StringNumericLessThan(s, t) && StringNumericLessThan(t, u) && !StringNumericLessThan(s, u);
      FailureIsCycle(s, t, u);
    }
  }

  /** For example, "a9" and "a10" with "a5x" between them: a cycle of three strings. */
  lemma IsNotTransitive()
    ensures Cycle("a9", "a10", "a5x")
    ensures StringNumericLessThan("a9", "a10")
    ensures StringNumericLessThan("a10", "a5x")
    ensures StringNumericLessThan("a5x", "a9")
  {
    assert "a9"[..1] == "a" && "a10"[..2] == "a1" && "a10"[1..] == "10" && "a5x"[1..] == "5x" && "a9"[1..] == "9";
    assert "a1"[1..] == "1" && "a"[1..] == "" && "a1"[..1] == "a";
    assert Before("", "1") && Before("10", "5x") && Before("5x", "9");
  }

  // ----- numeric suffixes

  lemma {:induction false} BeforeOfDigits(u: string, v: string)
    requires AllDigits(u) && AllDigits(v) && |u| == |v|
    ensures Before(u, v) <==> Read(u) < Read(v)
    decreases |u|
  {
    if u != "" {
      assert u == [u[0]] + u[1..] && v == [v[0]] + v[1..];
      BeforeOfDigits(u[1..], v[1..]);
      ReadConcat([u[0]], u[1..]);
      ReadConcat([v[0]], v[1..]);
      ReadBound(u[1..]);
      ReadBound(v[1..]);
      ReadOne(u[0]);
      ReadOne(v[0]);
      hide Read, Pow10;
      Leading(DigitValue(u[0]), Read(u[1..]), DigitValue(v[0]), Read(v[1..]), Pow10(|u| - 1));
      assert u[0] < v[0] <==> DigitValue(u[0]) < DigitValue(v[0]);
      assert u[0] == v[0] <==> DigitValue(u[0]) == DigitValue(v[0]);
    }
  }

  lemma Leading(a: nat, x: nat, b: nat, y: nat, p: nat)
    requires x < p && y < p
    ensures a * p + x < b * p + y <==> a < b || (a == b && x < y)
  {
    if a < b {
      assert (a + 1) * p <= b * p;
    } else if b < a {
      assert (b + 1) * p <= a * p;
    }
  }

  /** After a common prefix, number suffixes of the same length are compared by value. */
  lemma {:induction false} SameLengthIsNumeric(p: string, u: string, v: string)
    requires '\n' !in p && AllDigits(u) && AllDigits(v) && 0 < |u| == |v|
    ensures StringNumericLessThan(p + u, p + v) <==> Read(u) < Read(v)
  {
    hide Before, Read, Matches, Prefix, Suffix;
    var u', v' := u[..|u| - 1], v[..|v| - 1];
    SuffixedMatches(p, u);
    SuffixedMatches(p, v);
    BeforeWithPrefix(p, u', v');
    BeforeWithPrefix(p, u, v);
    BeforeOfDigits(u, v);
    BeforeOfDigits(u', v');
    assert u == u' + [u[|u| - 1]] && v == v' + [v[|v| - 1]];
    ReadLast(u', u[|u| - 1]);
    ReadLast(v', v[|v| - 1]);
    if p + u' == p + v' {
      assert u' == (p + u')[|p|..] == (p + v')[|p|..] == v';
    } else {
      assert u' != v';
      if Read(u') == Read(v') {
        ReadInjective(u', v');
      }
    }
  }

  lemma SuffixedMatches(p: string, u: string)
    requires '\n' !in p && AllDigits(u) && u != ""
    ensures Matches(p + u) && Prefix(p + u) == p + u[..|u| - 1] && Suffix(p + u) == DigitValue(u[|u| - 1])
  {
    assert (p + u)[..|p + u| - 1] == p + u[..|u| - 1];
  }

  /** A shorter and a longer suffix are compared by the shorter one without its last digit and as
      many leading digits of the longer one; a longer one without leading zeros is larger. */
  lemma {:induction false} ShorterIsNumericExactly(p: string, u: string, v: string)
    requires '\n' !in p && AllDigits(u) && AllDigits(v) && 0 < |u| < |v|
    ensures v[0] != '0' ==> Read(u) < Read(v)
    ensures StringNumericLessThan(p + u, p + v) <==> Read(u[..|u| - 1]) <= Read(v[..|u| - 1])
    ensures StringNumericLessThan(p + v, p + u) <==> Read(v[..|u| - 1]) < Read(u[..|u| - 1])
  {
    var k := |u| - 1;
    var u', v' := u[..k], v[..|v| - 1];
    if v[0] != '0' {
      LongerIsLarger(u, v);
    }
    SuffixedMatches(p, u);
    SuffixedMatches(p, v);
    BeforeWithPrefix(p, u', v');
    BeforeWithPrefix(p, v', u');
    assert v' == v[..k] + v'[k..];
    PrefixDecides(u', v[..k], v'[k..]);
    BeforeOfDigits(v[..k], u');
    assert |p + u'| != |p + v'|;
  }

  /** The documented order of suffixes after a common prefix: by value, equal values
      lexicographically. */
  predicate DocumentedBefore(u: string, v: string)
    requires AllDigits(u) && AllDigits(v)
  {
    Read(u) < Read(v) || (Read(u) == Read(v) && Before(u, v))
  }

  /** When the criterion keeps that order: for suffixes of the same length always; for others by
      the shorter one without its last digit and as many leading digits of the longer one. */
  predicate Kept(u: string, v: string)
    requires AllDigits(u) && AllDigits(v) && u != "" && v != ""
    decreases |v| < |u|
  {
    if |v| < |u| then Kept(v, u)
    else if |u| == |v| then true
    else if Read(u[..|u| - 1]) <= Read(v[..|u| - 1]) then Read(u) < Read(v) || Read(u) == 0
    else Read(v) <= Read(u)
  }

  /** Two suffixes of different lengths and the same value differ in leading zeros: the longer one
      comes first, unless the value is zero. */
  lemma {:induction false} EqualValues(u: string, v: string)
    requires AllDigits(u) && AllDigits(v) && |u| < |v| && Read(u) == Read(v)
    ensures Before(u, v) <==> Read(u) == 0
    ensures Before(v, u) <==> Read(u) != 0
    decreases |u|
  {
    hide Read;
    if v[0] != '0' {
      LongerIsLarger(u, v);
    } else if u == "" {
      ReadNothing();
    } else {
      ReadHead(u);
      ReadHead(v);
      if u[0] == '0' {
        EqualValues(u[1..], v[1..]);
      }
    }
  }

  /** With a common non-zero head the longer number is larger. */
  lemma {:induction false} LargerByHead(u: string, v: string)
    requires AllDigits(u) && AllDigits(v) && 0 < |u| < |v|
    ensures var a, b := Read(u[..|u| - 1]), Read(v[..|u| - 1]);
            && (a <= b && 0 < b ==> Read(u) < Read(v))
            && (a == 0 ==> Read(u) < 10)
            && (0 < a ==> 0 < Read(u))
  {
    hide Read, Pow10;
    var k := |u| - 1;
    assert u == u[..k] + [u[k]];
    ReadLast(u[..k], u[k]);
    assert v == v[..k] + v[k..];
    ReadConcat(v[..k], v[k..]);
    PowGrows(2, |v| - k);
    Pow10OfTwo();
    Hundredfold(Read(v[..k]), Pow10(|v| - k));
  }

  /** The documented order of two suffixes, whatever their leading zeros, is kept exactly so. */
  lemma KeepsSuffixOrder(p: string, u: string, v: string)
    requires '\n' !in p && AllDigits(u) && AllDigits(v) && u != "" && v != ""
    ensures (StringNumericLessThan(p + u, p + v) <==> DocumentedBefore(u, v)) <==> Kept(u, v)
    decreases |v| < |u|
  {
    if |v| < |u| {
      KeepsSuffixOrder(p, v, u);
      assert p + u != p + v;
      IsStrictAndTotal(p + u, p + v);
      BeforeIsStrict(u, v);
    } else if |u| == |v| {
      SameLengthIsNumeric(p, u, v);
      BeforeOfDigits(u, v);
    } else {
      hide StringNumericLessThan, Before, Read;
      ShorterIsNumericExactly(p, u, v);
      LargerByHead(u, v);
      if Read(u) == Read(v) {
        EqualValues(u, v);
      }
    }
  }

  lemma {:induction false} PrefixDecides(s: string, t: string, rest: string)
    requires |s| == |t| && rest != ""
    ensures Before(s, t + rest) <==> !Before(t, s)
    ensures Before(t + rest, s) <==> Before(t, s)
    decreases |s|
  {
    if s == "" {
      assert t + rest == rest;
    } else {
      assert (t + rest)[1..] == t[1..] + rest;
      PrefixDecides(s[1..], t[1..], rest);
    }
  }

  // ----- the documented order of any two matching strings

  /** The number of digits at the end. */
  function EndDigits(s: string): (n: nat)
    ensures n <= |s| && forall i :: |s| - n <= i < |s| ==> IsDigit(s[i])
    ensures n < |s| ==> !IsDigit(s[|s| - n - 1])
  {
    if s == "" || !IsDigit(s[|s| - 1]) then 0 else EndDigits(s[..|s| - 1]) + 1
  }

  /** The documented prefix and numeric suffix: the suffix is all the digits at the end. */
  function Stem(s: string): (p: string)
    ensures p == "" || !IsDigit(p[|p| - 1])
  {
    s[..|s| - EndDigits(s)]
  }

  function Number(s: string): (u: string)
    ensures AllDigits(u)
    ensures s == Stem(s) + u
  {
    var k := |s| - EndDigits(s);
    assert s == s[..k] + s[k..];
    s[k..]
  }

  /** The documented order: prefixes lexicographically, equal prefixes by the number suffixes. */
  predicate DocumentedLess(s: string, t: string) {
    if Stem(s) == Stem(t) then DocumentedBefore(Number(s), Number(t)) else Before(Stem(s), Stem(t))
  }

  /** When the criterion keeps that order: for equal prefixes as above; for prefixes of which neither
      starts the other always; otherwise when the number of the shorter prefix, without its last
      digit, comes before what the longer prefix has in its place. */
  predicate OrderKept(s: string, t: string)
    requires Number(s) != "" && Number(t) != ""
  {
    var p, q, u, v := Stem(s), Stem(t), Number(s), Number(t);
    if p == q then Kept(u, v)
    else if p <= q then Before(u[..|u| - 1], q[|p|..])
    else if q <= p then Before(v[..|v| - 1], p[|q|..])
    else true
  }

  lemma MatchingHasNumber(s: string)
    requires Matches(s)
    ensures IsNumber(Number(s)) && IsStem(Stem(s))
  {
    assert forall k :: 0 <= k < |Stem(s)| ==> Stem(s)[k] == s[..|s| - 1][k];
  }

  /** The order of two texts is decided where they differ, if neither starts the other. */
  lemma {:induction false} DecidedEarly(p: string, q: string, a: string, b: string)
    requires !(p <= q) && !(q <= p)
    ensures Before(p + a, q + b) <==> Before(p, q)
    decreases |p|
  {
    assert (p + a)[0] == p[0] && (q + b)[0] == q[0];
    assert (p + a)[1..] == p[1..] + a && (q + b)[1..] == q[1..] + b;
    if p[0] == q[0] {
      assert p[1..] <= q[1..] ==> p <= q;
      assert q[1..] <= p[1..] ==> q <= p;
      DecidedEarly(p[1..], q[1..], a, b);
    }
  }

  /** ... and digits never go on like a prefix, which does not end in a digit. */
  lemma DigitsAgainst(u: string, w: string, b: string)
    requires AllDigits(u) && w != "" && !IsDigit(w[|w| - 1])
    ensures Before(u, w + b) <==> Before(u, w)
    ensures u != w + b
  {
    assert |w| <= |u| ==> u[|w| - 1] != w[|w| - 1];
    assert (w + b)[|w| - 1] == w[|w| - 1];
    if u <= w {
      assert u <= w + b;
      StartsAreBefore(u, w);
      assert w + b == u + (w[|u|..] + b);
      StartsAreBefore(u, w + b);
    } else {
      DecidedEarly(u, w, "", b);
      assert u + "" == u;
    }
  }

  lemma StartsAreBefore(s: string, t: string)
    requires s <= t && s != t
    ensures Before(s, t)
  {
    BeforeWithPrefix(s, "", t[|s|..]);
    assert s + "" == s && s + t[|s|..] == t;
  }

  predicate IsStem(p: string) {
    '\n' !in p && (p == "" || !IsDigit(p[|p| - 1]))
  }

  predicate IsNumber(u: string) {
    AllDigits(u) && u != ""
  }

  /** What the pattern takes for the prefixes decides, if they differ. */
  lemma DecidedByPrefixes(p: string, q: string, u: string, v: string)
    requires IsStem(p) && IsStem(q) && IsNumber(u) && IsNumber(v)
    ensures var a, b := p + u[..|u| - 1], q + v[..|v| - 1];
            a != b ==> (StringNumericLessThan(p + u, q + v) <==> Before(a, b))
  {
    SuffixedMatches(p, u);
    SuffixedMatches(q, v);
    hide Matches, Prefix, Suffix, Before;
  }

  /** Two strings of which neither prefix starts the other. */
  lemma {:induction false} UnrelatedStems(p: string, q: string, u: string, v: string)
    requires IsStem(p) && IsStem(q) && IsNumber(u) && IsNumber(v) && !(p <= q) && !(q <= p)
    ensures StringNumericLessThan(p + u, q + v) <==> Before(p, q)
  {
    DecidedByPrefixes(p, q, u, v);
    var u', v' := u[..|u| - 1], v[..|v| - 1];
    hide *;
    DecidedEarly(p, q, u', v');
    NeitherStarts(p, q, u', v');
  }

  /** Two strings of which one prefix is a proper start of the other. */
  lemma LongerStem(p: string, w: string, u: string, v: string)
    requires IsStem(p) && IsStem(p + w) && w != "" && IsNumber(u) && IsNumber(v)
    ensures Before(p, p + w)
    ensures StringNumericLessThan(p + u, (p + w) + v) <==> Before(u[..|u| - 1], w)
  {
    var u', v' := u[..|u| - 1], v[..|v| - 1];
    assert w[|w| - 1] == (p + w)[|p + w| - 1];
    assert p <= p + w && p != p + w;
    DecidedByPrefixes(p, p + w, u, v);
    assert AllDigits(u');
    assert (p + w) + v' == p + (w + v');
    assert (p + u')[|p|..] == u' && (p + (w + v'))[|p|..] == w + v';
    hide *;
    StartsAreBefore(p, p + w);
    DigitsAgainst(u', w, v');
    BeforeWithPrefix(p, u', w + v');
  }

  /** Two strings with different prefixes. */
  lemma {:induction false} DifferentStems(p: string, q: string, u: string, v: string)
    requires IsStem(p) && IsStem(q) && IsNumber(u) && IsNumber(v) && p != q
    ensures !(p <= q) && !(q <= p) ==> (StringNumericLessThan(p + u, q + v) <==> Before(p, q))
    ensures p <= q ==> Before(p, q)
    ensures p <= q ==> (StringNumericLessThan(p + u, q + v) <==> Before(u[..|u| - 1], q[|p|..]))
  {
    assert u != "";
    hide *;
    if p <= q {
      assert q == p + q[|p|..];
      LongerStem(p, q[|p|..], u, v);
    } else if !(q <= p) {
      UnrelatedStems(p, q, u, v);
    }
  }

  lemma NeitherStarts(p: string, q: string, a: string, b: string)
    requires !(p <= q) && !(q <= p)
    ensures p + a != q + b
  {
    assert (p + a)[..|p|] == p && (q + b)[..|q|] == q;
    assert |p| <= |q| ==> (q + b)[..|p|] == q[..|p|];
    assert |q| <= |p| ==> (p + a)[..|q|] == p[..|q|];
  }

  /** For all strings that match the pattern: the documented order is kept exactly so. */
  lemma {:induction false} KeepsDocumentedOrder(s: string, t: string)
    requires Matches(s) && Matches(t)
    ensures Number(s) != "" && Number(t) != ""
    ensures (StringNumericLessThan(s, t) <==> DocumentedLess(s, t)) <==> OrderKept(s, t)
  {
    MatchingHasNumber(s);
    MatchingHasNumber(t);
    var p, q, u, v := Stem(s), Stem(t), Number(s), Number(t);
    if p == q {
      KeepsSuffixOrder(p, u, v);
    } else {
      hide StringNumericLessThan, Matches, Before, EndDigits, Stem, Number;
      BeforeIsStrict(p, q);
      DifferentStems(p, q, u, v);
      DifferentStems(q, p, v, u);
      IsStrictAndTotal(s, t);
      BeforeIsStrict(s, t);
    }
  }

  lemma {:induction false} EndDigitsOf(p: string, u: string)
    requires AllDigits(u) && (p == "" || !IsDigit(p[|p| - 1]))
    ensures EndDigits(p + u) == |u|
    decreases |u|
  {
    if u == "" {
      assert p + u == p;
    } else {
      assert (p + u)[..|p + u| - 1] == p + u[..|u| - 1];
      EndDigitsOf(p, u[..|u| - 1]);
    }
  }

  lemma StemOf(p: string, u: string)
    requires AllDigits(u) && (p == "" || !IsDigit(p[|p| - 1]))
    ensures Stem(p + u) == p && Number(p + u) == u
  {
    EndDigitsOf(p, u);
    hide EndDigits;
  }

  /** For example, the documented order of prefixes fails: a comes before a- and before a5x, but
      a-34 comes before a12 and a5x3 before a95. */
  lemma {:induction false} DashBeforeDigit()
    ensures StringNumericLessThan("a-34", "a12") && DocumentedLess("a12", "a-34")
    ensures StringNumericLessThan("a5x3", "a95") && DocumentedLess("a95", "a5x3")
    ensures StringNumericLessThan("ttyS1", "ttyUSB0") && DocumentedLess("ttyS1", "ttyUSB0")
  {
    hide StringNumericLessThan, Stem, Number, Read, Before;
    assert "a" + "12" == "a12" && "a-" + "34" == "a-34" && "a" + "95" == "a95" && "a5x" + "3" == "a5x3";
    assert "ttyS" + "1" == "ttyS1" && "ttyUSB" + "0" == "ttyUSB0";
    StemOf("a", "12");
    StemOf("a-", "34");
    StemOf("a", "95");
    StemOf("a5x", "3");
    StemOf("ttyS", "1");
    StemOf("ttyUSB", "0");
    DashCompared();
    DifferentStems("a", "a-", "12", "34");
    DifferentStems("a", "a5x", "95", "3");
    DifferentStems("ttyS", "ttyUSB", "1", "0");
    IsStrictAndTotal("a12", "a-34");
    IsStrictAndTotal("a95", "a5x3");
  }

  lemma DashCompared()
    ensures "12"[..1] == "1" && "95"[..1] == "9" && "a-"[1..] == "-" && "a5x"[1..] == "5x"
    ensures !Before("1", "-") && !Before("9", "5x") && Before("ttyS", "ttyUSB")
  {
    assert "ttyS" == "tty" + "S" && "ttyUSB" == "tty" + "USB";
    BeforeWithPrefix("tty", "S", "USB");
  }

  lemma ReadDigits()
    ensures Read("1") == 1 && Read("2") == 2 && Read("0") == 0
  {
    ReadOne('1');
    ReadOne('2');
    ReadOne('0');
  }

  /** For example, 2 comes before 10 as documented, but 100 comes before 20. */
  lemma HundredBeforeTwenty()
    ensures StringNumericLessThan("ttyS2", "ttyS10")
    ensures StringNumericLessThan("ttyS100", "ttyS20")
  {
    hide StringNumericLessThan, Read;
    ReadDigits();
    assert "100"[..1] == "1" && "20"[..1] == "2" && "2"[..0] == "" && "10"[..0] == "";
    assert "ttyS" + "100" == "ttyS100" && "ttyS" + "20" == "ttyS20";
    assert "ttyS" + "2" == "ttyS2" && "ttyS" + "10" == "ttyS10";
    ShorterIsNumericExactly("ttyS", "20", "100");
    ShorterIsNumericExactly("ttyS", "2", "10");
  }

  /** With leading zeros, 012 comes before 12 as documented, but 7 comes before 05. */
  lemma SevenBeforeFive()
    ensures StringNumericLessThan("abc012", "abc12")
    ensures StringNumericLessThan("a7", "a05")
  {
    hide StringNumericLessThan, Read;
    ReadDigits();
    assert "7"[..0] == "" && "05"[..0] == "" && "12"[..1] == "1" && "012"[..1] == "0";
    assert "a" + "7" == "a7" && "a" + "05" == "a05" && "abc" + "12" == "abc12" && "abc" + "012" == "abc012";
    ShorterIsNumericExactly("a", "7", "05");
    ShorterIsNumericExactly("abc", "12", "012");
  }
}
