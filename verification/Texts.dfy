/** Parts of a text, and white space at its two ends: which texts contain which, what is left when
    the spaces at the front or at the end are dropped, and that a text is what is left together with
    the spaces dropped. */
module Texts {
  const LF := '\n'

  /** Whether part occurs in text; the empty string occurs in every text. */
  predicate Contains(text: string, part: string) {
    part <= text || (text != "" && Contains(text[1..], part))
  }

  lemma Associative(a: string, b: string, c: string)
    ensures (a + b) + c == a + (b + c)
  {
  }

  predicate IsSpace(c: char) {
    c == ' ' || c == '\t' || c == '\n' || c == '\U{000B}' || c == '\U{000C}' || c == '\r'
  }

  /** By their codes: the characters from 9 to 13, and 32. */
  lemma SpacesAre(c: char)
    ensures IsSpace(c) <==> 9 <= c as int <= 13 || c as int == 32
  {
  }

  predicate AllSpaces(s: string) {
    forall i :: 0 <= i < |s| ==> IsSpace(s[i])
  }

  function DropSpaces(s: string): string {
    if s != "" && IsSpace(s[0]) then DropSpaces(s[1..]) else s
  }

  function DropLastSpaces(s: string): string {
    if s != "" && IsSpace(s[|s| - 1]) then DropLastSpaces(s[..|s| - 1]) else s
  }

  lemma {:induction false} DropSpacesOf(spaces: string, s: string)
    requires AllSpaces(spaces) && (s == "" || !IsSpace(s[0]))
    ensures DropSpaces(spaces + s) == s
    decreases |spaces|
  {
    if spaces == "" {
      assert spaces + s == s;
    } else {
      assert (spaces + s)[1..] == spaces[1..] + s;
      DropSpacesOf(spaces[1..], s);
    }
  }

  lemma {:induction false} DropLastSpacesOf(s: string, spaces: string)
    requires AllSpaces(spaces) && (s == "" || !IsSpace(s[|s| - 1]))
    ensures DropLastSpaces(s + spaces) == s
    decreases |spaces|
  {
    if spaces == "" {
      assert s + spaces == s;
    } else {
      assert (s + spaces)[..|s + spaces| - 1] == s + spaces[..|spaces| - 1];
      DropLastSpacesOf(s, spaces[..|spaces| - 1]);
    }
  }

  lemma {:induction false} SpacesDropped(s: string) returns (spaces: string)
    ensures AllSpaces(spaces) && s == spaces + DropSpaces(s)
    ensures s != "" && IsSpace(s[0]) ==> spaces != ""
  {
    if s != "" && IsSpace(s[0]) {
      var more := SpacesDropped(s[1..]);
      spaces := [s[0]] + more;
    } else {
      spaces := "";
    }
  }

  lemma {:induction false} LastSpacesDropped(s: string) returns (spaces: string)
    ensures AllSpaces(spaces) && s == DropLastSpaces(s) + spaces
  {
    if s != "" && IsSpace(s[|s| - 1]) {
      var more := LastSpacesDropped(s[..|s| - 1]);
      spaces := more + [s[|s| - 1]];
    } else {
      spaces := "";
    }
  }

  lemma Regroup(a: string, b: string, c: string, d: string)
    ensures a + b + (c + d) == a + ((b + c) + d)
  {
  }

  lemma SignFirst(sign: string, text: string, lead: string, rest: string)
    ensures ((sign + text) + lead) + rest == sign + ((text + lead) + rest)
  {
  }

  lemma DropSpacesHead(s: string)
    ensures DropSpaces(s) != "" ==> DropSpaces(s)[0] in s
    ensures forall c :: c in DropSpaces(s) ==> c in s
  {
    var spaces := SpacesDropped(s);
  }

  lemma DropLastSpacesHead(s: string)
    ensures DropLastSpaces(s) <= s
    ensures forall c :: c in DropLastSpaces(s) ==> c in s
  {
    var spaces := LastSpacesDropped(s);
  }

  lemma {:induction false} ContainsOne(text: string, c: char)
    ensures Contains(text, [c]) <==> c in text
  {
    if text != "" {
      ContainsOne(text[1..], c);
      assert [c] <= text <==> text[0] == c;
      assert text == [text[0]] + text[1..];
    }
  }

  lemma {:induction false} DropSpacesBreak(s: string)
    ensures DropSpaces(s + [LF]) == if DropSpaces(s) == "" then "" else DropSpaces(s) + [LF]
  {
    if s == "" {
      assert s + [LF] == [LF] && [LF][1..] == "";
    } else {
      assert (s + [LF])[1..] == s[1..] + [LF];
      if IsSpace(s[0]) {
        DropSpacesBreak(s[1..]);
      }
    }
  }

  lemma DropLastSpacesBreak(s: string)
    ensures DropLastSpaces(s + [LF]) == DropLastSpaces(s)
  {
    assert (s + [LF])[..|s|] == s;
  }

  lemma PrefixBreak(s: string, part: string)
    requires LF !in part
    ensures part <= s + [LF] <==> part <= s
  {
    if |part| == |s| + 1 {
      assert part[|s|] in part;
      assert (s + [LF])[|s|] == LF;
    }
  }

  lemma {:induction false} ContainsBreak(s: string, part: string)
    requires LF !in part && part != ""
    ensures Contains(s + [LF], part) <==> Contains(s, part)
    decreases |s|
  {
    PrefixBreak(s, part);
    if s == "" {
      assert s + [LF] == [LF] && [LF][1..] == "";
    } else {
      assert (s + [LF])[1..] == s[1..] + [LF];
      ContainsBreak(s[1..], part);
    }
  }
}
