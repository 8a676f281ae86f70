/** The patterns of the mocker, each told by the places in a line where its parts stand, what each of
    them needs of a line without the white space at its two ends, and that the kind of a line is that of
    the first pattern that fits. */
module TsPatterns {
  import opened Texts
  import opened TsLines

  predicate At(line: string, i: nat, part: string) {
    i + |part| <= |line| && line[i..i + |part|] == part
  }

  /** Only white space before the part at index i. */
  predicate Starts(line: string, i: nat, part: string) {
    At(line, i, part) && AllSpaces(line[..i])
  }

  /** Only white space after the part at index i. */
  predicate Ends(line: string, i: nat, part: string) {
    At(line, i, part) && AllSpaces(line[i + |part|..])
  }

  /** An unfinished translation on one line: its opening tag, the attribute, the end of a tag after it,
      and its closing tag. */
  predicate UnfinishedAt(line: string, i: nat, j: nat, k: nat, l: nat) {
    && Starts(line, i, "<translation") && i + 12 <= j && At(line, j, "type=\"unfinished\"")
    && j + 17 <= k < l && At(line, k, ">") && Ends(line, l, "</translation>")
  }

  /** The pattern of this kind fits, with this numerus attribute or this captured text. */
  ghost predicate Fits(line: string, kind: Kind) {
    match kind
    case Message(numerus) =>
      (exists i: nat :: Starts(line, i, "<message")) && (numerus <==> exists i: nat :: At(line, i, "numerus=\"yes\""))
    case WholeSource(captured) =>
      exists i: nat, j: nat :: Starts(line, i, "<source>") && i + 8 <= j && Ends(line, j, "</source>") && captured == line[i + 8..j]
    case SourceStart(captured) =>
      exists i: nat :: Starts(line, i, "<source>") && captured == line[i + 8..]
    case SourceEnd(captured) =>
      exists j: nat :: Ends(line, j, "</source>") && captured == line[..j]
    case WholeUnfinished =>
      exists i: nat, j: nat, k: nat, l: nat :: UnfinishedAt(line, i, j, k, l)
    case UnfinishedStart =>
      exists i: nat, j: nat :: Starts(line, i, "<translation") && i + 12 <= j && At(line, j, "type=\"unfinished\"")
    case TranslationEnd =>
      exists j: nat :: Ends(line, j, "</translation>")
    case Other => true
  }

  /** The patterns in the order in which they are tried. */
  function Rank(kind: Kind): nat {
    match kind
    case Message(_) => 0
    case WholeSource(_) => 1
    case SourceStart(_) => 2
    case SourceEnd(_) => 3
    case WholeUnfinished => 4
    case UnfinishedStart => 5
    case TranslationEnd => 6
    case Other => 7
  }

  ghost predicate FirstFits(line: string, kind: Kind) {
    Fits(line, kind) && forall other :: Rank(other) < Rank(kind) ==> !Fits(line, other)
  }

  // ----- the two ends of a line

  function OpenAt(line: string): (i: nat)
    ensures i <= |line| && DropSpaces(line) == line[i..] && AllSpaces(line[..i])
    ensures i < |line| ==> !IsSpace(line[i])
  {
    if line != "" && IsSpace(line[0]) then
      var i := OpenAt(line[1..]);
      assert line[..i + 1] == [line[0]] + line[1..][..i];
      i + 1
    else 0
  }

  function CloseAt(line: string): (j: nat)
    ensures j <= |line| && DropLastSpaces(line) == line[..j] && AllSpaces(line[j..])
    ensures 0 < j ==> !IsSpace(line[j - 1])
  {
    if line != "" && IsSpace(line[|line| - 1]) then
      var j := CloseAt(line[..|line| - 1]);
      assert line[j..] == line[..|line| - 1][j..] + [line[|line| - 1]];
      j
    else |line|
  }

  lemma SpacesBefore(line: string, i: nat)
    requires i <= |line| && AllSpaces(line[..i])
    ensures forall q :: 0 <= q < i ==> IsSpace(line[q])
  {
    assert forall q :: 0 <= q < i ==> line[..i][q] == line[q];
  }

  lemma SpacesAfter(line: string, i: nat)
    requires i <= |line| && AllSpaces(line[i..])
    ensures forall q :: i <= q < |line| ==> IsSpace(line[q])
  {
    forall q | i <= q < |line| ensures IsSpace(line[q]) {
      assert line[i..][q - i] == line[q];
    }
  }

  lemma StartsAt(line: string, i: nat, part: string)
    requires part != "" && !IsSpace(part[0])
    ensures Starts(line, i, part) <==> i == OpenAt(line) && part <= DropSpaces(line)
  {
    var o := OpenAt(line);
    hide OpenAt, DropSpaces, IsSpace, AllSpaces;
    SpacesBefore(line, o);
    if Starts(line, i, part) {
      assert line[i] == line[i..i + |part|][0];
      SpacesBefore(line, i);
    }
    if i == o && i + |part| <= |line| {
      assert line[o..][..|part|] == line[o..o + |part|];
    }
  }

  lemma EndsAt(line: string, j: nat, part: string)
    requires part != "" && !IsSpace(part[|part| - 1])
    ensures Ends(line, j, part) <==> j + |part| == CloseAt(line) && EndsWith(DropLastSpaces(line), part)
  {
    var c, e := CloseAt(line), j + |part|;
    hide CloseAt, DropLastSpaces, IsSpace, AllSpaces;
    SpacesAfter(line, c);
    if Ends(line, j, part) {
      assert line[e - 1] == line[j..e][|part| - 1];
      SpacesAfter(line, e);
    }
    if e == c {
      assert line[..c][c - |part|..] == line[j..e];
    }
  }

  /** A line between the white space at its two ends. */
  lemma CoreAt(line: string)
    ensures var core, o, c := DropLastSpaces(DropSpaces(line)), OpenAt(line), CloseAt(line);
            core == (if o < |line| then line[o..c] else "") && (o < |line| ==> o < c)
  {
    hide *;
    CoreBetween(line, DropSpaces(line), OpenAt(line), CloseAt(line));
  }

  lemma CoreBetween(line: string, open: string, o: nat, c: nat)
    requires o <= |line| && open == line[o..] && (o < |line| ==> !IsSpace(line[o]))
    requires c <= |line| && AllSpaces(line[c..]) && (0 < c ==> !IsSpace(line[c - 1]))
    ensures DropLastSpaces(open) == (if o < |line| then line[o..c] else "") && (o < |line| ==> o < c)
  {
    hide IsSpace, AllSpaces;
    if o < |line| {
      SpacesAfter(line, c);
      CoreOf(line, o, c);
    }
  }

  lemma CoreOf(line: string, o: nat, c: nat)
    requires o < c <= |line| && AllSpaces(line[c..]) && !IsSpace(line[c - 1])
    ensures DropLastSpaces(line[o..]) == line[o..c]
  {
    hide DropLastSpaces, IsSpace, AllSpaces;
    var core := line[o..c];
    assert core[|core| - 1] == line[c - 1];
    assert line[o..] == core + line[c..];
    DropLastSpacesOf(core, line[c..]);
  }

  // ----- parts of a line

  lemma AtShifted(text: string, i: nat, part: string)
    requires text != ""
    ensures At(text[1..], i, part) <==> At(text, i + 1, part)
  {
    AtInside(text, 1, |text|, i, part);
    assert text[1..] == text[1..|text|];
  }

  lemma AtStart(text: string, part: string)
    ensures At(text, 0, part) <==> part <= text
    ensures part != "" ==> forall i: nat :: !At("", i, part)
  {
  }

  lemma {:induction false} ContainsAt(text: string, part: string)
    ensures Contains(text, part) <==> exists i: nat :: At(text, i, part)
    decreases |text|
  {
    hide At;
    AtStart(text, part);
    if text != "" {
      ContainsAt(text[1..], part);
      if i: nat :| At(text[1..], i, part) {
        AtShifted(text, i, part);
      }
      if i: nat :| At(text, i, part) {
        if i > 0 {
          AtShifted(text, i - 1, part);
        }
      }
    }
  }

  lemma {:induction false} FirstAt(text: string, part: string) returns (f: nat)
    requires Contains(text, part)
    ensures At(text, f, part) && AfterFirst(text, part) == text[f + |part|..]
    ensures forall j: nat :: At(text, j, part) ==> f <= j
    decreases |text|
  {
    if part <= text {
      f := 0;
    } else {
      hide At;
      AtStart(text, part);
      var g := FirstAt(text[1..], part);
      AtShifted(text, g, part);
      f := g + 1;
      assert text[1..][g + |part|..] == text[f + |part|..];
      forall j: nat | At(text, j, part)
        ensures f <= j
      {
        if j > 0 {
          AtShifted(text, j - 1, part);
        }
      }
    }
  }

  /** A place in a part of a line is a place in the line. */
  lemma AtInside(line: string, from: nat, to: nat, i: nat, part: string)
    requires from <= to <= |line|
    ensures At(line[from..to], i, part) <==> from + i + |part| <= to && At(line, from + i, part)
  {
    if i + |part| <= to - from {
      var a, b := line[from..to][i..i + |part|], line[from + i..from + i + |part|];
      assert |a| == |b| && forall q :: 0 <= q < |part| ==> a[q] == b[q];
    }
  }

  // ----- what each pattern needs

  lemma Literals()
    ensures MESSAGE == "<message" && NUMERUS == "numerus=\"yes\"" && UNFINISHED == "type=\"unfinished\""
    ensures SOURCE == "<source>" && SOURCE_END == "</source>"
    ensures TRANSLATION == "<translation" && TRANSLATION_END == "</translation>"
    ensures |SOURCE| == 8 && |SOURCE_END| == 9 && |TRANSLATION| == 12 && |UNFINISHED| == 17
    ensures |MESSAGE| == 8 && |TRANSLATION_END| == 14
    ensures !IsSpace(MESSAGE[0]) && !IsSpace(SOURCE[0]) && !IsSpace(TRANSLATION[0])
    ensures !IsSpace(SOURCE_END[8]) && !IsSpace(TRANSLATION_END[13])
  {
  }

  lemma MessageFits(line: string, numerus: bool)
    ensures Fits(line, Message(numerus)) <==> MESSAGE <= DropSpaces(line) && numerus == Contains(line, NUMERUS)
  {
    Literals();
    hide OpenAt, DropSpaces, Contains, At, Starts, MESSAGE, NUMERUS;
    ContainsAt(line, NUMERUS);
    StartsExactly(line, MESSAGE);
  }

  lemma StartsExactly(line: string, part: string)
    requires part != "" && !IsSpace(part[0])
    ensures part <= DropSpaces(line) <==> Starts(line, OpenAt(line), part)
    ensures forall i: nat :: Starts(line, i, part) <==> i == OpenAt(line) && part <= DropSpaces(line)
  {
    hide *;
    forall i: nat ensures Starts(line, i, part) <==> i == OpenAt(line) && part <= DropSpaces(line) {
      StartsAt(line, i, part);
    }
  }

  lemma EndsExactly(line: string, part: string)
    requires part != "" && !IsSpace(part[|part| - 1])
    ensures EndsWith(DropLastSpaces(line), part) ==>
              |part| <= CloseAt(line) && Ends(line, CloseAt(line) - |part|, part)
    ensures forall j: nat ::
              Ends(line, j, part) <==> j + |part| == CloseAt(line) && EndsWith(DropLastSpaces(line), part)
  {
    forall j: nat
      ensures Ends(line, j, part) <==> j + |part| == CloseAt(line) && EndsWith(DropLastSpaces(line), part)
    {
      EndsAt(line, j, part);
    }
  }

  lemma SourceStartFits(line: string, captured: string)
    ensures Fits(line, SourceStart(captured)) <==>
            SOURCE <= DropSpaces(line) && captured == DropSpaces(line)[|SOURCE|..]
  {
    Literals();
    StartsExactly(line, SOURCE);
    var o := OpenAt(line);
    assert SOURCE <= DropSpaces(line) ==> line[o..][8..] == line[o + 8..];
    hide OpenAt, DropSpaces, At, Starts, SOURCE;
  }

  lemma SourceEndFits(line: string, captured: string)
    ensures Fits(line, SourceEnd(captured)) <==>
            var close := DropLastSpaces(line);
            EndsWith(close, SOURCE_END) && captured == close[..|close| - |SOURCE_END|]
  {
    Literals();
    EndsExactly(line, SOURCE_END);
    var c := CloseAt(line);
    assert 9 <= c ==> line[..c][..c - 9] == line[..c - 9];
    hide CloseAt, DropLastSpaces, At, Ends, SOURCE_END;
  }

  lemma TranslationEndFits(line: string)
    ensures Fits(line, TranslationEnd) <==> EndsWith(DropLastSpaces(line), TRANSLATION_END)
  {
    Literals();
    EndsExactly(line, TRANSLATION_END);
    hide CloseAt, DropLastSpaces, At, Ends, TRANSLATION_END;
  }

  /** A core that starts and ends as given, without the two overlapping. */
  lemma CoreExactly(line: string, start: string, end: string, i: nat, j: nat)
    requires start != "" && !IsSpace(start[0]) && end != "" && !IsSpace(end[|end| - 1])
    ensures var core, o, c := DropLastSpaces(DropSpaces(line)), OpenAt(line), CloseAt(line);
            && (Starts(line, i, start) && i + |start| <= j && Ends(line, j, end) <==>
                  && i == o && j + |end| == c && o < c && core == line[o..c]
                  && start <= core && EndsWith(core, end) && |start| + |end| <= |core|)
            && (start <= core ==> o < c && core == line[o..c])
  {
    hide *;
    var core, o, c := DropLastSpaces(DropSpaces(line)), OpenAt(line), CloseAt(line);
    CoreAt(line);
    StartsAt(line, i, start);
    EndsAt(line, j, end);
    if o < c && |start| <= c - o {
      PrefixOfCore(line, o, c, start);
    }
    if o < c && |end| <= c - o {
      SuffixOfCore(line, o, c, end);
    }
  }

  lemma PrefixOfCore(line: string, o: nat, c: nat, start: string)
    requires o + |start| <= c <= |line|
    ensures start <= line[o..] <==> start <= line[o..c]
  {
    assert line[o..c][..|start|] == line[o..][..|start|];
  }

  lemma SuffixOfCore(line: string, o: nat, c: nat, end: string)
    requires o + |end| <= c <= |line|
    ensures EndsWith(line[..c], end) <==> EndsWith(line[o..c], end)
  {
    assert line[o..c][c - o - |end|..] == line[..c][c - |end|..];
  }

  lemma Inner(line: string, o: nat, c: nat, a: nat, b: nat)
    requires o + a + b <= c <= |line|
    ensures line[o..c][a..c - o - b] == line[o + a..c - b]
  {
    var x, y := line[o..c][a..c - o - b], line[o + a..c - b];
    assert |x| == |y| && forall q :: 0 <= q < |x| ==> x[q] == y[q];
  }

  /** A line that starts and ends as given, and what is between: as the places tell, ... */
  lemma BetweenTags(line: string, start: string, end: string, i: nat, j: nat)
    requires start != "" && !IsSpace(start[0]) && end != "" && !IsSpace(end[|end| - 1])
    requires Starts(line, i, start) && i + |start| <= j && Ends(line, j, end)
    ensures var core := DropLastSpaces(DropSpaces(line));
            && start <= core && EndsWith(core, end) && |start| + |end| <= |core|
            && core[|start|..|core| - |end|] == line[i + |start|..j]
  {
    hide *;
    CoreExactly(line, start, end, i, j);
    Inner(line, OpenAt(line), CloseAt(line), |start|, |end|);
  }

  /** ... and back. */
  lemma TagsOfCore(line: string, start: string, end: string) returns (i: nat, j: nat)
    requires start != "" && !IsSpace(start[0]) && end != "" && !IsSpace(end[|end| - 1])
    requires var core := DropLastSpaces(DropSpaces(line));
             start <= core && EndsWith(core, end) && |start| + |end| <= |core|
    ensures Starts(line, i, start) && i + |start| <= j && Ends(line, j, end)
    ensures var core := DropLastSpaces(DropSpaces(line)); core[|start|..|core| - |end|] == line[i + |start|..j]
  {
    hide *;
    CoreExactly(line, start, end, 0, 0);
    i, j := OpenAt(line), CloseAt(line) - |end|;
    CoreExactly(line, start, end, i, j);
    Inner(line, i, CloseAt(line), |start|, |end|);
  }

  lemma WholeSourceFits(line: string, captured: string)
    ensures Fits(line, WholeSource(captured)) <==>
            var core := DropLastSpaces(DropSpaces(line));
            && SOURCE <= core && EndsWith(core, SOURCE_END) && |SOURCE| + |SOURCE_END| <= |core|
            && captured == core[|SOURCE|..|core| - |SOURCE_END|]
  {
    var core := DropLastSpaces(DropSpaces(line));
    Literals();
    hide DropSpaces, DropLastSpaces, EndsWith, AllSpaces, SOURCE, SOURCE_END, IsSpace;
    if i: nat, j: nat :| Starts(line, i, SOURCE) && i + 8 <= j && Ends(line, j, SOURCE_END) && captured == line[i + 8..j] {
      BetweenTags(line, SOURCE, SOURCE_END, i, j);
    }
    if SOURCE <= core && EndsWith(core, SOURCE_END) && 17 <= |core| {
      var i, j := TagsOfCore(line, SOURCE, SOURCE_END);
    }
  }

  lemma UnfinishedStartFits(line: string)
    ensures Fits(line, UnfinishedStart) <==>
            TRANSLATION <= DropSpaces(line) && Contains(DropSpaces(line)[|TRANSLATION|..], UNFINISHED)
  {
    var o := OpenAt(line);
    Literals();
    StartsExactly(line, TRANSLATION);
    AtBounds(line, UNFINISHED);
    if TRANSLATION <= DropSpaces(line) {
      assert o + 12 <= |line| && DropSpaces(line)[12..] == line[o + 12..] == line[o + 12..|line|];
      ContainsFrom(line, o + 12, |line|, UNFINISHED);
    }
    hide OpenAt, DropSpaces, Contains, At, Starts, TRANSLATION, UNFINISHED;
  }

  lemma AtBounds(line: string, part: string)
    ensures forall j: nat :: At(line, j, part) ==> j + |part| <= |line|
  {
  }

  lemma ContainsFrom(line: string, from: nat, to: nat, part: string)
    requires from <= to <= |line|
    ensures Contains(line[from..to], part) <==> exists j: nat :: from <= j && j + |part| <= to && At(line, j, part)
  {
    hide At, Contains;
    ContainsAt(line[from..to], part);
    if i: nat :| At(line[from..to], i, part) {
      AtInside(line, from, to, i, part);
    }
    if j: nat :| from <= j && j + |part| <= to && At(line, j, part) {
      AtInside(line, from, to, j - from, part);
    }
  }

  /** A part and a later tag end: the first place of the part leaves the most after it. */
  lemma PartThenEnd(text: string, part: string)
    ensures Contains(text, part) && '>' in AfterFirst(text, part) <==>
            exists j: nat, k: nat :: At(text, j, part) && j + |part| <= k && At(text, k, ">")
  {
    ContainsAt(text, part);
    if Contains(text, part) {
      var f := FirstAt(text, part);
      EndAfter(text, f + |part|);
      hide *;
      if '>' in AfterFirst(text, part) {
        var k: nat :| f + |part| <= k && At(text, k, ">");
        assert At(text, f, part) && At(text, k, ">");
      }
    }
  }

  lemma EndAfter(text: string, from: nat)
    requires from <= |text|
    ensures '>' in text[from..] <==> exists k: nat :: from <= k && At(text, k, ">")
  {
    var rest := text[from..];
    if '>' in rest {
      var q :| 0 <= q < |rest| && rest[q] == '>';
      assert At(text, from + q, ">");
    }
    if k: nat :| from <= k && At(text, k, ">") {
      assert text[k..k + 1][0] == text[k] == rest[k - from];
    }
  }

  /** ... in a part of a line. */
  lemma PartThenEndFrom(line: string, from: nat, to: nat, part: string)
    requires from <= to <= |line|
    ensures Contains(line[from..to], part) && '>' in AfterFirst(line[from..to], part) <==>
            exists j: nat, k: nat :: from <= j && At(line, j, part) && j + |part| <= k < to && At(line, k, ">")
  {
    var text := line[from..to];
    PartThenEnd(text, part);
    hide *;
    if j: nat, k: nat :| At(text, j, part) && j + |part| <= k && At(text, k, ">") {
      Outside(line, from, to, part, j, k);
    }
    if j: nat, k: nat :| from <= j && At(line, j, part) && j + |part| <= k < to && At(line, k, ">") {
      Inside(line, from, to, part, j, k);
    }
  }

  lemma Outside(line: string, from: nat, to: nat, part: string, j: nat, k: nat)
    requires from <= to <= |line| && At(line[from..to], j, part) && j + |part| <= k && At(line[from..to], k, ">")
    ensures At(line, from + j, part) && from + j + |part| <= from + k < to && At(line, from + k, ">")
  {
    hide *;
    AtInside(line, from, to, j, part);
    AtInside(line, from, to, k, ">");
  }

  lemma Inside(line: string, from: nat, to: nat, part: string, j: nat, k: nat)
    requires from <= j && At(line, j, part) && j + |part| <= k < to <= |line| && At(line, k, ">")
    ensures At(line[from..to], j - from, part) && j - from + |part| <= k - from && At(line[from..to], k - from, ">")
  {
    hide *;
    AtInside(line, from, to, j - from, part);
    AtInside(line, from, to, k - from, ">");
  }

  lemma UnfinishedNeeds(line: string, i: nat, j: nat, k: nat, l: nat)
    requires UnfinishedAt(line, i, j, k, l)
    ensures IsWholeUnfinished(DropLastSpaces(DropSpaces(line)))
  {
    Literals();
    hide DropSpaces, DropLastSpaces, EndsWith, At, Starts, Ends, Contains, AfterFirst, IsSpace,
      TRANSLATION, TRANSLATION_END, UNFINISHED;
    BetweenTags(line, TRANSLATION, TRANSLATION_END, i, l);
    EndsBound(line, l, TRANSLATION_END);
    PartThenEndFrom(line, i + 12, l, UNFINISHED);
  }

  lemma EndsBound(line: string, j: nat, part: string)
    requires Ends(line, j, part)
    ensures j <= |line|
  {
  }

  lemma UnfinishedHas(line: string) returns (i: nat, j: nat, k: nat, l: nat)
    requires IsWholeUnfinished(DropLastSpaces(DropSpaces(line)))
    ensures UnfinishedAt(line, i, j, k, l)
  {
    Literals();
    hide DropSpaces, DropLastSpaces, EndsWith, At, Starts, Ends, Contains, AfterFirst, IsSpace,
      TRANSLATION, TRANSLATION_END, UNFINISHED;
    i, l := TagsOfCore(line, TRANSLATION, TRANSLATION_END);
    EndsBound(line, l, TRANSLATION_END);
    PartThenEndFrom(line, i + 12, l, UNFINISHED);
    j, k :| i + 12 <= j && At(line, j, UNFINISHED) && j + 17 <= k < l && At(line, k, ">");
  }

  lemma WholeUnfinishedFits(line: string)
    ensures Fits(line, WholeUnfinished) <==> IsWholeUnfinished(DropLastSpaces(DropSpaces(line)))
  {
    Literals();
    hide DropSpaces, DropLastSpaces, At, Starts, Ends, IsWholeUnfinished, TRANSLATION, TRANSLATION_END, UNFINISHED, IsSpace;
    if Fits(line, WholeUnfinished) {
      var i: nat, j: nat, k: nat, l: nat :| UnfinishedAt(line, i, j, k, l);
      UnfinishedNeeds(line, i, j, k, l);
    }
    if IsWholeUnfinished(DropLastSpaces(DropSpaces(line))) {
      var i, j, k, l := UnfinishedHas(line);
    }
  }

  // ----- the kind of a line

  /** What is captured is determined. */
  lemma FitsOnce(line: string, kind: Kind, other: Kind)
    requires Fits(line, kind) && Fits(line, other) && Rank(kind) == Rank(other)
    ensures kind == other
  {
    hide Fits, DropSpaces, DropLastSpaces, Contains, EndsWith;
    match kind {
      case Message(numerus) =>
        MessageFits(line, numerus);
        MessageFits(line, other.numerus);
      case WholeSource(captured) =>
        WholeSourceFits(line, captured);
        WholeSourceFits(line, other.captured);
      case SourceStart(captured) =>
        SourceStartFits(line, captured);
        SourceStartFits(line, other.captured);
      case SourceEnd(captured) =>
        SourceEndFits(line, captured);
        SourceEndFits(line, other.captured);
      case WholeUnfinished =>
      case UnfinishedStart =>
      case TranslationEnd =>
      case Other =>
    }
  }

  /** Of the patterns before that of the kind computed, none fits. */
  lemma NoneBefore(line: string, other: Kind)
    ensures Rank(other) < Rank(Classify(line)) ==> !Fits(line, other)
  {
    hide Fits, DropSpaces, DropLastSpaces, Contains, EndsWith, IsWholeUnfinished;
    match other {
      case Message(numerus) => MessageFits(line, numerus);
      case WholeSource(captured) => WholeSourceFits(line, captured);
      case SourceStart(captured) => SourceStartFits(line, captured);
      case SourceEnd(captured) => SourceEndFits(line, captured);
      case WholeUnfinished => WholeUnfinishedFits(line);
      case UnfinishedStart => UnfinishedStartFits(line);
      case TranslationEnd => TranslationEndFits(line);
      case Other =>
    }
  }

  lemma ClassifiedFits(line: string)
    ensures Fits(line, Classify(line))
  {
    hide Fits, DropSpaces, DropLastSpaces, Contains, EndsWith, IsWholeUnfinished;
    match Classify(line) {
      case Message(numerus) => MessageFits(line, numerus);
      case WholeSource(captured) => WholeSourceFits(line, captured);
      case SourceStart(captured) => SourceStartFits(line, captured);
      case SourceEnd(captured) => SourceEndFits(line, captured);
      case WholeUnfinished => WholeUnfinishedFits(line);
      case UnfinishedStart => UnfinishedStartFits(line);
      case TranslationEnd => TranslationEndFits(line);
      case Other => OtherFits(line);
    }
  }

  lemma OtherFits(line: string)
    ensures Fits(line, Other)
  {
  }

  /** The kind of every line, with its numerus attribute or its captured text, is that of the first
      pattern that fits. */
  lemma ClassifiesByTheFirst(line: string, kind: Kind)
    ensures Classify(line) == kind <==> FirstFits(line, kind)
  {
    hide Fits, Classify, Rank;
    ClassifiedFits(line);
    forall other: Kind ensures Rank(other) < Rank(Classify(line)) ==> !Fits(line, other) {
      NoneBefore(line, other);
    }
    if FirstFits(line, kind) {
      assert Rank(Classify(line)) == Rank(kind);
      FitsOnce(line, kind, Classify(line));
    }
  }

  /** In particular: a message line, indented or not, is a numerus one if it has the attribute, ... */
  lemma ClassifyMessage(spaces: string, a: string, b: string)
    requires AllSpaces(spaces)
    ensures Classify(spaces + "<message" + a + "numerus=\"yes\"" + b) == Message(true)
  {
    var tag, attribute := "<message", "numerus=\"yes\"";
    var line := spaces + tag + a + attribute + b;
    assert line[|spaces|..|spaces| + |tag|] == tag && line[..|spaces|] == spaces;
    var i := |spaces| + |tag| + |a|;
    assert line[i..i + |attribute|] == attribute;
    assert Starts(line, |spaces|, tag) && At(line, i, attribute);
    ClassifiesByTheFirst(line, Message(true));
  }

  /** ... and a plain one if it has it nowhere. */
  lemma ClassifyPlainMessage(spaces: string, a: string)
    requires AllSpaces(spaces)
    requires forall i: nat :: !At(spaces + "<message" + a, i, "numerus=\"yes\"")
    ensures Classify(spaces + "<message" + a) == Message(false)
  {
    var tag := "<message";
    var line := spaces + tag + a;
    assert line[|spaces|..|spaces| + |tag|] == tag && line[..|spaces|] == spaces;
    assert Starts(line, |spaces|, tag);
    ClassifiesByTheFirst(line, Message(false));
  }
}
