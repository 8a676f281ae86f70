/** The lines of a translation file, as the patterns of the mocker see them. */
module TsLines {
  import opened Texts

  /** A line of a file: the line break, if any, is its last character. */
  predicate IsLine(s: string) {
    s != "" && LF !in s[..|s| - 1]
  }

  predicate EndsWith(s: string, end: string) {
    |end| <= |s| && s[|s| - |end|..] == end
  }

  /** The text after the first occurrence of part; the empty text if there is none. */
  function AfterFirst(s: string, part: string): string {
    if part <= s then s[|part|..] else if s == "" then "" else AfterFirst(s[1..], part)
  }

  datatype Kind =
    | Message(numerus: bool)
    | WholeSource(captured: string)
    | SourceStart(captured: string)
    | SourceEnd(captured: string)
    | WholeUnfinished
    | UnfinishedStart
    | TranslationEnd
    | Other

  const MESSAGE := "<message"
  const NUMERUS := "numerus=\"yes\""
  const SOURCE := "<source>"
  const SOURCE_END := "</source>"
  const TRANSLATION := "<translation"
  const UNFINISHED := "type=\"unfinished\""
  const TRANSLATION_END := "</translation>"

  /** The first pattern that matches. The patterns of translations are tried only outside sources;
      since a line inside a source is treated alike whatever they say, the kind does not depend on
      that. */
  function Classify(line: string): Kind {
    var open := DropSpaces(line);    // without the leading white space, \s*
    var close := DropLastSpaces(line);  // without the trailing white space, \s*$
    var core := DropLastSpaces(open);
    if MESSAGE <= open then Message(Contains(line, NUMERUS))
    else if SOURCE <= core && EndsWith(core, SOURCE_END) && |SOURCE| + |SOURCE_END| <= |core|
    then WholeSource(core[|SOURCE|..|core| - |SOURCE_END|])
    else if SOURCE <= open then SourceStart(open[|SOURCE|..])
    else if EndsWith(close, SOURCE_END) then SourceEnd(close[..|close| - |SOURCE_END|])
    else if IsWholeUnfinished(core) then WholeUnfinished
    else if TRANSLATION <= open && Contains(open[|TRANSLATION|..], UNFINISHED) then UnfinishedStart
    else if EndsWith(close, TRANSLATION_END) then TranslationEnd
    else Other
  }

  /** The pattern <translation.*type="unfinished".*>.*</translation>. */
  predicate IsWholeUnfinished(core: string) {
    && TRANSLATION <= core && EndsWith(core, TRANSLATION_END) && |TRANSLATION| + |TRANSLATION_END| <= |core|
    && var middle := core[|TRANSLATION|..|core| - |TRANSLATION_END|];
       Contains(middle, UNFINISHED) && '>' in AfterFirst(middle, UNFINISHED)
  }

  // ----- lines of a text

  /** The lines of a text, each with its line break. */
  function SplitLines(text: string): (lines: seq<string>)
    ensures forall line :: line in lines ==> IsLine(line)
    decreases |text|
  {
    if text == "" then [] else
      var n := LineLength(text);
      [text[..n]] + SplitLines(text[n..])
  }

  function Concat(lines: seq<string>): string {
    if lines == [] then "" else lines[0] + Concat(lines[1..])
  }

  /** Each but the last one ends with its line break. */
  predicate Broken(lines: seq<string>) {
    forall i :: 0 <= i < |lines| - 1 ==> lines[i] != "" && lines[i][|lines[i]| - 1] == '\n'
  }

  /** The lines make up the text, each has its line break at the end, if any, and only the last one may
      have none. */
  lemma {:induction false} SplitsIntoLines(text: string)
    ensures Concat(SplitLines(text)) == text && Broken(SplitLines(text))
    ensures forall line :: line in SplitLines(text) ==> line != "" && '\n' !in line[..|line| - 1]
    decreases |text|
  {
    AllAreLines(SplitLines(text));
    hide SplitLines, IsLine;
    if text == "" {
      SplitNothing();
    } else {
      var first, rest := SplitStep(text);
      SplitsIntoLines(rest);
      OneMoreLine(first, SplitLines(rest));
    }
  }

  lemma AllAreLines(lines: seq<string>)
    requires forall line :: line in lines ==> IsLine(line)
    ensures forall line :: line in lines ==> line != "" && '\n' !in line[..|line| - 1]
  {
  }

  lemma SplitNothing()
    ensures SplitLines("") == []
  {
  }

  lemma SplitStep(text: string) returns (first: string, rest: string)
    requires text != ""
    ensures text == first + rest && SplitLines(text) == [first] + SplitLines(rest) && |rest| < |text|
    ensures first != "" && (SplitLines(rest) != [] ==> first[|first| - 1] == '\n')
  {
    var n := LineLength(text);
    first, rest := text[..n], text[n..];
  }

  lemma OneMoreLine(first: string, rest: seq<string>)
    requires Broken(rest) && first != "" && (rest != [] ==> first[|first| - 1] == '\n')
    ensures Broken([first] + rest) && Concat([first] + rest) == first + Concat(rest)
  {
    var lines := [first] + rest;
    assert lines[1..] == rest;
    forall i | 0 <= i < |lines| - 1
      ensures lines[i] != "" && lines[i][|lines[i]| - 1] == '\n'
    {
      if i > 0 {
        assert lines[i] == rest[i - 1];
      }
    }
  }

  function LineLength(text: string): (n: nat)
    requires text != ""
    ensures 0 < n <= |text| && IsLine(text[..n]) && (n < |text| ==> text[n - 1] == LF)
  {
    if text[0] == LF || |text| == 1 then 1 else
      var n := LineLength(text[1..]);
      assert text[..n + 1] == [text[0]] + text[1..][..n];
      n + 1
  }

  lemma {:induction false} LineLengthOf(line: string, rest: string)
    requires IsLine(line) && (rest == "" || line[|line| - 1] == LF)
    ensures LineLength(line + rest) == |line|
    decreases |line|
  {
    if |line| > 1 {
      assert line[0] == line[..|line| - 1][0];
      assert forall i :: 0 <= i < |line| - 2 ==> line[1..][i] == line[..|line| - 1][i + 1];
      assert (line + rest)[1..] == line[1..] + rest;
      LineLengthOf(line[1..], rest);
    }
  }

  lemma {:induction false} SplitFirst(line: string, rest: string)
    requires IsLine(line) && (rest == "" || line[|line| - 1] == LF)
    ensures SplitLines(line + rest) == [line] + SplitLines(rest)
  {
    LineLengthOf(line, rest);
    assert (line + rest)[..|line|] == line && (line + rest)[|line|..] == rest;
  }

  // ----- the kinds of the lines that the mocker writes

  /** Texts without tags, such as what is captured from a mocked string. */
  predicate NoTag(s: string) {
    '<' !in s
  }

  lemma EndsDiffer(s: string, end: string)
    requires |s| >= 2 && |end| >= 2 && s[|s| - 2] != end[|end| - 2]
    ensures !EndsWith(s, end)
  {
  }

  /** No closing tag at the end, because there is no closing tag at all. */
  lemma NoClosingTag(s: string, end: string)
    requires |end| >= 2 && end[0] == '<' && end[1] == '/'
    requires forall i :: 0 <= i < |s| - 1 && s[i] == '<' ==> s[i + 1] != '/'
    ensures !EndsWith(s, end)
  {
  }

  /** What a line opens with, if only text precedes its first tag. */
  lemma {:induction false} OpeningOf(text: string, rest: string)
    requires |rest| >= 2 && rest[0] == '<'
    requires NoTag(text)
    ensures var open := DropSpaces(text + rest);
            |open| >= 2 && (open[0] == '<' ==> open[1] == rest[1])
    decreases |text|
  {
    if text == "" {
      assert text + rest == rest;
    } else {
      assert (text + rest)[1..] == text[1..] + rest;
      OpeningOf(text[1..], rest);
      assert (text + rest)[0] in text;
    }
  }

  /** A line that does not open with one of the known tags. */
  lemma {:induction false} ClassifyByClosing(line: string)
    requires var open := DropSpaces(line);
             |open| >= 2 ==> open[0] == '<' ==> open[1] != 'm' && open[1] != 's' && open[1] != 't'
    ensures var close := DropLastSpaces(line);
            && (EndsWith(close, SOURCE_END) ==> Classify(line).SourceEnd?)
            && (!EndsWith(close, SOURCE_END) ==>
                  Classify(line) == if EndsWith(close, TRANSLATION_END) then TranslationEnd else Other)
  {
    hide DropSpaces, DropLastSpaces, EndsWith, Contains;
    var open := DropSpaces(line);
    DropLastSpacesHead(open);
    assert MESSAGE[0] == SOURCE[0] == TRANSLATION[0] == '<';
    assert MESSAGE[1] == 'm' && SOURCE[1] == 's' && TRANSLATION[1] == 't';
  }

  /** A line inside a text that has no tags. */
  lemma ClassifyNoTag(line: string)
    requires NoTag(line)
    ensures Classify(line) == Other
  {
    DropSpacesHead(line);
    DropLastSpacesHead(line);
    NoClosingTag(DropLastSpaces(line), SOURCE_END);
    NoClosingTag(DropLastSpaces(line), TRANSLATION_END);
    ClassifyByClosing(line);
  }

  /** A line that closes a tag left open, after nothing but text. */
  lemma ClassifyClosing(text: string, tag: string)
    requires NoTag(text) && |tag| >= 2 && tag[0] == '<' && tag[1] == '/'
    requires tag[|tag| - 1] == '>' && tag[|tag| - 2] != 'e'
    ensures Classify(text + tag + [LF]) ==
            if EndsWith(text + tag, TRANSLATION_END) then TranslationEnd else Other
  {
    var line := text + tag + [LF];
    DropLastSpacesOf(text + tag, [LF]);
    OpeningOf(text, tag + [LF]);
    assert line == text + (tag + [LF]);
    EndsDiffer(text + tag, SOURCE_END);
    hide EndsWith, DropSpaces, DropLastSpaces;
    ClassifyByClosing(line);
  }

  const HEAD := TRANSLATION + " " + UNFINISHED + ">"

  lemma Indented(spaces: string, tag: string, text: string, rest: string)
    requires AllSpaces(spaces) && |tag| >= 2 && tag[0] == '<'
    ensures DropSpaces(spaces + tag + text + rest) == tag + text + rest
  {
    assert spaces + tag + text + rest == spaces + (tag + text + rest);
    DropSpacesOf(spaces, tag + text + rest);
  }

  /** The only opening tag of a line is no closing tag. */
  lemma OneTag(spaces: string, tag: string, text: string, rest: string)
    requires AllSpaces(spaces) && NoTag(text) && NoTag(rest)
    requires |tag| >= 2 && tag[1] != '/' && NoTag(tag[1..])
    ensures var close := DropLastSpaces(spaces + tag + text + rest);
            !EndsWith(close, SOURCE_END) && !EndsWith(close, TRANSLATION_END)
  {
    var line := spaces + tag + text + rest;
    var close := DropLastSpaces(line);
    DropLastSpacesHead(line);
    forall i | 0 <= i < |line|
      ensures line[i] == '<' ==> i == |spaces|
    {
      if i < |spaces| {
        assert IsSpace(line[i]);
      } else if |spaces| < i < |spaces| + |tag| {
        assert line[i] == tag[1..][i - |spaces| - 1];
      } else if i != |spaces| {
        assert line[i] == (text + rest)[i - |spaces| - |tag|];
      }
    }
    assert line[|spaces| + 1] == tag[1];
    NoClosingTag(close, SOURCE_END);
    NoClosingTag(close, TRANSLATION_END);
  }

  lemma HeadChars()
    ensures |HEAD| == 31 && HEAD[0] == '<' && HEAD[1] == 't' && NoTag(HEAD[1..])
    ensures HEAD[|TRANSLATION|..] == " " + UNFINISHED + ">"
  {
    assert NoTag(TRANSLATION[1..]) && NoTag(UNFINISHED);
    assert HEAD[1..] == TRANSLATION[1..] + " " + UNFINISHED + ">";
  }

  lemma FindUnfinished(rest: string)
    ensures Contains(" " + UNFINISHED + rest, UNFINISHED)
    ensures AfterFirst(" " + UNFINISHED + rest, UNFINISHED) == rest
  {
    var s := " " + UNFINISHED + rest;
    assert s[1..] == UNFINISHED + rest;
    assert UNFINISHED[0] == 't' && s[0] == ' ';
    assert (UNFINISHED + rest)[|UNFINISHED|..] == rest;
    assert UNFINISHED <= s[1..];
  }

  /** The first line of an unfinished translation that goes on. */
  lemma {:induction false} ClassifyHead(spaces: string, text: string)
    requires AllSpaces(spaces) && NoTag(text)
    ensures Classify(spaces + HEAD + text + [LF]) == UnfinishedStart
  {
    HeadChars();
    var line := spaces + HEAD + text + [LF];
    var open := HEAD + text + [LF];
    var core := DropLastSpaces(open);
    Indented(spaces, HEAD, text, [LF]);
    OneTag(spaces, HEAD, text, [LF]);
    DropLastSpacesHead(open);
    OneTag("", HEAD, text, [LF]);
    assert "" + HEAD + text + [LF] == open;
    assert open[|TRANSLATION|..] == " " + UNFINISHED + (">" + text + [LF]);
    FindUnfinished(">" + text + [LF]);
    assert TRANSLATION <= HEAD <= open;
    assert MESSAGE[1] == 'm' && SOURCE[1] == 's' && open[1] == 't';
  }

  lemma WholeUnfinishedIs(text: string)
    ensures IsWholeUnfinished(HEAD + text + TRANSLATION_END)
  {
    HeadChars();
    var core := HEAD + text + TRANSLATION_END;
    var middle := core[|TRANSLATION|..|core| - |TRANSLATION_END|];
    assert middle == " " + UNFINISHED + (">" + text);
    FindUnfinished(">" + text);
    assert TRANSLATION <= HEAD <= core;
    assert (">" + text)[0] == '>';
  }

  /** An unfinished translation on one line. */
  lemma ClassifyWhole(spaces: string, text: string)
    requires AllSpaces(spaces)
    ensures Classify(spaces + HEAD + text + (TRANSLATION_END + [LF])) == WholeUnfinished
  {
    HeadChars();
    var line := spaces + HEAD + text + (TRANSLATION_END + [LF]);
    var core := HEAD + text + TRANSLATION_END;
    Indented(spaces, HEAD, text, TRANSLATION_END + [LF]);
    WholeUnfinishedIs(text);
    assert core[1] == 't' && core[|core| - 2] == 'n' && core[|core| - 1] == '>';
    assert HEAD + text + (TRANSLATION_END + [LF]) == core + [LF] && line == (spaces + core) + [LF];
    hide HEAD, TRANSLATION, TRANSLATION_END, UNFINISHED;
    ClassifyWholeCore(spaces, core);
  }

  lemma {:induction false} ClassifyWholeCore(spaces: string, core: string)
    requires AllSpaces(spaces) && |core| >= 2 && core[1] == 't' && core[|core| - 2] == 'n' && core[|core| - 1] == '>'
    requires DropSpaces((spaces + core) + [LF]) == core + [LF] && IsWholeUnfinished(core)
    ensures Classify((spaces + core) + [LF]) == WholeUnfinished
  {
    hide EndsWith, DropSpaces, DropLastSpaces, IsWholeUnfinished, Contains;
    DropLastSpacesOf(core, [LF]);
    DropLastSpacesOf(spaces + core, [LF]);
    EndsDiffer(spaces + core, SOURCE_END);
    assert MESSAGE[1] == 'm' && SOURCE[1] == 's';
  }

  /** The last line of a source that goes on. */
  lemma ClassifySourceEnd(text: string)
    requires NoTag(text)
    ensures Classify(text + SOURCE_END + [LF]) == SourceEnd(text)
  {
    hide Classify, DropSpaces, DropLastSpaces;
    var line := text + SOURCE_END + [LF];
    DropLastSpacesOf(text + SOURCE_END, [LF]);
    OpeningOf(text, SOURCE_END + [LF]);
    Associative(text, SOURCE_END, [LF]);
    assert (text + SOURCE_END)[|text|..] == SOURCE_END;
    assert SOURCE_END[1] == '/';
    SourceEndCaptures(line, text);
  }

  lemma {:induction false} SourceEndCaptures(line: string, text: string)
    requires DropLastSpaces(line) == text + SOURCE_END && EndsWith(text + SOURCE_END, SOURCE_END)
    requires var open := DropSpaces(line);
             |open| >= 2 ==> open[0] == '<' ==> open[1] != 'm' && open[1] != 's' && open[1] != 't'
    ensures Classify(line) == SourceEnd(text)
  {
    ClassifyByClosing(line);
    assert (text + SOURCE_END)[..|text|] == text;
    hide EndsWith, DropSpaces, DropLastSpaces;
  }

  /** The first line of a source that goes on. */
  lemma ClassifySourceStart(spaces: string, text: string)
    requires AllSpaces(spaces) && NoTag(text)
    ensures Classify(spaces + SOURCE + text + [LF]) == SourceStart(text + [LF])
  {
    var line := spaces + SOURCE + text + [LF];
    var open := SOURCE + text + [LF];
    Indented(spaces, SOURCE, text, [LF]);
    OneTag("", SOURCE, text, [LF]);
    assert "" + SOURCE + text + [LF] == open;
    assert open == SOURCE + (text + [LF]) && open[|SOURCE|..] == text + [LF];
    hide EndsWith, DropSpaces, DropLastSpaces, Contains;
  }

  /** A source on one line. */
  lemma ClassifyWholeSource(spaces: string, text: string)
    requires AllSpaces(spaces)
    ensures Classify(spaces + SOURCE + text + SOURCE_END + [LF]) == WholeSource(text)
  {
    var line := spaces + SOURCE + text + SOURCE_END + [LF];
    var core := SOURCE + text + SOURCE_END;
    Indented(spaces, SOURCE, text, SOURCE_END + [LF]);
    assert line == spaces + SOURCE + text + (SOURCE_END + [LF]);
    assert SOURCE + text + (SOURCE_END + [LF]) == core + [LF];
    DropLastSpacesOf(core, [LF]);
    assert core[|core| - |SOURCE_END|..] == SOURCE_END && core[|SOURCE|..|core| - |SOURCE_END|] == text;
    assert EndsWith(core, SOURCE_END) && SOURCE <= core;
    assert core[1] == 's' && (core + [LF])[1] == 's';
    hide EndsWith, DropSpaces, DropLastSpaces, Contains;
  }

  /** A line that opens some other tag. */
  lemma ClassifyOtherTag(spaces: string, tag: string, text: string)
    requires AllSpaces(spaces) && NoTag(text)
    requires |tag| >= 2 && tag[0] == '<' && NoTag(tag[1..])
    requires tag[1] != '/' && tag[1] != 'm' && tag[1] != 's' && tag[1] != 't'
    ensures Classify(spaces + tag + text + [LF]) == Other
  {
    Indented(spaces, tag, text, [LF]);
    OneTag(spaces, tag, text, [LF]);
    ClassifyByClosing(spaces + tag + text + [LF]);
  }

  /** ... and closes it. */
  lemma ClassifyOtherElement(spaces: string, tag: string, text: string, end: string)
    requires AllSpaces(spaces)
    requires |tag| >= 2 && tag[0] == '<' && tag[1] != 'm' && tag[1] != 's' && tag[1] != 't'
    requires |end| >= 2 && end[|end| - 1] == '>' && end[|end| - 2] != 'e' && end[|end| - 2] != 'n'
    ensures Classify(spaces + tag + text + (end + [LF])) == Other
  {
    var line := spaces + tag + text + (end + [LF]);
    var close := spaces + tag + text + end;
    assert line == close + [LF];
    Indented(spaces, tag, text, end + [LF]);
    DropLastSpacesOf(close, [LF]);
    assert close[|close| - 2] == end[|end| - 2];
    EndsDiffer(close, SOURCE_END);
    EndsDiffer(close, TRANSLATION_END);
    hide EndsWith, DropSpaces, DropLastSpaces;
    ClassifyByClosing(line);
  }

  // ----- the line break at the end

  predicate SameConstructor(a: Kind, b: Kind) {
    && a.Message? == b.Message? && a.WholeSource? == b.WholeSource? && a.SourceStart? == b.SourceStart?
    && a.SourceEnd? == b.SourceEnd? && a.WholeUnfinished? == b.WholeUnfinished?
    && a.UnfinishedStart? == b.UnfinishedStart? && a.TranslationEnd? == b.TranslationEnd?
  }

  lemma NoBreaks()
    ensures LF !in MESSAGE && LF !in SOURCE && LF !in TRANSLATION && LF !in UNFINISHED
    ensures MESSAGE != "" && SOURCE != "" && TRANSLATION != "" && UNFINISHED != ""
    ensures DropLastSpaces("") == ""
  {
  }

  /** A line break at the end does not change the kind of a line. */
  lemma SameKind(line: string)
    ensures SameConstructor(Classify(line), Classify(line + [LF]))
  {
    hide DropSpaces, DropLastSpaces, EndsWith, Contains, IsWholeUnfinished;
    var open := DropSpaces(line);
    DropSpacesBreak(line);
    DropLastSpacesBreak(line);
    DropLastSpacesBreak(open);
    NoBreaks();
    hide MESSAGE, SOURCE, SOURCE_END, TRANSLATION, TRANSLATION_END, UNFINISHED, NUMERUS;
    PrefixBreak(open, MESSAGE);
    PrefixBreak(open, SOURCE);
    PrefixBreak(open, TRANSLATION);
    if TRANSLATION <= open {
      ContainsBreak(open[|TRANSLATION|..], UNFINISHED);
      assert (open + [LF])[|TRANSLATION|..] == open[|TRANSLATION|..] + [LF];
    }
  }
}
