/** Every well-formed translation file: what is written for each of its lines, told by looking back
    at the lines before it, and that files of messages are well-formed, so that the two descriptions of
    the output agree. */
module TsWellFormed {
  import opened Texts
  import opened TsDocument
  import opened TsFileMocker
  import opened TsFileOutput
  import opened TsLines
  import opened Wrappers

  // ----- looking back

  function Init(lines: seq<string>): seq<string>
    requires lines != []
  {
    lines[..|lines| - 1]
  }

  function Last(lines: seq<string>): string
    requires lines != []
  {
    lines[|lines| - 1]
  }

  /** Whether the last message that starts in these lines is a numerus one. */
  function NumerusOf(before: seq<string>): bool {
    if before == [] then false
    else match Classify(Last(before))
      case Message(numerus) => numerus
      case _ => NumerusOf(Init(before))
  }

  /** The text since the last start of a source, in these lines. */
  function OpenSource(before: seq<string>): string {
    if before == [] then ""
    else match Classify(Last(before))
      case SourceStart(captured) => captured
      case _ => OpenSource(Init(before)) + Last(before)
  }

  /** The text of the last source that ends in these lines, if that is after the last message start. */
  function SourceOf(before: seq<string>): string {
    if before == [] then ""
    else match Classify(Last(before))
      case Message(_) => ""
      case WholeSource(captured) => captured
      case SourceEnd(captured) => OpenSource(Init(before)) + captured
      case _ => SourceOf(Init(before))
  }

  /** Whether an unfinished translation that starts in these lines goes on after them. */
  predicate InUnfinished(before: seq<string>) {
    before != [] &&
    match Classify(Last(before))
    case UnfinishedStart => true
    case TranslationEnd => false
    case Message(_) => false
    case _ => InUnfinished(Init(before))
  }

  // ----- what is written for a line

  /** The first line of an unfinished translation is replaced by the mocked text of the source, the
      others of it are left out, and every other line is copied. */
  function LineOutput(before: seq<string>, line: string, mock: string -> string): string {
    if Classify(line).UnfinishedStart? || Classify(line).WholeUnfinished?
    then TranslationText(SourceOf(before), NumerusOf(before), mock)
    else if InUnfinished(before) then ""
    else Puts(line)
  }

  function LinesOutput(before: seq<string>, lines: seq<string>, mock: string -> string): string
    decreases |lines|
  {
    if lines == [] then ""
    else LineOutput(before, lines[0], mock) + LinesOutput(before + [lines[0]], lines[1..], mock)
  }

  /** The state of the mocker is what looking back tells. */
  ghost predicate Knows(m: Mocker, phase: Phase, before: seq<string>) {
    && m.inSource == phase.InSource? && m.inTranslation == phase.InTranslation? == InUnfinished(before)
    && m.numerusMessage == NumerusOf(before)
    && m.sourceString == if phase.InSource? then OpenSource(before) else SourceOf(before)
  }

  lemma LookBack(before: seq<string>, line: string)
    ensures var all := before + [line]; all != [] && Init(all) == before && Last(all) == line
  {
  }

  lemma KnowsNext(m: Mocker, phase: Phase, before: seq<string>, line: string, mock: string -> string)
    requires Knows(m, phase, before) && After(phase, Classify(line)).Some?
    ensures var r := ProcessLine(m, line, mock);
            r.Done? && Knows(r.mocker, After(phase, Classify(line)).value, before + [line])
  {
    LookBack(before, line);
    hide Classify, Translation, Init, Last;
  }

  lemma WritesTheLine(m: Mocker, phase: Phase, before: seq<string>, line: string, mock: string -> string)
    requires Knows(m, phase, before) && After(phase, Classify(line)).Some?
    requires ProcessLine(m, line, mock).Done?
    ensures Written(ProcessLine(m, line, mock).events) == LineOutput(before, line, mock)
  {
    WrittenThenEaten(m.sourceString, m.numerusMessage, mock, line);
    WrittenCopy(line);
    WrittenEat(line);
    hide Classify, Translation, TranslationText, Written, NumerusOf, SourceOf, OpenSource, InUnfinished, Puts;
  }

  lemma {:induction false} LinesAreDescribed(m: Mocker, phase: Phase, before: seq<string>, lines: seq<string>,
                                             mock: string -> string)
    requires Knows(m, phase, before) && WellFormed(phase, lines)
    ensures var r := ProcessLines(m, lines, mock);
            r.Done? && Written(r.events) == LinesOutput(before, lines, mock)
    decreases |lines|
  {
    if lines == [] {
    } else {
      var line, rest := lines[0], lines[1..];
      KnowsNext(m, phase, before, line, mock);
      WritesTheLine(m, phase, before, line, mock);
      var r1 := ProcessLine(m, line, mock);
      LinesAreDescribed(r1.mocker, After(phase, Classify(line)).value, before + [line], rest, mock);
      var r2 := ProcessLines(r1.mocker, rest, mock);
      WrittenConcat(r1.events, r2.events);
      hide ProcessLine, Written, LineOutput, Knows, WellFormed;
    }
  }

  /** Every well-formed file: the output is, line by line, what looking back at the file tells. */
  lemma OutputIsDescribed(file: string, mock: string -> string)
    requires WellFormed(Between, SplitLines(file))
    ensures var r := ProcessLines(START, SplitLines(file), mock);
            r.Done? && Written(r.events) == LinesOutput([], SplitLines(file), mock)
  {
    hide SplitLines, ProcessLines, Written, LinesOutput, WellFormed;
    LinesAreDescribed(START, Between, [], SplitLines(file), mock);
  }

  // ----- files of messages are well-formed

  function Final(phase: Phase, lines: seq<string>): Option<Phase>
    decreases |lines|
  {
    if lines == [] then Some(phase) else
      var next := After(phase, Classify(lines[0]));
      if next.None? then None else Final(next.value, lines[1..])
  }

  lemma {:induction false} FinalIsWellFormed(phase: Phase, lines: seq<string>)
    ensures WellFormed(phase, lines) <==> Final(phase, lines).Some?
    decreases |lines|
  {
    hide Classify, After;
    if lines != [] {
      var next := After(phase, Classify(lines[0]));
      if next.Some? {
        FinalIsWellFormed(next.value, lines[1..]);
      }
    }
  }

  /** The lines of text lead from one phase to the other. */
  ghost predicate Leads(phase: Phase, text: string, phase': Phase) {
    Final(phase, SplitLines(text)) == Some(phase')
  }

  lemma LeadsFirst(p: Phase, line: string, rest: string, q: Phase, r: Phase)
    requires FullLine(line) && After(p, Classify(line)) == Some(q)
    ensures Leads(q, rest, r) <==> Leads(p, line + rest, r)
  {
    hide Classify;
    SplitFirst(line, rest);
    assert ([line] + SplitLines(rest))[1..] == SplitLines(rest);
  }

  lemma LeadsLine(p: Phase, line: string, q: Phase)
    requires FullLine(line) && After(p, Classify(line)) == Some(q)
    ensures Leads(p, line, q) && Whole(line)
  {
    LeadsFirst(p, line, "", q, q);
    assert line + "" == line;
  }

  lemma LeadsHead(p: Phase, line: string, rest: string, r: Phase) returns (q: Phase)
    requires FullLine(line) && Leads(p, line + rest, r)
    ensures After(p, Classify(line)) == Some(q) && Leads(q, rest, r)
  {
    hide Classify, After;
    SplitFirst(line, rest);
    assert ([line] + SplitLines(rest))[1..] == SplitLines(rest);
    q := After(p, Classify(line)).value;
  }

  lemma {:induction false} LeadsTwo(p: Phase, a: string, q: Phase, b: string, r: Phase)
    requires Whole(a) && Leads(p, a, q) && Leads(q, b, r)
    ensures Leads(p, a + b, r)
    decreases |a|
  {
    if a == "" {
      assert a + b == b;
      hide SplitLines;
    } else {
      hide *;
      var line, rest := FirstLine(a);
      IsFullLine(line);
      var p' := LeadsHead(p, line, rest, q);
      LeadsTwo(p', rest, q, b, r);
      LeadsFirst(p, line, rest + b, p', r);
      Associative(line, rest, b);
    }
  }

  lemma IsFullLine(line: string)
    requires IsLine(line) && line[|line| - 1] == LF
    ensures FullLine(line)
  {
  }

  lemma {:induction false} LeadsNeutral(phase: Phase, text: string)
    requires Neutral(text)
    ensures Leads(phase, text, phase)
    decreases |text|
  {
    if text == "" {
    } else {
      var line, rest := FirstLine(text);
      SplitFirst(line, rest);
      assert line in SplitLines(text) && forall l :: l in SplitLines(rest) ==> l in SplitLines(text);
      assert Neutral(rest) && Classify(line).Other?;
      assert After(phase, Classify(line)) == Some(phase);
      hide *;
      IsFullLine(line);
      LeadsNeutral(phase, rest);
      LeadsFirst(phase, line, rest, phase, phase);
    }
  }

  lemma Allowed(line: string)
    ensures Classify(line).Other? ==> After(InSource, Classify(line)) == Some(InSource)
    ensures Classify(line).SourceStart? ==> After(BeforeSource, Classify(line)) == Some(InSource)
    ensures Classify(line).WholeSource? ==> After(BeforeSource, Classify(line)) == Some(AfterSource)
    ensures Classify(line).SourceEnd? ==> After(InSource, Classify(line)) == Some(AfterSource)
    ensures Classify(line).Message? ==> After(Between, Classify(line)) == Some(BeforeSource)
    ensures Classify(line).WholeUnfinished? ==> After(AfterSource, Classify(line)) == Some(Between)
    ensures Classify(line).UnfinishedStart? ==> After(AfterSource, Classify(line)) == Some(InTranslation)
    ensures Classify(line).TranslationEnd? ==>
              After(AfterSource, Classify(line)) == Some(Between) == After(InTranslation, Classify(line))
  {
    hide Classify;
  }

  /** The lines of a source after its first one. */
  lemma {:induction false} LeadsOut(text: string)
    requires NoTag(text)
    ensures Leads(InSource, text + (SOURCE_END + [LF]), AfterSource)
    decreases |text|
  {
    hide *;
    if LF in text {
      var first, rest := FirstBreak(text);
      var line := first + [LF];
      LineOf(first);
      IsFullLine(line);
      ClassifyNoTag(line);
      Allowed(line);
      LeadsOut(rest);
      LeadsFirst(InSource, line, rest + (SOURCE_END + [LF]), InSource, AfterSource);
      Associative(line, rest, SOURCE_END + [LF]);
    } else {
      var line := text + SOURCE_END + [LF];
      SourceEndIs();
      LineOf(text + SOURCE_END);
      IsFullLine(line);
      ClassifySourceEnd(text);
      Allowed(line);
      LeadsLine(InSource, line, AfterSource);
      Associative(text, SOURCE_END, [LF]);
    }
  }

  lemma LeadsSource(spaces: string, text: string)
    requires AllSpaces(spaces) && LF !in spaces && NoTag(text)
    ensures Leads(BeforeSource, SourceElement(spaces, text), AfterSource)
  {
    hide *;
    SourceEndIs();
    if LF in text {
      var first, rest := FirstBreak(text);
      var line := spaces + SOURCE + first + [LF];
      LineOf(spaces + SOURCE + first);
      IsFullLine(line);
      ClassifySourceStart(spaces, first);
      Allowed(line);
      LeadsOut(rest);
      LeadsFirst(BeforeSource, line, rest + (SOURCE_END + [LF]), InSource, AfterSource);
      ElementText(spaces, first, rest);
    } else {
      var line := spaces + SOURCE + text + SOURCE_END + [LF];
      LineOf(spaces + SOURCE + text + SOURCE_END);
      IsFullLine(line);
      ClassifyWholeSource(spaces, text);
      Allowed(line);
      LeadsLine(BeforeSource, line, AfterSource);
      ElementLine(spaces, text);
    }
  }

  lemma LeadsElement(e: Element)
    requires e.Valid()
    ensures Leads(AfterSource, e.Text(), Between) && Whole(e.Text())
  {
    ElementKinds(e);
    match e {
      case Unfinished(line) =>
        hide Classify, Leads, Whole, SplitLines;
        Allowed(line);
        LeadsLine(AfterSource, line, Between);
      case UnfinishedLines(first, inner, last) =>
        hide Classify, Leads, Whole, SplitLines, Neutral;
        Allowed(first);
        Allowed(last);
        LeadsLine(AfterSource, first, InTranslation);
        LeadsLine(InTranslation, last, Between);
        LeadsThree(AfterSource, first, InTranslation, inner, last, Between);
      case Finished(inner, last) =>
        hide Classify, Leads, Whole, SplitLines, Neutral;
        Allowed(last);
        LeadsLine(AfterSource, last, Between);
        LeadsGap(AfterSource, inner, last, Between);
    }
  }

  lemma LeadsGap(p: Phase, gap: string, rest: string, q: Phase)
    requires Neutral(gap) && Leads(p, rest, q) && Whole(rest)
    ensures Leads(p, gap + rest, q) && Whole(gap + rest)
  {
    hide *;
    NeutralIsWhole(gap);
    LeadsNeutral(p, gap);
    LeadsTwo(p, gap, p, rest, q);
    WholeConcat(gap, rest);
  }

  lemma LeadsThree(p: Phase, first: string, q: Phase, gap: string, last: string, r: Phase)
    requires Leads(p, first, q) && Whole(first) && Neutral(gap) && Leads(q, last, r) && Whole(last)
    ensures Leads(p, first + (gap + last), r) && Whole(first + (gap + last))
  {
    hide *;
    LeadsGap(q, gap, last, r);
    LeadsTwo(p, first, q, gap + last, r);
    WholeConcat(first, gap + last);
  }

  lemma LeadsMessage(msg: Message, mock: string -> string)
    requires msg.Valid()
    ensures Leads(Between, msg.Text(), Between) && Whole(msg.Text())
  {
    hide *;
    ValidParts(msg);
    MessageIs(msg, mock);
    HeadIs(msg.line, msg.gap1, msg.spaces, msg.source, msg.gap2);
    var source, element := SourceElement(msg.spaces, msg.source), msg.element.Text();
    LeadsNeutral(Between, msg.gap3);
    NeutralIsWhole(msg.gap3);
    LeadsElement(msg.element);
    LeadsTwo(AfterSource, element, Between, msg.gap3, Between);
    WholeConcat(element, msg.gap3);
    LeadsNeutral(AfterSource, msg.gap2);
    LeadsSource(msg.spaces, msg.source);
    WholeParts(msg.spaces, msg.source, msg.gap1, msg.gap2);
    LeadsTwo(BeforeSource, source, AfterSource, msg.gap2, AfterSource);
    WholeConcat(source, msg.gap2);
    IsFullLine(msg.line);
    Allowed(msg.line);
    LeadsLine(Between, msg.line, BeforeSource);
    LeadsGap(BeforeSource, msg.gap1, source + msg.gap2, AfterSource);
    LeadsTwo(Between, msg.line, BeforeSource, msg.gap1 + (source + msg.gap2), AfterSource);
    WholeConcat(msg.line, msg.gap1 + (source + msg.gap2));
    LeadsTwo(Between, msg.Head(), AfterSource, element + msg.gap3, Between);
    WholeConcat(msg.Head(), element + msg.gap3);
  }

  lemma {:induction false} LeadsMessages(messages: seq<Message>, mock: string -> string)
    requires forall i :: 0 <= i < |messages| ==> messages[i].Valid()
    ensures Leads(Between, AllTexts(messages), Between)
    decreases |messages|
  {
    if messages == [] {
    } else {
      LeadsMessage(messages[0], mock);
      LeadsMessages(messages[1..], mock);
      hide Leads, Whole, Message.Text, Message.Valid;
      LeadsTwo(Between, messages[0].Text(), Between, AllTexts(messages[1..]), Between);
    }
  }

  /** A file of messages is well-formed, so that its output, element by element, is also the one told
      line by line. */
  lemma MessagesAreWellFormed(start: string, messages: seq<Message>, mock: string -> string)
    requires Neutral(start) && forall i :: 0 <= i < |messages| ==> messages[i].Valid()
    ensures var lines := SplitLines(start + AllTexts(messages));
            && WellFormed(Between, lines)
            && LinesOutput([], lines, mock) == start + AllMocked(messages, mock)
  {
    var file := start + AllTexts(messages);
    NeutralIsWhole(start);
    LeadsNeutral(Between, start);
    LeadsMessages(messages, mock);
    LeadsTwo(Between, start, Between, AllTexts(messages), Between);
    FinalIsWellFormed(Between, SplitLines(file));
    OutputIsDescribed(file, mock);
    MocksTheFile(start, messages, mock);
    hide ProcessLines, SplitLines, Written, LinesOutput, WellFormed, Final, AllTexts, AllMocked, Neutral, Message.Valid;
  }
}
