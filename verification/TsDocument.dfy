/** Whole translation files: what the mocker makes of a file of messages, element by element, each
    message with its source and with an unfinished translation, on one line or on several, or a finished
    one. */
module TsDocument {
  import opened Texts
  import opened TsFileMocker
  import opened TsFileOutput
  import opened TsFixpoint
  import opened TsLines
  import opened TsPatterns

  /** The translation element of a message. */
  datatype Element =
    | Unfinished(line: string)                                 // on one line
    | UnfinishedLines(first: string, inner: string, last: string)
    | Finished(inner: string, last: string)                    // on one or more lines
  {
    ghost predicate Valid() {
      match this
      case Unfinished(line) => FullLine(line) && FirstFits(line, WholeUnfinished)
      case UnfinishedLines(first, inner, last) =>
        && FullLine(first) && FirstFits(first, UnfinishedStart)
        && Neutral(inner) && FullLine(last) && FirstFits(last, TranslationEnd)
      case Finished(inner, last) => Neutral(inner) && FullLine(last) && FirstFits(last, TranslationEnd)
    }

    function Text(): string {
      match this
      case Unfinished(line) => line
      case UnfinishedLines(first, inner, last) => first + (inner + last)
      case Finished(inner, last) => inner + last
    }
  }

  predicate FullLine(line: string) {
    IsLine(line) && line[|line| - 1] == LF
  }

  /** A message: whether it is a numerus one, its first line, which tells so, a source and a
      translation, and other lines around them. */
  datatype Message = Message(
    numerus: bool,
    line: string,
    gap1: string,
    spaces: string,
    source: string,
    gap2: string,
    element: Element,
    gap3: string)
  {
    ghost predicate Valid() {
      && FullLine(line) && FirstFits(line, Kind.Message(numerus))
      && Neutral(gap1) && Neutral(gap2) && Neutral(gap3)
      && AllSpaces(spaces) && LF !in spaces && NoTag(source)
      && element.Valid()
    }

    function Head(): string {
      MessageHead(line, gap1, spaces, source, gap2)
    }

    function Text(): string {
      Head() + (element.Text() + gap3)
    }

    /** The message with an unfinished translation replaced. */
    function Mocked(mock: string -> string): string {
      Head() + ((if element.Finished? then element.Text() else TranslationText(source, numerus, mock)) + gap3)
    }
  }

  function AllTexts(messages: seq<Message>): string {
    if messages == [] then "" else messages[0].Text() + AllTexts(messages[1..])
  }

  function AllMocked(messages: seq<Message>, mock: string -> string): string {
    if messages == [] then "" else messages[0].Mocked(mock) + AllMocked(messages[1..], mock)
  }

  /** The lines of an unfinished translation after its first one leave nothing in the output. */
  lemma {:induction false} EatsNeutral(m: Mocker, text: string, mock: string -> string)
    requires m.inTranslation && !m.inSource && Neutral(text)
    ensures Runs(m, text, mock, m, "")
    decreases |text|
  {
    if text == "" {
      RunsNothing(m, mock);
    } else {
      var line, rest := FirstLine(text);
      SplitFirst(line, rest);
      assert line in SplitLines(text) && forall l :: l in SplitLines(rest) ==> l in SplitLines(text);
      assert Neutral(rest) && Classify(line).Other?;
      hide *;
      EatsNeutral(m, rest, mock);
      EatsLineFirst(m, line, rest, mock, m, m);
    }
  }

  lemma FullLineIsWhole(line: string)
    requires FullLine(line)
    ensures Whole(line) && IsLine(line) && line[|line| - 1] == LF
  {
  }

  lemma NeutralIsWhole(text: string)
    requires Neutral(text)
    ensures Whole(text)
  {
  }

  /** What an element becomes, after a source and outside other translations. */
  lemma {:induction false} MocksElement(m: Mocker, e: Element, mock: string -> string)
    requires !m.inSource && !m.inTranslation && e.Valid()
    ensures Runs(m, e.Text(), mock, m,
                 if e.Finished? then e.Text() else TranslationText(m.sourceString, m.numerusMessage, mock))
    ensures Whole(e.Text())
  {
    ElementKinds(e);
    match e {
      case Unfinished(line) => MocksLine(m, line, mock);
      case UnfinishedLines(first, inner, last) => MocksLines(m, first, inner, last, mock);
      case Finished(inner, last) => CopiesFinished(m, inner, last, mock);
    }
  }

  /** The kinds of the lines of an element. */
  lemma ElementKinds(e: Element)
    requires e.Valid()
    ensures match e
            case Unfinished(line) => Classify(line).WholeUnfinished?
            case UnfinishedLines(first, _, last) => Classify(first).UnfinishedStart? && Classify(last).TranslationEnd?
            case Finished(_, last) => Classify(last).TranslationEnd?
  {
    hide Classify, FirstFits, Neutral, FullLine;
    match e {
      case Unfinished(line) =>
        ClassifiesByTheFirst(line, WholeUnfinished);
      case UnfinishedLines(first, inner, last) =>
        ClassifiesByTheFirst(first, UnfinishedStart);
        ClassifiesByTheFirst(last, TranslationEnd);
      case Finished(inner, last) =>
        ClassifiesByTheFirst(last, TranslationEnd);
    }
  }

  lemma {:induction false} MocksLine(m: Mocker, line: string, mock: string -> string)
    requires !m.inSource && !m.inTranslation && FullLine(line) && Classify(line).WholeUnfinished?
    ensures Runs(m, line, mock, m, TranslationText(m.sourceString, m.numerusMessage, mock)) && Whole(line)
  {
    hide *;
    FullLineIsWhole(line);
    var out := TranslationText(m.sourceString, m.numerusMessage, mock);
    StartsTranslation(m, line, mock);
    RunsNothing(m, mock);
    RunsLine(m, line, "", mock, m, m, "");
    assert line + "" == line && out + "" == out;
  }

  lemma {:induction false} MocksLines(m: Mocker, first: string, inner: string, last: string, mock: string -> string)
    requires !m.inSource && !m.inTranslation
    requires FullLine(first) && Classify(first).UnfinishedStart?
    requires Neutral(inner) && FullLine(last) && Classify(last).TranslationEnd?
    ensures Runs(m, first + (inner + last), mock, m, TranslationText(m.sourceString, m.numerusMessage, mock))
    ensures Whole(first + (inner + last))
  {
    hide *;
    FullLineIsWhole(first);
    FullLineIsWhole(last);
    NeutralIsWhole(inner);
    WholeConcat(inner, last);
    WholeConcat(first, inner + last);
    var open := m.(inTranslation := true);
    var out := TranslationText(m.sourceString, m.numerusMessage, mock);
    RunsNothing(m, mock);
    EatsLineFirst(open, last, "", mock, m, m);
    assert last + "" == last && "" + "" == "" && out + "" == out;
    EatsNeutral(open, inner, mock);
    RunsTwo(open, inner, last, mock, open, m, "", "");
    StartsTranslation(m, first, mock);
    RunsLine(m, first, inner + last, mock, open, m, "");
  }

  lemma CopiesEnd(m: Mocker, line: string, mock: string -> string)
    requires !m.inSource && !m.inTranslation && Classify(line).TranslationEnd?
    ensures ProcessLine(m, line, mock) == Done(m, [Copy(line)])
  {
  }

  lemma CopiesFinished(m: Mocker, inner: string, last: string, mock: string -> string)
    requires !m.inSource && !m.inTranslation
    requires Neutral(inner) && FullLine(last) && Classify(last).TranslationEnd?
    ensures Runs(m, inner + last, mock, m, inner + last) && Whole(inner + last)
  {
    hide *;
    FullLineIsWhole(last);
    NeutralIsWhole(inner);
    WholeConcat(inner, last);
    CopiesNeutral(m, inner, mock);
    CopiesEnd(m, last, mock);
    RunsNothing(m, mock);
    CopiesLine(m, last, "", mock, m, m, "");
    assert last + "" == last;
    RunsTwo(m, inner, last, mock, m, m, inner, last);
  }

  lemma ValidParts(msg: Message)
    requires msg.Valid()
    ensures IsLine(msg.line) && msg.line[|msg.line| - 1] == LF && Classify(msg.line).Message?
    ensures Neutral(msg.gap1) && Neutral(msg.gap2) && Neutral(msg.gap3)
    ensures AllSpaces(msg.spaces) && LF !in msg.spaces && NoTag(msg.source) && msg.element.Valid()
    ensures Classify(msg.line).numerus == msg.numerus
  {
    ClassifiesByTheFirst(msg.line, Kind.Message(msg.numerus));
    hide Classify, FirstFits, Neutral, Element.Valid;
  }

  /** A message, whatever came before. */
  lemma MocksMessage(m: Mocker, msg: Message, mock: string -> string) returns (m': Mocker)
    requires msg.Valid()
    ensures Runs(m, msg.Text(), mock, m', msg.Mocked(mock)) && Whole(msg.Text())
    ensures !m'.inSource && !m'.inTranslation
  {
    hide *;
    ValidParts(msg);
    m' := Mocker(msg.source, false, false, msg.numerus);
    var element, gap := msg.element.Text(), msg.gap3;
    var out := if msg.element.Finished? then element else TranslationText(msg.source, msg.numerus, mock);
    CopiesHead(m, msg.line, msg.gap1, msg.spaces, msg.source, msg.gap2, mock);
    MocksElement(m', msg.element, mock);
    CopiesNeutral(m', gap, mock);
    RunsTwo(m', element, gap, mock, m', m', out, gap);
    MessageIs(msg, mock);
    RunsTwo(m, msg.Head(), element + gap, mock, m', m', msg.Head(), out + gap);
    NeutralIsWhole(gap);
    WholeConcat(element, gap);
    WholeConcat(msg.Head(), element + gap);
  }

  lemma MessageIs(msg: Message, mock: string -> string)
    ensures msg.Head() == MessageHead(msg.line, msg.gap1, msg.spaces, msg.source, msg.gap2)
    ensures msg.Text() == msg.Head() + (msg.element.Text() + msg.gap3)
    ensures msg.Mocked(mock) ==
            var out := if msg.element.Finished? then msg.element.Text()
                       else TranslationText(msg.source, msg.numerus, mock);
            msg.Head() + (out + msg.gap3)
  {
    hide MessageHead, TranslationText;
  }

  lemma {:induction false} MocksMessages(m: Mocker, messages: seq<Message>, mock: string -> string)
    returns (m': Mocker)
    requires forall i :: 0 <= i < |messages| ==> messages[i].Valid()
    ensures Runs(m, AllTexts(messages), mock, m', AllMocked(messages, mock))
    decreases |messages|
  {
    if messages == [] {
      m' := m;
      RunsNothing(m, mock);
    } else {
      var m1 := MocksMessage(m, messages[0], mock);
      m' := MocksMessages(m1, messages[1..], mock);
      hide Runs, Whole, Message.Text, Message.Mocked;
      RunsTwo(m, messages[0].Text(), AllTexts(messages[1..]), mock, m1, m',
              messages[0].Mocked(mock), AllMocked(messages[1..], mock));
    }
  }

  /** The whole file: the output is the file with every unfinished translation, on one line or on
      several, replaced by the mocked text of the source of its message, and nothing else changed. */
  lemma MocksTheFile(start: string, messages: seq<Message>, mock: string -> string)
    requires Neutral(start) && forall i :: 0 <= i < |messages| ==> messages[i].Valid()
    ensures var r := ProcessLines(START, SplitLines(start + AllTexts(messages)), mock);
            r.Done? && Written(r.events) == start + AllMocked(messages, mock)
  {
    var m' := MocksMessages(START, messages, mock);
    CopiesNeutral(START, start, mock);
    NeutralIsWhole(start);
    RunsTwo(START, start, AllTexts(messages), mock, START, m', start, AllMocked(messages, mock));
    hide ProcessLines, SplitLines, Written, AllTexts, AllMocked, Neutral, Message.Valid;
  }
}
