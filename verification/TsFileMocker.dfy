/** The mocker of a translation file: line by line, it replaces unfinished translations by mocked
    copies of the source texts. */
module TsFileMocker {
  import opened Texts
  import opened TsLines
  import opened Wrappers

  /** The state between two lines. */
  datatype Mocker = Mocker(sourceString: string, inSource: bool, inTranslation: bool, numerusMessage: bool)

  const START := Mocker("", false, false, false)

  datatype Event = Output(text: string) | Copy(line: string) | Eat(line: string)

  datatype Outcome = Done(mocker: Mocker, events: seq<Event>) | Raised

  /** The string mocker: any function of the text whose results have no tags. */
  ghost predicate TagFree(mock: string -> string) {
    forall s: string :: NoTag(mock(s))
  }

  const PLURAL := "(s)"

  /** String#gsub with the literal (s). */
  function Substituted(s: string, replacement: string): string {
    if s == "" then ""
    else if PLURAL <= s then replacement + Substituted(s[|PLURAL|..], replacement)
    else [s[0]] + Substituted(s[1..], replacement)
  }

  /** Every occurrence is replaced, wherever it is ... */
  lemma SubstitutesEach(a: string, b: string, replacement: string)
    ensures Substituted(a + "(s)" + b, replacement) ==
            Substituted(a, replacement) + replacement + Substituted(b, replacement)
  {
    assert PLURAL == "(s)";
    hide *;
    SubstitutesPlural(a, b, replacement);
  }

  lemma {:induction false} SubstitutesPlural(a: string, b: string, replacement: string)
    ensures Substituted(a + PLURAL + b, replacement) ==
            Substituted(a, replacement) + replacement + Substituted(b, replacement)
    decreases |a|
  {
    hide *;
    if a == "" {
      SubstitutesFirst(b, replacement);
      SubstitutesNothing(replacement);
      assert "" + PLURAL == PLURAL && "" + replacement == replacement;
    } else if PLURAL <= a {
      var rest := a[|PLURAL|..];
      assert a == PLURAL + rest;
      PluralIsLong();
      SubstitutesPlural(rest, b, replacement);
      SubstitutesFirst(rest, replacement);
      SubstitutesFirst(rest + PLURAL + b, replacement);
      Front(PLURAL, rest, PLURAL, b);
      Front(replacement, Substituted(rest, replacement), replacement, Substituted(b, replacement));
    } else {
      SubstitutesPlural(a[1..], b, replacement);
      NoEarlierMatch(a, b);
      SubstitutesLater(a, replacement);
      SubstitutesLater(a + PLURAL + b, replacement);
      assert (a + PLURAL + b)[1..] == a[1..] + PLURAL + b;
      Front([a[0]], Substituted(a[1..], replacement), replacement, Substituted(b, replacement));
    }
  }

  lemma Front(a: string, b: string, c: string, d: string)
    ensures (a + b) + c + d == a + (b + c + d)
  {
  }

  lemma PluralIsLong()
    ensures |PLURAL| == 3
  {
  }

  lemma SubstitutesNothing(replacement: string)
    ensures Substituted("", replacement) == ""
  {
  }

  lemma SubstitutesFirst(s: string, replacement: string)
    ensures Substituted(PLURAL + s, replacement) == replacement + Substituted(s, replacement)
  {
    assert PLURAL <= PLURAL + s && (PLURAL + s)[|PLURAL|..] == s;
  }

  lemma SubstitutesLater(s: string, replacement: string)
    requires s != "" && !(PLURAL <= s)
    ensures Substituted(s, replacement) == [s[0]] + Substituted(s[1..], replacement)
  {
  }

  /** The searched text does not overlap itself. */
  lemma NoEarlierMatch(a: string, b: string)
    requires a != "" && !(PLURAL <= a)
    ensures !(PLURAL <= a + PLURAL + b)
  {
    var all := a + PLURAL + b;
    assert all[|a|] == '(';
    assert |a| >= |PLURAL| ==> all[..|PLURAL|] == a[..|PLURAL|];
  }

  /** ... and nothing else is changed. */
  lemma {:induction false} SubstitutesOnly(s: string, replacement: string)
    requires !Contains(s, "(s)")
    ensures Substituted(s, replacement) == s
  {
    if s != "" {
      SubstitutesOnly(s[1..], replacement);
      assert s == [s[0]] + s[1..];
    }
  }

  const INDENT := "        "
  const DEEPER := "            "
  const FORM := "<numerusform>"
  const FORM_END := "</numerusform>"

  function Form(text: string): string {
    DEEPER + FORM + text + FORM_END
  }

  /** What is written for an unfinished translation. */
  function Translation(sourceString: string, numerus: bool, mock: string -> string): seq<Event> {
    if numerus then
      [Output(INDENT + HEAD),
       Output(Form(mock(Substituted(sourceString, "")))),
       Output(Form(mock(Substituted(sourceString, "s")))),
       Output(INDENT + TRANSLATION_END)]
    else
      [Output(INDENT + HEAD + mock(sourceString) + TRANSLATION_END)]
  }

  /** The new state, and whether a translation starts or ends on the line. */
  function Advanced(m: Mocker, line: string): (Mocker, bool, bool) {
    match Classify(line)
    case Message(numerus) => (Mocker("", false, false, numerus), false, false)
    case WholeSource(captured) => (m.(sourceString := captured), false, false)
    case SourceStart(captured) => (m.(sourceString := captured, inSource := true), false, false)
    case SourceEnd(captured) => (m.(sourceString := m.sourceString + captured, inSource := false), false, false)
    case kind =>
      if m.inSource then (m.(sourceString := m.sourceString + line), false, false)
      else if kind.WholeUnfinished? then (m, true, true)
      else if kind.UnfinishedStart? then (m.(inTranslation := true), true, false)
      else if kind.TranslationEnd? && m.inTranslation then (m.(inTranslation := false), false, true)
      else (m, false, false)
  }

  function ProcessLine(m: Mocker, line: string, mock: string -> string): Outcome {
    var (m', starts, ends) := Advanced(m, line);
    if m'.inSource && m'.inTranslation then Raised
    else if starts then Done(m', Translation(m'.sourceString, m'.numerusMessage, mock) + [Eat(line)])
    else if !m'.inTranslation && !ends then Done(m', [Copy(line)])
    else Done(m', [Eat(line)])
  }

  function ProcessLines(m: Mocker, lines: seq<string>, mock: string -> string): Outcome
    decreases |lines|
  {
    if lines == [] then Done(m, []) else
      match ProcessLine(m, lines[0], mock)
      case Raised => Raised
      case Done(m', events) =>
        match ProcessLines(m', lines[1..], mock)
        case Raised => Raised
        case Done(m'', more) => Done(m'', events + more)
  }

  // ----- the object

  class FileMocker {
    const stringMocker: string -> string
    var log: seq<Event>
    var sourceString: string
    var inSource: bool
    var inTranslation: bool
    var numerusMessage: bool

    function Snapshot(): Mocker
      reads this
    {
      Mocker(sourceString, inSource, inTranslation, numerusMessage)
    }

    constructor (stringMocker: string -> string)
      ensures this.stringMocker == stringMocker && log == [] && Snapshot() == START
    {
      this.stringMocker := stringMocker;
      log := [];
      sourceString := "";
      inSource, inTranslation, numerusMessage := false, false, false;
    }

    method ProcessOne(line: string) returns (raised: bool)
      modifies this
      ensures match ProcessLine(old(Snapshot()), line, stringMocker)
              case Raised => raised && log == old(log)
              case Done(m, events) => !raised && Snapshot() == m && log == old(log) + events
    {
      hide Classify, Substituted, Form, INDENT, HEAD, TRANSLATION_END;
      var translationStart, translationEnd := false, false;
      var kind := Classify(line);
      if kind.Message? {
        sourceString := "";
        inSource := false;
        inTranslation := false;
        numerusMessage := kind.numerus;
      } else if kind.WholeSource? {
        sourceString := kind.captured;
      } else if kind.SourceStart? {
        sourceString := kind.captured;
        inSource := true;
      } else if kind.SourceEnd? {
        sourceString := sourceString + kind.captured;
        inSource := false;
      } else if inSource {
        sourceString := sourceString + line;
      } else if kind.WholeUnfinished? {
        translationStart := true;
        translationEnd := true;
      } else if kind.UnfinishedStart? {
        translationStart := true;
        inTranslation := true;
      } else if kind.TranslationEnd? && inTranslation {
        translationEnd := true;
        inTranslation := false;
      }

      if inSource && inTranslation {
        return true;
      }

      var copyLine := false;
      if translationStart {
        if numerusMessage {
          var singularGuess := Substituted(sourceString, "");
          var pluralGuess := Substituted(sourceString, "s");
          log := log + [Output(INDENT + HEAD)];
          log := log + [Output(Form(stringMocker(singularGuess)))];
          log := log + [Output(Form(stringMocker(pluralGuess)))];
          log := log + [Output(INDENT + TRANSLATION_END)];
        } else {
          log := log + [Output(INDENT + HEAD + stringMocker(sourceString) + TRANSLATION_END)];
        }
      } else if !inTranslation && !translationEnd {
        copyLine := true;
      }

      if copyLine {
        log := log + [Copy(line)];
      } else {
        log := log + [Eat(line)];
      }
      return false;
    }

    /** Every line of the file in turn, up to the first that raises. */
    method ProcessFile(file: string) returns (raised: bool)
      modifies this
      ensures match ProcessLines(old(Snapshot()), SplitLines(file), stringMocker)
              case Raised => raised
              case Done(m, events) => !raised && Snapshot() == m && log == old(log) + events
    {
      hide ProcessLine, SplitLines;
      var lines := SplitLines(file);
      ghost var all := ProcessLines(Snapshot(), lines, stringMocker);
      ghost var done: seq<Event> := [];
      for i := 0 to |lines|
        invariant log == old(log) + done
        invariant match ProcessLines(Snapshot(), lines[i..], stringMocker)
                  case Raised => all.Raised?
                  case Done(m, events) => all == Done(m, done + events)
      {
        ghost var before := Snapshot();
        assert lines[i..][1..] == lines[i + 1..];
        raised := ProcessOne(lines[i]);
        if raised {
          return;
        }
        done := done + ProcessLine(before, lines[i], stringMocker).events;
      }
      raised := false;
    }
  }

  // ----- what is copied and eaten

  /** The lines of the copy and eat calls, in order. */
  function Consumed(events: seq<Event>): seq<string> {
    if events == [] then []
    else (match events[0] case Output(_) => [] case Copy(line) => [line] case Eat(line) => [line])
         + Consumed(events[1..])
  }

  lemma {:induction false} ConsumedConcat(a: seq<Event>, b: seq<Event>)
    ensures Consumed(a + b) == Consumed(a) + Consumed(b)
    decreases |a|
  {
    if a == [] {
      assert a + b == b;
    } else {
      assert (a + b)[1..] == a[1..] + b;
      ConsumedConcat(a[1..], b);
    }
  }

  lemma ConsumesLine(m: Mocker, line: string, mock: string -> string)
    ensures var r := ProcessLine(m, line, mock); r.Done? ==> Consumed(r.events) == [line]
  {
    hide Advanced, Form, HEAD, TRANSLATION_END;
    var (m', starts, ends) := Advanced(m, line);
    var t := Translation(m'.sourceString, m'.numerusMessage, mock);
    if starts {
      WritesOnly(t);
      ConsumedConcat(t, [Eat(line)]);
    }
    assert [Eat(line)][1..] == [] && [Copy(line)][1..] == [];
  }

  lemma {:induction false} WritesOnly(events: seq<Event>)
    requires forall i :: 0 <= i < |events| ==> events[i].Output?
    ensures Consumed(events) == []
  {
    if events != [] {
      WritesOnly(events[1..]);
    }
  }

  /** On a run that does not raise, the copy and eat calls in order are the input lines, each once. */
  lemma {:induction false} ConsumesEveryLine(m: Mocker, lines: seq<string>, mock: string -> string)
    ensures var r := ProcessLines(m, lines, mock); r.Done? ==> Consumed(r.events) == lines
    decreases |lines|
  {
    if lines != [] {
      var first := ProcessLine(m, lines[0], mock);
      if first.Done? {
        ConsumesEveryLine(first.mocker, lines[1..], mock);
        ConsumesLine(m, lines[0], mock);
        hide ProcessLine, Consumed;
        if ProcessLines(first.mocker, lines[1..], mock).Done? {
          ConsumedConcat(first.events, ProcessLines(first.mocker, lines[1..], mock).events);
        }
      }
    }
  }

  // ----- inside a source

  /** Inside a source every line is part of its text, whatever it says of translations, until one of the
      patterns of messages and sources matches. */
  lemma AppendsInsideSource(m: Mocker, line: string, mock: string -> string)
    requires m.inSource && !m.inTranslation
    ensures var kind := Classify(line);
            kind.WholeUnfinished? || kind.UnfinishedStart? || kind.TranslationEnd? || kind.Other? ==>
            ProcessLine(m, line, mock) == Done(m.(sourceString := m.sourceString + line), [Copy(line)])
  {
    hide Classify;
  }

  // ----- when it raises

  predicate Consistent(m: Mocker) {
    !(m.inSource && m.inTranslation)
  }

  /** A line raises exactly when a multi-line source starts inside an unfinished translation. */
  lemma RaisesExactly(m: Mocker, line: string, mock: string -> string)
    requires Consistent(m)
    ensures ProcessLine(m, line, mock).Raised? <==> m.inTranslation && Classify(line).SourceStart?
    ensures ProcessLine(m, line, mock).Done? ==> Consistent(ProcessLine(m, line, mock).mocker)
  {
  }

  /** Every unfinished translation that goes on over several lines ends, by its closing tag or the
      next message, before the next source line. */
  predicate Tame(m: Mocker, lines: seq<string>)
    decreases |lines|
  {
    lines != [] ==>
      var kind := Classify(lines[0]);
      && (m.inTranslation ==> !kind.WholeSource? && !kind.SourceStart? && !kind.SourceEnd?)
      && Tame(Advanced(m, lines[0]).0, lines[1..])
  }

  /** Such a file never raises. */
  lemma {:induction false} TameNeverRaises(m: Mocker, lines: seq<string>, mock: string -> string)
    requires Consistent(m) && Tame(m, lines)
    ensures ProcessLines(m, lines, mock).Done?
    decreases |lines|
  {
    if lines != [] {
      RaisesExactly(m, lines[0], mock);
      TameNeverRaises(ProcessLine(m, lines[0], mock).mocker, lines[1..], mock);
    }
  }

  /** Some line of the run starts a multi-line source inside an unfinished translation. */
  predicate Clashes(m: Mocker, lines: seq<string>)
    decreases |lines|
  {
    && lines != []
    && ((m.inTranslation && Classify(lines[0]).SourceStart?) || Clashes(Advanced(m, lines[0]).0, lines[1..]))
  }

  /** A run raises exactly when it meets such a line. */
  lemma {:induction false} RunRaisesExactly(m: Mocker, lines: seq<string>, mock: string -> string)
    requires Consistent(m)
    ensures ProcessLines(m, lines, mock).Raised? <==> Clashes(m, lines)
    decreases |lines|
  {
    if lines != [] {
      RaisesExactly(m, lines[0], mock);
      if ProcessLine(m, lines[0], mock).Done? {
        RunRaisesExactly(ProcessLine(m, lines[0], mock).mocker, lines[1..], mock);
      }
    }
  }

  // ----- well-formed files

  /** Where a line is in a file made of messages, each one source and then one translation. */
  datatype Phase = Between | BeforeSource | InSource | AfterSource | InTranslation

  /** The phase after a line of the given kind, if the line may come in this phase. The end of a
      finished translation has the kind TranslationEnd too. */
  function After(phase: Phase, kind: Kind): Option<Phase> {
    match phase
    case Between =>
      if kind.Message? then Some(BeforeSource) else if kind.Other? then Some(Between) else None
    case BeforeSource =>
      if kind.WholeSource? then Some(AfterSource)
      else if kind.SourceStart? then Some(InSource)
      else if kind.Other? then Some(BeforeSource)
      else None
    case InSource =>
      if kind.SourceEnd? then Some(AfterSource) else if kind.Other? then Some(InSource) else None
    case AfterSource =>
      if kind.WholeUnfinished? || kind.TranslationEnd? then Some(Between)
      else if kind.UnfinishedStart? then Some(InTranslation)
      else if kind.Other? then Some(AfterSource)
      else None
    case InTranslation =>
      if kind.TranslationEnd? then Some(Between) else if kind.Other? then Some(InTranslation) else None
  }

  predicate WellFormed(phase: Phase, lines: seq<string>)
    decreases |lines|
  {
    lines != [] ==>
      var next := After(phase, Classify(lines[0]));
      next.Some? && WellFormed(next.value, lines[1..])
  }

  /** In a well-formed file every unfinished translation ends before the next source. */
  lemma {:induction false} WellFormedIsTame(m: Mocker, phase: Phase, lines: seq<string>)
    requires WellFormed(phase, lines)
    requires m.inSource == phase.InSource? && m.inTranslation == phase.InTranslation?
    ensures Tame(m, lines)
    decreases |lines|
  {
    hide Classify;
    if lines != [] {
      WellFormedIsTame(Advanced(m, lines[0]).0, After(phase, Classify(lines[0])).value, lines[1..]);
    }
  }
}
