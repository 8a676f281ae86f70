/** What the mocker writes, as text: what is written for a translation, how the output of a text is put
    together from that of its lines, which text of a source is captured, and so which text is mocked
    for the translation of a message. */
module TsFileOutput {
  import opened Texts
  import opened TsFileMocker
  import opened TsLines

  /** IO#puts */
  function Puts(s: string): string {
    if EndsWith(s, [LF]) then s else s + [LF]
  }

  /** What a plain outputter or a file outputter writes. */
  function Written(events: seq<Event>): string {
    if events == [] then ""
    else (match events[0] case Output(text) => Puts(text) case Copy(line) => Puts(line) case Eat(_) => "")
         + Written(events[1..])
  }

  lemma {:induction false} WrittenConcat(a: seq<Event>, b: seq<Event>)
    ensures Written(a + b) == Written(a) + Written(b)
    decreases |a|
  {
    if a == [] {
      assert a + b == b;
    } else {
      assert (a + b)[1..] == a[1..] + b;
      WrittenConcat(a[1..], b);
    }
  }

  /** Processing m through the lines of text ends in m' and writes out. */
  ghost predicate Runs(m: Mocker, text: string, mock: string -> string, m': Mocker, out: string) {
    var r := ProcessLines(m, SplitLines(text), mock);
    r.Done? && r.mocker == m' && Written(r.events) == out
  }

  lemma RunsNothing(m: Mocker, mock: string -> string)
    ensures Runs(m, "", mock, m, "")
  {
  }

  /** One line, and then the rest. */
  lemma {:induction false} RunsLine(m: Mocker, line: string, rest: string, mock: string -> string,
                                    m1: Mocker, m2: Mocker, out: string)
    requires IsLine(line) && line[|line| - 1] == LF
    ensures ProcessLine(m, line, mock).Done? && ProcessLine(m, line, mock).mocker == m1
            && Runs(m1, rest, mock, m2, out) ==>
              Runs(m, line + rest, mock, m2, Written(ProcessLine(m, line, mock).events) + out)
  {
    hide ProcessLine, Written;
    SplitFirst(line, rest);
    var r1 := ProcessLine(m, line, mock);
    var r2 := ProcessLines(m1, SplitLines(rest), mock);
    assert ([line] + SplitLines(rest))[1..] == SplitLines(rest);
    if r1.Done? && r2.Done? {
      WrittenConcat(r1.events, r2.events);
    }
  }

  predicate Whole(text: string) {
    text != "" ==> text[|text| - 1] == LF
  }

  /** ... and back: what the first line does, and what the rest does after it. */
  lemma {:induction false} RunsHead(m: Mocker, line: string, rest: string, mock: string -> string,
                                    m2: Mocker, out: string)
    returns (m1: Mocker, out1: string)
    requires IsLine(line) && (rest == "" || line[|line| - 1] == LF)
    ensures Runs(m, line + rest, mock, m2, out) ==>
              && ProcessLine(m, line, mock).Done? && ProcessLine(m, line, mock).mocker == m1
              && Runs(m1, rest, mock, m2, out1) && out == Written(ProcessLine(m, line, mock).events) + out1
  {
    hide ProcessLine, Written;
    if !Runs(m, line + rest, mock, m2, out) {
      return START, "";
    }
    SplitFirst(line, rest);
    assert ([line] + SplitLines(rest))[1..] == SplitLines(rest);
    var r1 := ProcessLine(m, line, mock);
    m1 := r1.mocker;
    var r2 := ProcessLines(m1, SplitLines(rest), mock);
    out1 := Written(r2.events);
    WrittenConcat(r1.events, r2.events);
  }

  lemma FirstLine(text: string) returns (line: string, rest: string)
    requires text != "" && Whole(text)
    ensures text == line + rest && |rest| < |text| && Whole(rest)
    ensures IsLine(line) && line[|line| - 1] == LF
  {
    var n := LineLength(text);
    line, rest := text[..n], text[n..];
  }

  /** Whole lines, and then the rest. */
  lemma {:induction false} RunsTwo(m: Mocker, a: string, b: string, mock: string -> string,
                                   m1: Mocker, m2: Mocker, outA: string, outB: string)
    requires Whole(a) && Runs(m, a, mock, m1, outA) && Runs(m1, b, mock, m2, outB)
    ensures Runs(m, a + b, mock, m2, outA + outB)
    decreases |a|
  {
    if a == "" {
      assert a + b == b && outA + outB == outB;
    } else {
      hide *;
      var line, rest := FirstLine(a);
      var m', out' := RunsHead(m, line, rest, mock, m1, outA);
      RunsTwo(m', rest, b, mock, m1, m2, out', outB);
      RunsLine(m, line, rest + b, mock, m', m2, out' + outB);
      Associative(line, rest, b);
      Associative(Written(ProcessLine(m, line, mock).events), out', outB);
    }
  }

  /** The text up to its first line break, and the text after it. */
  lemma {:induction false} FirstBreak(text: string) returns (first: string, rest: string)
    requires LF in text
    ensures text == first + [LF] + rest && LF !in first && |rest| < |text|
    ensures NoTag(text) ==> NoTag(first) && NoTag(rest)
  {
    if text[0] == LF {
      first, rest := "", text[1..];
    } else {
      var first', rest' := FirstBreak(text[1..]);
      first, rest := [text[0]] + first', rest';
      assert text == [text[0]] + text[1..];
    }
  }

  lemma LineOf(text: string)
    requires LF !in text
    ensures IsLine(text + [LF]) && (text + [LF])[|text + [LF]| - 1] == LF
    ensures NoTag(text) ==> NoTag(text + [LF])
  {
    assert (text + [LF])[..|text|] == text;
  }

  lemma EndTags()
    ensures forall end :: end == TRANSLATION_END || end == FORM_END ==>
              && |end| >= 2 && end[0] == '<' && end[1] == '/' && end[|end| - 1] == '>'
              && end[|end| - 2] != 'e' && LF !in end
    ensures FORM_END[|FORM_END| - 2] == 'm' && TRANSLATION_END[|TRANSLATION_END| - 2] == 'n'
  {
  }

  lemma FormTags()
    ensures AllSpaces(DEEPER) && AllSpaces(INDENT) && LF !in DEEPER && LF !in INDENT && LF !in FORM
    ensures |FORM| >= 2 && FORM[0] == '<' && FORM[1] == 'n' && NoTag(FORM[1..])
  {
  }

  // ----- what is written for a translation

  /** What is written for an unfinished translation, with its line breaks. */
  function TranslationText(sourceString: string, numerus: bool, mock: string -> string): string {
    if numerus then
      (INDENT + HEAD + [LF])
      + ((Form(mock(Substituted(sourceString, ""))) + [LF])
         + ((Form(mock(Substituted(sourceString, "s"))) + [LF])
            + (INDENT + TRANSLATION_END + [LF])))
    else
      INDENT + HEAD + mock(sourceString) + (TRANSLATION_END + [LF])
  }

  /** The lines written, for a plain message and for a numerus one. */
  lemma TranslationTextIs(source: string, mock: string -> string)
    ensures var head, end := "        " + "<translation type=\"unfinished\">", "</translation>" + "\n";
            && TranslationText(source, false, mock) == head + mock(source) + end
            && TranslationText(source, true, mock) ==
               (head + "\n") + FormElement(mock(Substituted(source, ""))) + FormElement(mock(Substituted(source, "s")))
               + ("        " + end)
  {
    LineTexts();
    var a, b := mock(Substituted(source, "")), mock(Substituted(source, "s"));
    hide Substituted, INDENT, HEAD, TRANSLATION_END, DEEPER, FORM, FORM_END, LF;
    FourTexts(INDENT + HEAD + [LF], Form(a) + [LF], Form(b) + [LF], INDENT + TRANSLATION_END + [LF]);
    Associative(INDENT, TRANSLATION_END, [LF]);
  }

  function FormElement(text: string): string {
    "            " + "<numerusform>" + text + "</numerusform>" + "\n"
  }

  lemma LineTexts()
    ensures INDENT == "        " && DEEPER == "            " && [LF] == "\n"
    ensures FORM == "<numerusform>" && FORM_END == "</numerusform>" && TRANSLATION_END == "</translation>"
    ensures HEAD == "<translation type=\"unfinished\">"
  {
  }

  lemma FourTexts(a: string, b: string, c: string, d: string)
    ensures a + (b + (c + d)) == a + b + c + d
  {
  }

  lemma WrittenOutput(text: string, rest: seq<Event>)
    requires text != "" && text[|text| - 1] == '>'
    ensures Written([Output(text)] + rest) == text + [LF] + Written(rest)
  {
    assert ([Output(text)] + rest)[1..] == rest;
    assert !EndsWith(text, [LF]);
  }

  lemma LastChar(a: string, b: string)
    requires b != ""
    ensures a + b != "" && (a + b)[|a + b| - 1] == b[|b| - 1]
  {
  }

  lemma WrittenTranslation(sourceString: string, numerus: bool, mock: string -> string)
    ensures Written(Translation(sourceString, numerus, mock)) == TranslationText(sourceString, numerus, mock)
  {
    EndTags();
    HeadEnd();
    LastChar(INDENT, HEAD);
    LastChar(INDENT, TRANSLATION_END);
    hide Written, INDENT, HEAD, TRANSLATION_END, FORM_END, DEEPER, FORM;
    if numerus {
      var a, b := mock(Substituted(sourceString, "")), mock(Substituted(sourceString, "s"));
      LastChar(DEEPER + FORM + a, FORM_END);
      LastChar(DEEPER + FORM + b, FORM_END);
      hide Form;
      assert Form(a) != "" && Form(a)[|Form(a)| - 1] == '>';
      WrittenForms(Form(a), Form(b));
    } else {
      LastChar(INDENT + HEAD + mock(sourceString), TRANSLATION_END);
      var text := INDENT + HEAD + mock(sourceString) + TRANSLATION_END;
      WrittenOutput(text, []);
      assert [Output(text)] + [] == [Output(text)];
      Associative(INDENT + HEAD + mock(sourceString), TRANSLATION_END, [LF]);
      assert text + [LF] + "" == text + [LF];
    }
  }

  lemma WrittenForms(a: string, b: string)
    requires a != "" && a[|a| - 1] == '>' && b != "" && b[|b| - 1] == '>'
    ensures Written([Output(INDENT + HEAD), Output(a), Output(b), Output(INDENT + TRANSLATION_END)])
            == (INDENT + HEAD + [LF]) + ((a + [LF]) + ((b + [LF]) + (INDENT + TRANSLATION_END + [LF])))
  {
    EndTags();
    HeadEnd();
    LastChar(INDENT, HEAD);
    LastChar(INDENT, TRANSLATION_END);
    hide *;
    var first, last := INDENT + HEAD, INDENT + TRANSLATION_END;
    WrittenOutput(last, []);
    WrittenOutput(b, [Output(last)] + []);
    WrittenOutput(a, [Output(b)] + ([Output(last)] + []));
    WrittenOutput(first, [Output(a)] + ([Output(b)] + ([Output(last)] + [])));
    FourEvents(Output(first), Output(a), Output(b), Output(last));
    assert last + [LF] + "" == last + [LF];
  }

  lemma FourEvents(a: Event, b: Event, c: Event, d: Event)
    ensures [a, b, c, d] == [a] + ([b] + ([c] + ([d] + [])))
  {
  }

  lemma HeadEnd()
    ensures HEAD[|HEAD| - 1] == '>' && LF !in HEAD
  {
  }

  lemma WrittenCopy(line: string)
    ensures Written([Copy(line)]) == Puts(line)
    ensures line != "" && line[|line| - 1] == LF ==> Puts(line) == line
    ensures LF !in line ==> Puts(line) == line + [LF]
  {
    assert [Copy(line)][1..] == [] && Puts(line) + "" == Puts(line);
    assert EndsWith(line, [LF]) ==> line[|line| - 1..][0] == LF;
  }

  lemma WrittenEat(line: string)
    ensures Written([Eat(line)]) == ""
  {
    assert [Eat(line)][1..] == [];
  }

  lemma WrittenThenEaten(sourceString: string, numerus: bool, mock: string -> string, line: string)
    ensures Written(Translation(sourceString, numerus, mock) + [Eat(line)])
            == TranslationText(sourceString, numerus, mock)
  {
    hide *;
    WrittenTranslation(sourceString, numerus, mock);
    WrittenConcat(Translation(sourceString, numerus, mock), [Eat(line)]);
    WrittenEat(line);
    assert TranslationText(sourceString, numerus, mock) + "" == TranslationText(sourceString, numerus, mock);
  }

  lemma StartsTranslation(m: Mocker, line: string, mock: string -> string)
    requires !m.inSource && !m.inTranslation
    requires Classify(line).WholeUnfinished? || Classify(line).UnfinishedStart?
    ensures var r := ProcessLine(m, line, mock);
            && r.Done? && r.mocker == m.(inTranslation := Classify(line).UnfinishedStart?)
            && Written(r.events) == TranslationText(m.sourceString, m.numerusMessage, mock)
  {
    hide Classify, Written, TranslationText, Translation;
    WrittenThenEaten(m.sourceString, m.numerusMessage, mock, line);
  }

  // ----- the text that is mocked

  /** A line that is copied and followed by the rest. */
  lemma CopiesLine(m: Mocker, line: string, rest: string, mock: string -> string, m1: Mocker, m2: Mocker, out: string)
    requires IsLine(line) && line[|line| - 1] == LF
    requires ProcessLine(m, line, mock) == Done(m1, [Copy(line)])
    requires Runs(m1, rest, mock, m2, out)
    ensures Runs(m, line + rest, mock, m2, line + out)
  {
    WrittenCopy(line);
    assert Written([Copy(line)]) == line;
    hide *;
    RunsLine(m, line, rest, mock, m1, m2, out);
  }

  /** The lines of a source after its first one. */
  lemma {:induction false} CapturesRest(m: Mocker, text: string, mock: string -> string)
    requires m.inSource && !m.inTranslation && NoTag(text)
    ensures var all := text + (SOURCE_END + [LF]);
            Runs(m, all, mock, m.(sourceString := m.sourceString + text, inSource := false), all)
    decreases |text|
  {
    hide *;
    var m2 := m.(sourceString := m.sourceString + text, inSource := false);
    if LF in text {
      var first, rest := FirstBreak(text);
      var line := first + [LF];
      LineOf(first);
      ClassifyNoTag(line);
      var m1 := m.(sourceString := m.sourceString + line);
      CapturesLine(m, line, mock);
      CapturesRest(m1, rest, mock);
      Associative(m.sourceString, line, rest);
      CopiesLine(m, line, rest + (SOURCE_END + [LF]), mock, m1, m2, rest + (SOURCE_END + [LF]));
      Associative(line, rest, SOURCE_END + [LF]);
    } else {
      var line := text + SOURCE_END + [LF];
      SourceEndIs();
      LineOf(text + SOURCE_END);
      ClassifySourceEnd(text);
      EndsSource(m, line, text, mock);
      RunsNothing(m2, mock);
      CopiesLine(m, line, "", mock, m2, m2, "");
      Associative(text, SOURCE_END, [LF]);
      assert line + "" == line;
    }
  }

  lemma SourceEndIs()
    ensures LF !in SOURCE_END && LF !in SOURCE
  {
  }

  lemma CapturesLine(m: Mocker, line: string, mock: string -> string)
    requires m.inSource && !m.inTranslation && Classify(line).Other?
    ensures ProcessLine(m, line, mock) == Done(m.(sourceString := m.sourceString + line), [Copy(line)])
  {
  }

  lemma EndsSource(m: Mocker, line: string, text: string, mock: string -> string)
    requires !m.inTranslation && Classify(line) == SourceEnd(text)
    ensures ProcessLine(m, line, mock) ==
            Done(m.(sourceString := m.sourceString + text, inSource := false), [Copy(line)])
  {
  }

  lemma StartsSource(m: Mocker, line: string, text: string, mock: string -> string)
    requires !m.inTranslation
    ensures Classify(line) == SourceStart(text) ==>
              ProcessLine(m, line, mock) == Done(m.(sourceString := text, inSource := true), [Copy(line)])
    ensures Classify(line) == WholeSource(text) ==>
              ProcessLine(m, line, mock) == Done(m.(sourceString := text), [Copy(line)])
  {
  }

  /** What a source element looks like in the file; the text may have line breaks. */
  function SourceElement(spaces: string, text: string): string {
    spaces + SOURCE + text + (SOURCE_END + [LF])
  }

  /** The text of a source, whether on one line or on several, is captured exactly. */
  lemma CapturesSource(m: Mocker, spaces: string, text: string, mock: string -> string)
    requires !m.inSource && !m.inTranslation && AllSpaces(spaces) && LF !in spaces && NoTag(text)
    ensures var all := SourceElement(spaces, text);
            Runs(m, all, mock, m.(sourceString := text), all)
  {
    SourceEndIs();
    hide Runs, Classify, ProcessLine, SOURCE, SOURCE_END;
    if LF in text {
      var first, rest := FirstBreak(text);
      LineOf(spaces + SOURCE + first);
      ClassifySourceStart(spaces, first);
      var line := spaces + SOURCE + first + [LF];
      hide *;
      StartsSource(m, line, first + [LF], mock);
      var m1 := m.(sourceString := first + [LF], inSource := true);
      CapturesRest(m1, rest, mock);
      CopiesLine(m, line, rest + (SOURCE_END + [LF]), mock,
                 m1, m.(sourceString := text), rest + (SOURCE_END + [LF]));
      ElementText(spaces, first, rest);
    } else {
      LineOf(spaces + SOURCE + text + SOURCE_END);
      ClassifyWholeSource(spaces, text);
      var line := spaces + SOURCE + text + SOURCE_END + [LF];
      hide *;
      StartsSource(m, line, text, mock);
      var m1 := m.(sourceString := text);
      RunsNothing(m1, mock);
      CopiesLine(m, line, "", mock, m1, m1, "");
      ElementLine(spaces, text);
      assert line + "" == line;
    }
  }

  lemma ElementText(spaces: string, first: string, rest: string)
    ensures SourceElement(spaces, first + [LF] + rest)
            == spaces + SOURCE + first + [LF] + (rest + (SOURCE_END + [LF]))
  {
    hide SOURCE, SOURCE_END;
  }

  lemma ElementLine(spaces: string, text: string)
    ensures SourceElement(spaces, text) == spaces + SOURCE + text + SOURCE_END + [LF]
  {
    hide SOURCE, SOURCE_END;
  }

  /** Whole lines that match none of the patterns, such as locations and comments. */
  predicate Neutral(text: string) {
    Whole(text) && forall line :: line in SplitLines(text) ==> Classify(line).Other?
  }

  lemma {:induction false} CopiesNeutral(m: Mocker, text: string, mock: string -> string)
    requires !m.inSource && !m.inTranslation && Neutral(text)
    ensures Runs(m, text, mock, m, text)
    decreases |text|
  {
    if text == "" {
      RunsNothing(m, mock);
    } else {
      var line, rest := FirstLine(text);
      SplitFirst(line, rest);
      assert line in SplitLines(text) && forall l :: l in SplitLines(rest) ==> l in SplitLines(text);
      assert Neutral(rest) && Classify(line).Other?;
      assert ProcessLine(m, line, mock) == Done(m, [Copy(line)]);
      hide *;
      CopiesNeutral(m, rest, mock);
      CopiesLine(m, line, rest, mock, m, m, rest);
    }
  }

  /** The text of a message up to its translation. */
  function MessageHead(line: string, gap1: string, spaces: string, text: string, gap2: string): string {
    line + (gap1 + (SourceElement(spaces, text) + gap2))
  }

  /** Whatever came before, everything in a message up to its translation is copied, and the source
      and the form of the message are known after it. */
  lemma CopiesHead(m: Mocker, line: string, gap1: string, spaces: string, text: string, gap2: string,
                   mock: string -> string)
    requires IsLine(line) && line[|line| - 1] == LF && Classify(line).Message?
    requires Neutral(gap1) && Neutral(gap2) && AllSpaces(spaces) && LF !in spaces && NoTag(text)
    ensures var head := MessageHead(line, gap1, spaces, text, gap2);
            Runs(m, head, mock, Mocker(text, false, false, Classify(line).numerus), head) && Whole(head)
  {
    WholeLine(line);
    hide *;
    var m1 := Mocker("", false, false, Classify(line).numerus);
    var m2 := m1.(sourceString := text);
    var source := SourceElement(spaces, text);
    WholeParts(spaces, text, gap1, gap2);
    CopiesNeutral(m2, gap2, mock);
    CapturesSource(m1, spaces, text, mock);
    RunsTwo(m1, source, gap2, mock, m2, m2, source, gap2);
    WholeConcat(source, gap2);
    CopiesNeutral(m1, gap1, mock);
    RunsTwo(m1, gap1, source + gap2, mock, m1, m2, gap1, source + gap2);
    WholeConcat(gap1, source + gap2);
    CopiesLine(m, line, gap1 + (source + gap2), mock, m1, m2, gap1 + (source + gap2));
    WholeConcat(line, gap1 + (source + gap2));
    HeadIs(line, gap1, spaces, text, gap2);
  }

  lemma WholeLine(line: string)
    requires IsLine(line) && line[|line| - 1] == LF
    ensures Whole(line)
  {
  }

  lemma WholeConcat(a: string, b: string)
    requires Whole(a) && Whole(b)
    ensures Whole(a + b)
  {
    assert b == "" ==> a + b == a;
  }

  lemma HeadIs(line: string, gap1: string, spaces: string, text: string, gap2: string)
    ensures MessageHead(line, gap1, spaces, text, gap2) == line + (gap1 + (SourceElement(spaces, text) + gap2))
  {
  }

  /** ... and a line that starts an unfinished translation is replaced by the mocked text of the
      source of its own message, in the form of its own message. */
  lemma MocksItsSource(m: Mocker, line: string, gap1: string, spaces: string, text: string, gap2: string,
                       unfinished: string, mock: string -> string)
    requires IsLine(line) && line[|line| - 1] == LF && Classify(line).Message?
    requires Neutral(gap1) && Neutral(gap2) && AllSpaces(spaces) && LF !in spaces && NoTag(text)
    requires IsLine(unfinished) && unfinished[|unfinished| - 1] == LF
    requires Classify(unfinished).WholeUnfinished? || Classify(unfinished).UnfinishedStart?
    ensures var head := MessageHead(line, gap1, spaces, text, gap2);
            Runs(m, head + unfinished, mock,
                 Mocker(text, false, Classify(unfinished).UnfinishedStart?, Classify(line).numerus),
                 head + TranslationText(text, Classify(line).numerus, mock))
  {
    hide *;
    var m2 := Mocker(text, false, false, Classify(line).numerus);
    var m3 := m2.(inTranslation := Classify(unfinished).UnfinishedStart?);
    var head, out := MessageHead(line, gap1, spaces, text, gap2), TranslationText(text, Classify(line).numerus, mock);
    CopiesHead(m, line, gap1, spaces, text, gap2, mock);
    StartsTranslation(m2, unfinished, mock);
    RunsNothing(m3, mock);
    RunsLine(m2, unfinished, "", mock, m3, m3, "");
    assert unfinished + "" == unfinished && out + "" == out;
    RunsTwo(m, head, unfinished, mock, m2, m3, head, out);
  }

  lemma WholeParts(spaces: string, text: string, gap1: string, gap2: string)
    ensures Whole(SourceElement(spaces, text))
    ensures Neutral(gap1) ==> Whole(gap1)
    ensures Neutral(gap2) ==> Whole(gap2)
  {
    hide SOURCE, SOURCE_END;
  }
}
