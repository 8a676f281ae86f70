/** Running the mocker on its own output reproduces that output. */
module TsFixpoint {
  import opened Texts
  import opened TsFileMocker
  import opened TsLines
  import opened TsFileOutput

  /** A line inside an unfinished translation that is eaten. */
  lemma EatsLine(m: Mocker, line: string, mock: string -> string)
    requires m.inTranslation && !m.inSource
    requires Classify(line).Other? || Classify(line).TranslationEnd?
    ensures ProcessLine(m, line, mock) ==
            Done(m.(inTranslation := Classify(line).Other?), [Eat(line)])
    ensures Written([Eat(line)]) == ""
  {
    assert [Eat(line)][1..] == [];
  }

  lemma EatsLineFirst(m: Mocker, line: string, rest: string, mock: string -> string, m1: Mocker, m2: Mocker)
    requires m.inTranslation && !m.inSource && IsLine(line) && line[|line| - 1] == LF
    requires Classify(line).Other? || Classify(line).TranslationEnd?
    requires m1 == m.(inTranslation := Classify(line).Other?) && Runs(m1, rest, mock, m2, "")
    ensures Runs(m, line + rest, mock, m2, "")
  {
    hide Runs, Classify, ProcessLine, Written;
    EatsLine(m, line, mock);
    RunsLine(m, line, rest, mock, m1, m2, "");
    assert "" + "" == "";
  }

  /** The lines of a text without tags and a closing tag are eaten; only the closing tag of the
      translation ends it. */
  lemma {:induction false} EatsText(m: Mocker, text: string, end: string, mock: string -> string)
    requires m.inTranslation && !m.inSource && NoTag(text) && (end == TRANSLATION_END || end == FORM_END)
    ensures Runs(m, text + (end + [LF]), mock, m.(inTranslation := end == FORM_END), "")
    decreases |text|
  {
    hide *;
    if LF in text {
      var first, rest := FirstBreak(text);
      LineOf(first);
      ClassifyNoTag(first + [LF]);
      EatsText(m, rest, end, mock);
      EatsLineFirst(m, first + [LF], rest + (end + [LF]), mock, m, m.(inTranslation := end == FORM_END));
      Associative(first + [LF], rest, end + [LF]);
    } else {
      EatsClosing(m, text, end, mock);
    }
  }

  lemma EatsClosing(m: Mocker, text: string, end: string, mock: string -> string)
    requires m.inTranslation && !m.inSource && NoTag(text) && (end == TRANSLATION_END || end == FORM_END)
    requires LF !in text
    ensures Runs(m, text + (end + [LF]), mock, m.(inTranslation := end == FORM_END), "")
  {
    hide *;
    var m' := m.(inTranslation := end == FORM_END);
    EndTag(end);
    LineOf(text + end);
    ClassifyClosing(text, end);
    EndOf(text, end);
    RunsNothing(m', mock);
    EatsLineFirst(m, text + end + [LF], "", mock, m', m');
    Associative(text, end, [LF]);
    assert text + end + [LF] + "" == text + end + [LF];
  }

  lemma EndTag(end: string)
    requires end == TRANSLATION_END || end == FORM_END
    ensures |end| >= 2 && end[0] == '<' && end[1] == '/' && end[|end| - 1] == '>' && end[|end| - 2] != 'e'
    ensures LF !in end && TRANSLATION_END != FORM_END
  {
  }

  lemma EndOf(text: string, end: string)
    requires end == TRANSLATION_END || end == FORM_END
    ensures EndsWith(text + end, TRANSLATION_END) <==> end == TRANSLATION_END
  {
    EndTags();
    if end == FORM_END {
      EndsDiffer(text + end, TRANSLATION_END);
    } else {
      assert (text + end)[|text|..] == end;
    }
  }

  /** The lines of a numerus form are eaten. */
  lemma EatsForm(m: Mocker, text: string, mock: string -> string)
    requires m.inTranslation && !m.inSource && NoTag(text)
    ensures Runs(m, Form(text) + [LF], mock, m, "")
  {
    FormTags();
    EndTag(FORM_END);
    RunsNothing(m, mock);
    hide *;
    if LF in text {
      var first, rest := FirstBreak(text);
      var line := DEEPER + FORM + first + [LF];
      LineOf(DEEPER + FORM + first);
      ClassifyOtherTag(DEEPER, FORM, first);
      EatsText(m, rest, FORM_END, mock);
      EatsLineFirst(m, line, rest + (FORM_END + [LF]), mock, m, m);
      FormText(first, rest);
    } else {
      var line := DEEPER + FORM + text + (FORM_END + [LF]);
      FormLine(text);
      LineOf(DEEPER + FORM + text + FORM_END);
      ClassifyOtherElement(DEEPER, FORM, text, FORM_END);
      EatsLineFirst(m, line, "", mock, m, m);
      assert line + "" == line;
    }
  }

  lemma FormText(first: string, rest: string)
    ensures DEEPER + FORM + first + [LF] + (rest + (FORM_END + [LF])) == Form(first + [LF] + rest) + [LF]
  {
    hide DEEPER, FORM, FORM_END;
  }

  lemma FormLine(text: string)
    ensures DEEPER + FORM + text + (FORM_END + [LF]) == DEEPER + FORM + text + FORM_END + [LF] == Form(text) + [LF]
  {
    hide DEEPER, FORM, FORM_END;
  }

  /** Run on what it writes for a translation, the mocker writes the same again, and its state is
      as before. */
  lemma ReproducesTranslation(m: Mocker, mock: string -> string)
    requires TagFree(mock) && !m.inSource && !m.inTranslation
    ensures var text := TranslationText(m.sourceString, m.numerusMessage, mock);
            Runs(m, text, mock, m, text)
  {
    if m.numerusMessage {
      ReproducesForms(m, mock);
    } else {
      ReproducesText(m, mock);
    }
  }

  lemma MockedHasNoTag(mock: string -> string, s: string)
    requires TagFree(mock)
    ensures NoTag(mock(s))
  {
  }

  lemma ReproducesText(m: Mocker, mock: string -> string)
    requires TagFree(mock) && !m.inSource && !m.inTranslation && !m.numerusMessage
    ensures var text := TranslationText(m.sourceString, false, mock);
            Runs(m, text, mock, m, text)
  {
    hide *;
    FormTags();
    EndTags();
    HeadEnd();
    var text := TranslationText(m.sourceString, false, mock);
    var mocked := mock(m.sourceString);
    MockedHasNoTag(mock, m.sourceString);
    assert text + "" == text;
    if LF in mocked {
      var first, rest := FirstBreak(mocked);
      var line := INDENT + HEAD + first + [LF];
      LineOf(INDENT + HEAD + first);
      ClassifyHead(INDENT, first);
      StartsTranslation(m, line, mock);
      var open := m.(inTranslation := true);
      EatsText(open, rest, TRANSLATION_END, mock);
      RunsLine(m, line, rest + (TRANSLATION_END + [LF]), mock, open, m, "");
      HeadText(first, rest, mock, m.sourceString);
    } else {
      HeadLine(mock, m.sourceString);
      LineOf(INDENT + HEAD + mocked + TRANSLATION_END);
      ClassifyWhole(INDENT, mocked);
      StartsTranslation(m, text, mock);
      RunsNothing(m, mock);
      RunsLine(m, text, "", mock, m, m, "");
    }
  }

  lemma HeadText(first: string, rest: string, mock: string -> string, sourceString: string)
    requires mock(sourceString) == first + [LF] + rest
    ensures INDENT + HEAD + first + [LF] + (rest + (TRANSLATION_END + [LF]))
            == TranslationText(sourceString, false, mock)
  {
    hide INDENT, HEAD, TRANSLATION_END;
  }

  lemma HeadLine(mock: string -> string, sourceString: string)
    ensures TranslationText(sourceString, false, mock)
            == INDENT + HEAD + mock(sourceString) + TRANSLATION_END + [LF]
            == INDENT + HEAD + mock(sourceString) + (TRANSLATION_END + [LF])
  {
    hide INDENT, HEAD, TRANSLATION_END;
  }

  lemma ReproducesForms(m: Mocker, mock: string -> string)
    requires TagFree(mock) && !m.inSource && !m.inTranslation && m.numerusMessage
    ensures var text := TranslationText(m.sourceString, true, mock);
            Runs(m, text, mock, m, text)
  {
    hide *;
    FormTags();
    HeadEnd();
    var mocked1, mocked2 := mock(Substituted(m.sourceString, "")), mock(Substituted(m.sourceString, "s"));
    MockedHasNoTag(mock, Substituted(m.sourceString, ""));
    MockedHasNoTag(mock, Substituted(m.sourceString, "s"));
    var open := m.(inTranslation := true);
    var first, last := INDENT + HEAD + [LF], INDENT + TRANSLATION_END + [LF];
    var form1, form2 := Form(mocked1) + [LF], Form(mocked2) + [LF];
    EatsLast(open, mock);
    EatsForm(open, mocked2, mock);
    EatsForm(open, mocked1, mock);
    EndsWhole(Form(mocked1));
    EndsWhole(Form(mocked2));
    var text := TranslationText(m.sourceString, true, mock);
    assert text + "" == text && "" + "" == "";
    RunsTwo(open, form2, last, mock, open, m, "", "");
    RunsTwo(open, form1, form2 + last, mock, open, m, "", "");
    NoTagInNothing();
    ClassifyHead(INDENT, "");
    assert INDENT + HEAD + "" == INDENT + HEAD;
    LineOf(INDENT + HEAD);
    StartsTranslation(m, first, mock);
    RunsLine(m, first, form1 + (form2 + last), mock, open, m, "");
    FormsText(m.sourceString, mock);
  }

  lemma NoTagInNothing()
    ensures NoTag("") && NoTag(INDENT)
  {
  }

  lemma EndsWhole(text: string)
    ensures Whole(text + [LF])
  {
  }

  lemma EatsLast(m: Mocker, mock: string -> string)
    requires m.inTranslation && !m.inSource
    ensures Runs(m, INDENT + TRANSLATION_END + [LF], mock, m.(inTranslation := false), "")
  {
    hide *;
    NoTagInNothing();
    EndTag(TRANSLATION_END);
    EatsText(m, INDENT, TRANSLATION_END, mock);
    Associative(INDENT, TRANSLATION_END, [LF]);
  }

  lemma FormsText(sourceString: string, mock: string -> string)
    ensures TranslationText(sourceString, true, mock) ==
            (INDENT + HEAD + [LF])
            + ((Form(mock(Substituted(sourceString, ""))) + [LF])
               + ((Form(mock(Substituted(sourceString, "s"))) + [LF])
                  + (INDENT + TRANSLATION_END + [LF])))
  {
  }

  // ----- lines of the first run

  /** The state of the second run, which never is in a translation between what the first run
      wrote. */
  function Outside(m: Mocker): Mocker {
    m.(inTranslation := false)
  }

  /** One line of the first run: the second run, given what was written for it, writes the same. */
  lemma ReproducesLine(m: Mocker, line: string, mock: string -> string)
    requires TagFree(mock) && Consistent(m) && IsLine(line) && line[|line| - 1] == LF && Tame(m, [line])
    ensures var r := ProcessLine(m, line, mock);
            r.Done? && Runs(Outside(m), Written(r.events), mock, Outside(r.mocker), Written(r.events))
  {
    hide Classify, Written, TranslationText, Translation, Runs;
    var (m', starts, ends) := Advanced(m, line);
    RaisesExactly(m, line, mock);
    var r := ProcessLine(m, line, mock);
    if starts {
      assert !m.inSource;
      StartsWritten(m, line, mock);
      ReproducesTranslation(Outside(m), mock);
    } else if !m'.inTranslation && !ends {
      assert Advanced(Outside(m), line) == (m', false, false);
      assert r.events == [Copy(line)] && ProcessLine(Outside(m), line, mock) == Done(m', [Copy(line)]);
      assert m' == Outside(m');
      hide *;
      WrittenCopy(line);
      RunsNothing(m', mock);
      RunsLine(Outside(m), line, "", mock, m', m', "");
      assert line + "" == line;
    } else {
      assert Outside(m') == Outside(m);
      hide *;
      WrittenEat(line);
      RunsNothing(Outside(m), mock);
    }
  }

  lemma StartsWritten(m: Mocker, line: string, mock: string -> string)
    requires ProcessLine(m, line, mock).Done? && Advanced(m, line).1
    ensures Written(ProcessLine(m, line, mock).events) == TranslationText(m.sourceString, m.numerusMessage, mock)
    ensures Outside(ProcessLine(m, line, mock).mocker) == Outside(m)
  {
    hide Classify, Written, TranslationText, Translation;
    WrittenThenEaten(m.sourceString, m.numerusMessage, mock, line);
  }

  /** A last line without a line break is written with one, and then treated alike. */
  lemma ReproducesLast(m: Mocker, line: string, mock: string -> string) returns (m2: Mocker)
    requires TagFree(mock) && Consistent(m) && IsLine(line) && line[|line| - 1] != LF && Tame(m, [line])
    ensures var r := ProcessLine(m, line, mock);
            r.Done? && Runs(Outside(m), Written(r.events), mock, m2, Written(r.events))
  {
    hide Classify, Written, TranslationText, Translation, Runs;
    var (m', starts, ends) := Advanced(m, line);
    RaisesExactly(m, line, mock);
    var r := ProcessLine(m, line, mock);
    if starts {
      assert !m.inSource;
      hide *;
      StartsWritten(m, line, mock);
      ReproducesTranslation(Outside(m), mock);
      m2 := Outside(m);
    } else if !m'.inTranslation && !ends {
      assert LF !in line by {
        assert line == line[..|line| - 1] + [line[|line| - 1]];
      }
      CopyAgain(m, line, mock);
      assert r.events == [Copy(line)];
      hide *;
      WrittenCopy(line);
      WrittenCopy(line + [LF]);
      var r' := ProcessLine(Outside(m), line + [LF], mock);
      m2 := r'.mocker;
      RunsNothing(m2, mock);
      LineOf(line);
      RunsLine(Outside(m), line + [LF], "", mock, m2, m2, "");
      assert line + [LF] + "" == line + [LF];
    } else {
      WrittenEat(line);
      RunsNothing(Outside(m), mock);
      m2 := Outside(m);
    }
  }

  /** A line that is copied is copied again with a line break after it. */
  lemma CopyAgain(m: Mocker, line: string, mock: string -> string)
    requires Consistent(m) && Tame(m, [line])
    requires var (m', starts, ends) := Advanced(m, line); !starts && !m'.inTranslation && !ends
    ensures var r := ProcessLine(Outside(m), line + [LF], mock); r.Done? && r.events == [Copy(line + [LF])]
  {
    SameKind(line);
    hide Classify;
  }

  /** Running the mocker on its own output reproduces that output, for every file in which each
      unfinished translation ends before the next source. */
  lemma {:induction false} ReproducesLines(m: Mocker, lines: seq<string>, mock: string -> string) returns (m2: Mocker)
    requires TagFree(mock) && Consistent(m) && Tame(m, lines)
    requires forall i :: 0 <= i < |lines| ==> IsLine(lines[i])
    requires forall i :: 0 <= i < |lines| - 1 ==> Whole(lines[i])
    ensures var r := ProcessLines(m, lines, mock);
            r.Done? && Runs(Outside(m), Written(r.events), mock, m2, Written(r.events))
    decreases |lines|
  {
    if lines == [] {
      m2 := Outside(m);
      RunsNothing(m2, mock);
    } else {
      var line, rest := lines[0], lines[1..];
      TameNeverRaises(m, lines, mock);
      RaisesExactly(m, line, mock);
      var r1 := ProcessLine(m, line, mock);
      var r2 := ProcessLines(r1.mocker, rest, mock);
      assert Tame(m, [line]) by {
        assert Tame(Advanced(m, line).0, []);
      }
      WrittenConcat(r1.events, r2.events);
      if line[|line| - 1] == LF {
        ReproducesLine(m, line, mock);
        m2 := ReproducesLines(r1.mocker, rest, mock);
        WholeWritten(r1.events);
        RunsTwo(Outside(m), Written(r1.events), Written(r2.events), mock, Outside(r1.mocker), m2,
                Written(r1.events), Written(r2.events));
      } else {
        assert rest == [];
        m2 := ReproducesLast(m, line, mock);
        assert Written(r1.events) + Written(r2.events) == Written(r1.events);
      }
    }
  }

  lemma {:induction false} WholeWritten(events: seq<Event>)
    ensures Whole(Written(events))
  {
    if events != [] {
      WholeWritten(events[1..]);
    }
  }

  lemma {:induction false} SplitLinesWhole(text: string, i: nat)
    requires i < |SplitLines(text)| - 1
    ensures var line := SplitLines(text)[i]; line != "" && line[|line| - 1] == LF
    decreases |text|
  {
    var n := LineLength(text);
    if i > 0 {
      SplitLinesWhole(text[n..], i - 1);
    }
  }

  /** The whole file: the output of the second run is the output of the first. */
  lemma IsAFixpoint(file: string, mock: string -> string)
    requires TagFree(mock) && Tame(START, SplitLines(file))
    ensures var first := ProcessLines(START, SplitLines(file), mock);
            && first.Done?
            && var second := ProcessLines(START, SplitLines(Written(first.events)), mock);
               second.Done? && Written(second.events) == Written(first.events)
  {
    var lines := SplitLines(file);
    SplitLinesAre(file);
    hide *;
    var m2 := ReproducesLines(START, lines, mock);
    RunsIs(Outside(START), Written(ProcessLines(START, lines, mock).events), mock, m2,
           Written(ProcessLines(START, lines, mock).events));
    OutsideStart();
  }

  lemma SplitLinesAre(file: string)
    ensures var lines := SplitLines(file);
            && (forall i :: 0 <= i < |lines| ==> IsLine(lines[i]))
            && (forall i :: 0 <= i < |lines| - 1 ==> Whole(lines[i]))
    ensures Consistent(START)
  {
    var lines := SplitLines(file);
    forall i | 0 <= i < |lines|
      ensures IsLine(lines[i])
      ensures i < |lines| - 1 ==> Whole(lines[i])
    {
      assert lines[i] in lines;
      if i < |lines| - 1 {
        SplitLinesWhole(file, i);
      }
    }
  }

  lemma OutsideStart()
    ensures Outside(START) == START
  {
  }

  lemma RunsIs(m: Mocker, text: string, mock: string -> string, m': Mocker, out: string)
    requires Runs(m, text, mock, m', out)
    ensures var r := ProcessLines(m, SplitLines(text), mock); r.Done? && Written(r.events) == out
  {
    hide ProcessLines, SplitLines, Written;
  }

  /** A file made of messages, each one source and then one translation, is processed without
      raising, and its output is a fixpoint. */
  lemma WellFormedIsFixpoint(file: string, mock: string -> string)
    requires TagFree(mock) && WellFormed(Between, SplitLines(file))
    ensures var first := ProcessLines(START, SplitLines(file), mock);
            && first.Done?
            && var second := ProcessLines(START, SplitLines(Written(first.events)), mock);
               second.Done? && Written(second.events) == Written(first.events)
  {
    WellFormedIsTame(START, Between, SplitLines(file));
    IsAFixpoint(file, mock);
  }
}
