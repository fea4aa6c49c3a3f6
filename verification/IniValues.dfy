/** Which values survive being written and read (opencv-test/play-frame/SimpleIni.h): the condition
    under which the round trip was proved cannot be weakened. */
module IniValues {
  import opened IniText
  import opened IniRoundTrip

  lemma {:induction false} TakeNoStop(k: Stop, s: string)
    ensures NoStop(k, Take(k, s))
  {
    if s != [] && !Stops(k, s[0]) {
      TakeNoStop(k, s[1..]);
    }
  }

  lemma {:induction false} TrimRightEnds(s: string)
    ensures TrimRight(s) == [] || !IsSpace(TrimRight(s)[|TrimRight(s)| - 1])
    ensures s != [] && !IsSpace(s[0]) ==> TrimRight(s) != []
  {
    if s != [] && IsSpace(s[|s| - 1]) {
      TrimRightEnds(s[..|s| - 1]);
    }
  }

  lemma {:induction false} DropBlanksStarts(s: string)
    ensures var r := DropBlanks(s); r == [] || !IsSpace(r[0]) || IsNewLine(r[0])
  {
    if s != [] && IsSpace(s[0]) && !IsNewLine(s[0]) {
      DropBlanksStarts(s[1..]);
    }
  }

  /** What is read from one line has no newline in it, and no blank at either end unless quoted. */
  lemma OneLine(cfg: Config, s: string)
    ensures var v := TrimRight(Take(AtNewLine, DropBlanks(s)));
      NoStop(AtNewLine, v) && (v == [] || Trimmed(v))
  {
    var v0 := DropBlanks(s);
    var line := Take(AtNewLine, v0);
    DropBlanksStarts(s);
    TakeNoStop(AtNewLine, v0);
    TrimRightEnds(line);
    assert line != [] ==> line[0] == v0[0] && !IsNewLine(line[0]);
  }

  /** Multi-line text never contains a CR. */
  lemma {:induction false} LinesHaveNoReturn(cfg: Config, s: string, tag: string, acc: string, moved: bool)
    requires NoCarriageReturn(acc)
    ensures var r := LoadLines(cfg, s, tag, acc, moved); r.Lines? ==> NoCarriageReturn(r.val)
    decreases |s|
  {
    hide Same, Take, Drop, TrimTail, SkipNewLine;
    var line, z := Take(AtNewLine, s), Drop(AtNewLine, s);
    LineHasNoReturn(s);
    if z != [] {
      var acc' := acc + line + "\n";
      assert NoCarriageReturn(acc');
      LinesHaveNoReturn(cfg, SkipNewLine(z), tag, acc', moved || (z[0] == '\r' && |z| > 1 && z[1] == '\n'));
    }
  }

  lemma LineHasNoReturn(s: string)
    ensures NoCarriageReturn(Take(AtNewLine, s)) && NoCarriageReturn(TrimTail(Take(AtNewLine, s)))
  {}

  /** A line that reads as the end tag ends the block too early: more text is left than should be. */
  lemma {:induction false} TagLineCuts(cfg: Config, v: string, acc: string, rest: string)
    requires NoCarriageReturn(v) && !NoTagLine(cfg, v)
    ensures var r := LoadLines(cfg, v + "\n" + rest, END_TAG, acc, false); r.Lines? ==> |r.rest| >= |rest|
    decreases |v|
  {
    hide Same, LoadLines, TrimTail;
    var n := LineTo(v);
    var line := v[..n];
    LineIs(v);
    var v' := if n == |v| then [] else v[n + 1..];
    var more := if n == |v| then rest else v' + "\n" + rest;
    assert v + "\n" + rest == line + "\n" + more;
    if Same(cfg, TrimTail(line), END_TAG) {
      TagCuts(cfg, line, more, acc);
    } else {
      LineRead(cfg, END_TAG, line, more, acc);
      TagLineCuts(cfg, v', acc + line + "\n", rest);
    }
  }

  lemma TagCuts(cfg: Config, line: string, more: string, acc: string)
    requires NoStop(AtNewLine, line) && Same(cfg, TrimTail(line), END_TAG)
    ensures var r := LoadLines(cfg, line + "\n" + more, END_TAG, acc, false); r.Lines? ==> r.rest == more
  {
    var s := line + "\n" + more;
    assert s == line + ("\n" + more);
    TakeDrop(AtNewLine, line, "\n" + more);
    assert SkipNewLine("\n" + more) == more;
  }

  lemma BadQuoted(cfg: Config, sep: string, v: string)
    requires sep == "" || sep == " "
    requires cfg.quotes && IsSingleLineQuotedValue(v) && !NoStop(AtNewLine, v)
    ensures ReadValue(cfg, sep + ("\"" + v + "\"") + "\n" + "") != Lines(v, "")
  {
    var s := sep + ("\"" + v + "\"") + "\n" + "";
    var s1 := "\"" + v + "\"" + "\n";
    assert s == sep + s1 && s1[0] == '"';
    hide TrimRight, Take, DropBlanks, SkipNewLine, Drop, ValueOf, NoStop;
    BlanksGone(sep, s1);
    OneLine(cfg, s);
    FirstKept(s1);
    OneLineOnly(cfg, TrimRight(Take(AtNewLine, s1)), SkipNewLine(Drop(AtNewLine, s1)), v);
  }

  lemma OneLineOnly(cfg: Config, line: string, rest: string, v: string)
    requires NoStop(AtNewLine, line) && !NoStop(AtNewLine, v) && line != [] && line[0] == '"'
    ensures ValueOf(cfg, line, rest) != Lines(v, "")
  {}

  lemma FirstKept(s: string)
    requires s != [] && !IsSpace(s[0])
    ensures TrimRight(Take(AtNewLine, s)) != [] && TrimRight(Take(AtNewLine, s))[0] == s[0]
  {
    var line := Take(AtNewLine, s);
    assert line[0] == s[0];
    TrimRightEnds(line);
  }

  lemma BadBlock(cfg: Config, sep: string, v: string)
    requires sep == "" || sep == " "
    requires cfg.multiLine && v != [] && !(NoCarriageReturn(v) && NoTagLine(cfg, v))
    ensures ReadValue(cfg, sep + ("<<<" + END_TAG + "\n" + Output(v) + END_TAG) + "\n" + "") != Lines(v, "")
  {
    hide LoadLines, NoTagLine, Output;
    OutputIs(v);
    var line := "<<<" + END_TAG;
    var tail := END_TAG + "\n";
    var body := v + "\n" + tail;
    Reassociate(sep, line, v + "\n", END_TAG, "");
    assert v + "\n" + END_TAG + "\n" + "" == body;
    assert line == "<<<END_OF_TEXT";
    LineValue(cfg, sep, line, body);
    assert HasTag(line) && line[3..] == END_TAG;
    if NoCarriageReturn(v) {
      TagLineCuts(cfg, v, "", tail);
    } else {
      LinesHaveNoReturn(cfg, body, END_TAG, "", false);
    }
  }

  lemma BadPlain(cfg: Config, sep: string, v: string)
    requires sep == "" || sep == " "
    requires v != [] && !(cfg.quotes && IsSingleLineQuotedValue(v)) && !(cfg.multiLine && IsMultiLineData(v))
    requires !(Trimmed(v) && NoStop(AtNewLine, v) && !(cfg.multiLine && HasTag(v))
      && !(cfg.quotes && |v| >= 2 && v[0] == '"' && v[|v| - 1] == '"'))
    ensures ReadValue(cfg, sep + v + "\n" + "") != Lines(v, "")
  {
    var s := sep + v + "\n" + "";
    if !NoStop(AtNewLine, v) {
      hide ReadValue;
      assert HasNewLine(v);
      NewLineLost(cfg, s, v);
    } else if !Trimmed(v) {
      hide ReadValue;
      BlankLost(cfg, s, v);
    } else {
      hide Take, Drop, DropBlanks, TrimRight, SkipNewLine, LoadLines, NoStop, Trimmed;
      LineValue(cfg, sep, v, "");
      if cfg.multiLine && HasTag(v) {
        NothingTagged(cfg, v[3..]);
      }
    }
  }

  lemma NewLineLost(cfg: Config, s: string, v: string)
    requires !cfg.multiLine && !NoStop(AtNewLine, v)
    ensures ReadValue(cfg, s) != Lines(v, "")
  {
    hide Take, Drop, TrimRight, DropBlanks, SkipNewLine, LoadLines, Stops;
    OneLine(cfg, s);
  }

  lemma BlankLost(cfg: Config, s: string, v: string)
    requires !cfg.multiLine && !cfg.quotes && v != [] && !Trimmed(v)
    ensures ReadValue(cfg, s) != Lines(v, "")
  {
    hide Take, Drop, TrimRight, DropBlanks, SkipNewLine, LoadLines, NoStop;
    OneLine(cfg, s);
  }

  lemma NothingTagged(cfg: Config, tag: string)
    ensures var r := LoadLines(cfg, "", tag, "", false); r.NoLines? || r.val == ""
  {}

  ghost predicate Survives(cfg: Config, sep: string, v: string) {
    forall rest :: ReadValue(cfg, sep + ValueText(cfg, v) + "\n" + rest) == Lines(v, rest)
  }

  /** A value survives, whatever text follows it, if and only if ValueOk holds of it. */
  lemma SurvivesIff(cfg: Config, sep: string, v: string)
    requires sep == "" || sep == " "
    ensures Survives(cfg, sep, v) <==> ValueOk(cfg, v)
  {
    hide ReadValue, NoTagLine, Output;
    if ValueOk(cfg, v) {
      forall rest ensures ReadValue(cfg, sep + ValueText(cfg, v) + "\n" + rest) == Lines(v, rest) {
        ReadWritten(cfg, sep, v, rest);
      }
    } else {
      if cfg.quotes && IsSingleLineQuotedValue(v) {
        BadQuoted(cfg, sep, v);
      } else if cfg.multiLine && IsMultiLineData(v) {
        BadBlock(cfg, sep, v);
      } else {
        BadPlain(cfg, sep, v);
      }
      assert ReadValue(cfg, sep + ValueText(cfg, v) + "\n" + "") != Lines(v, "");
    }
  }
}
