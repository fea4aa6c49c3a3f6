/** Single lines in plain characters: what opencv-test/play-frame/SimpleIni.h makes of them, and how it
    writes them. */
module IniLines {
  import opened Options
  import opened IniText
  import opened IniRoundTrip

  predicate OneLine(line: string) { forall i :: 0 <= i < |line| ==> line[i] != '\n' && line[i] != '\r' }

  /** LF, CR LF, or a CR that no LF follows. */
  predicate EndsLine(eol: string, rest: string) {
    eol == "\n" || eol == "\r\n" || (eol == "\r" && (rest == [] || rest[0] != '\n'))
  }

  lemma LineRead(line: string, eol: string, rest: string)
    requires OneLine(line) && EndsLine(eol, rest)
    ensures Take(AtNewLine, line + (eol + rest)) == line && Drop(AtNewLine, line + (eol + rest)) == eol + rest
    ensures SkipNewLine(eol + rest) == rest
  {
    TakeDrop(AtNewLine, line, eol + rest);
    hide Take, Drop;
    if eol == "\r\n" {
      assert (eol + rest)[2..] == rest;
    } else {
      assert (eol + rest)[1..] == rest;
    }
  }

  // ---- comments ----

  lemma {:induction false} RunIgnoresAcc(s: string, acc: string, acc': string, blanks: bool)
    ensures CommentRun(s, acc, blanks).rest == CommentRun(s, acc', blanks).rest
    decreases |s|
  {
    if s != [] && IsComment(s[0]) {
      var line, z := Take(AtNewLine, s), Drop(AtNewLine, s);
      if z != [] {
        RunIgnoresAcc(SkipNewLine(z), acc + line + "\n", acc' + line + "\n", blanks);
      }
    } else {
      var t := DropSpaces(s);
      if blanks && t != [] && IsComment(t[0]) {
        RunIgnoresAcc(t, acc + NewLines(BlankLines(s)), acc' + NewLines(BlankLines(s)), blanks);
      }
    }
  }

  lemma RunOfLine(line: string, eol: string, rest: string, blanks: bool)
    requires OneLine(line) && line != [] && (line[0] == ';' || line[0] == '#') && EndsLine(eol, rest)
    ensures CommentRun(line + (eol + rest), "", blanks).rest == CommentRun(rest, "", blanks).rest
  {
    LineRead(line, eol, rest);
    RunIgnoresAcc(rest, "" + line + "\n", "", blanks);
    hide Take, Drop, SkipNewLine;
  }

  lemma FindAfterRun(cfg: Config, s: string, section: string, val: string)
    ensures FindEntry(cfg, CommentRun(s, "", true).rest, section, val) == FindEntry(cfg, s, section, val)
  {
    hide Take, Drop, TrimRight, Head, ReadValue, SkipNewLine, Ended;
    var t := DropSpaces(s);
    if s != [] && IsComment(s[0]) {
      assert t == s;
    } else if t != [] && IsComment(t[0]) {
      RunIgnoresAcc(t, "" + NewLines(BlankLines(s)), "", true);
      assert DropSpaces(t) == t;
    }
  }

  /** A comment line, with either mark and any end of line, has no effect on the entries after it. */
  lemma CommentLineSkipped(cfg: Config, line: string, eol: string, rest: string, section: string, val: string)
    requires OneLine(line) && line != [] && (line[0] == ';' || line[0] == '#') && EndsLine(eol, rest)
    ensures FindEntry(cfg, line + (eol + rest), section, val) == FindEntry(cfg, rest, section, val)
  {
    RunOfLine(line, eol, rest, true);
    FindAfterRun(cfg, line + (eol + rest), section, val);
    FindAfterRun(cfg, rest, section, val);
    hide FindEntry, CommentRun;
  }

  /** Nor has one at the very start of the text, where it is part of the comment of the file. */
  lemma FileCommentSkipped(cfg: Config, line: string, eol: string, rest: string)
    requires OneLine(line) && line != [] && (line[0] == ';' || line[0] == '#') && EndsLine(eol, rest)
    ensures Load(cfg, line + (eol + rest)) == Load(cfg, rest)
    ensures forall st :: LoadMore(cfg, line + (eol + rest), false, st) == LoadMore(cfg, rest, false, st)
  {
    RunOfLine(line, eol, rest, false);
    assert AfterFileComment(rest) == CommentRun(rest, "", false).rest;
    assert AfterFileComment(line + (eol + rest)) == AfterFileComment(rest);
    hide CommentRun;
  }

  // ---- lines that are no entry ----

  /** Unless keys may stand alone, a line without an equals sign that opens neither a section nor a comment
      has no effect; a line that opens with the equals sign never has one. */
  lemma NoEntrySkipped(cfg: Config, line: string, eol: string, rest: string, section: string, val: string)
    requires OneLine(line) && line != [] && EndsLine(eol, rest)
    requires line[0] == '=' || (
      && !cfg.keyOnly && (forall i :: 0 <= i < |line| ==> line[i] != '=')
      && line[0] != ' ' && line[0] != '\t' && line[0] != '[' && line[0] != ';' && line[0] != '#')
    ensures FindEntry(cfg, line + (eol + rest), section, val) == FindEntry(cfg, rest, section, val)
  {
    var s := line + (eol + rest);
    assert DropSpaces(s) == s;
    if line[0] == '=' {
      assert Drop(AtEquals, s) == s;
      LineRead(line, eol, rest);
    } else {
      TakeDrop(AtEquals, line, eol + rest);
    }
    assert FindEntry(cfg, s, section, val) == FindEntry(cfg, eol + rest, section, val) by {
      hide Take, Drop, TrimRight, Head, ReadValue, SkipNewLine, Ended, CommentRun, DropSpaces;
    }
    FindAfterSpaces(cfg, eol, rest, section, val);
    hide FindEntry;
  }

  /** White space before a line, blank lines included, has no effect. */
  lemma BlanksSkipped(cfg: Config, blanks: string, rest: string, section: string, val: string)
    requires forall i :: 0 <= i < |blanks| ==> blanks[i] == ' ' || blanks[i] == '\t' || blanks[i] == '\n' || blanks[i] == '\r'
    ensures FindEntry(cfg, blanks + rest, section, val) == FindEntry(cfg, rest, section, val)
  {
    FindAfterSpaces(cfg, blanks, rest, section, val);
  }

  // ---- white space within a line ----

  predicate Blanks(s: string) { forall i :: 0 <= i < |s| ==> s[i] == ' ' || s[i] == '\t' }

  lemma {:induction false} BlanksTrimmed(s: string, b: string)
    requires Blanks(b) && (s == [] || !IsSpace(s[|s| - 1]))
    ensures TrimRight(s + b) == s
    decreases |b|
  {
    if b == [] {
      assert s + b == s;
    } else {
      assert (s + b)[..|s + b| - 1] == s + b[..|b| - 1] && (s + b)[|s + b| - 1] == b[|b| - 1];
      BlanksTrimmed(s, b[..|b| - 1]);
    }
  }

  lemma {:induction false} BlanksDropped(b: string, s: string)
    requires Blanks(b) && (s == [] || !IsSpace(s[0]) || IsNewLine(s[0]))
    ensures DropBlanks(b + s) == s
  {
    if b == [] {
      assert b + s == s;
    } else {
      assert (b + s)[1..] == b[1..] + s;
      BlanksDropped(b[1..], s);
    }
  }

  /** A text that neither begins nor ends with a blank, if there is any text. */
  predicate Visible(s: string) {
    s != [] ==> s[0] != ' ' && s[0] != '\t' && s[|s| - 1] != ' ' && s[|s| - 1] != '\t'
  }

  lemma ValueRead(b: string, v: string, b': string, eol: string, rest: string)
    requires Blanks(b) && OneLine(v) && Visible(v) && Blanks(b') && EndsLine(eol, rest)
    ensures var v0 := DropBlanks(b + (v + (b' + (eol + rest))));
      TrimRight(Take(AtNewLine, v0)) == v && SkipNewLine(Drop(AtNewLine, v0)) == rest
  {
    var z := eol + rest;
    var w := if v == [] then [] else b';
    if v == [] {
      assert v + (b' + z) == b' + z && b + (b' + z) == (b + b') + z;
      BlanksDropped(b + b', z);
      assert v + w + z == z;
    } else {
      BlanksDropped(b, v + (b' + z));
      assert v + w + z == v + (b' + z);
    }
    LineRead(v + w, eol, rest);
    BlanksTrimmed(v, w);
    hide Take, Drop, DropBlanks, TrimRight, SkipNewLine;
  }

  /** A key with a value on its line: blanks around either, and any end of line, change nothing, and quotes
      around the value count only when quoting is on. */
  lemma KeyLineRead(cfg: Config, key: string, b: string, b': string, v: string, b'': string, eol: string, rest: string,
                    section: string, val: string)
    requires key != [] && OneLine(key) && Visible(key) && (forall i :: 0 <= i < |key| ==> key[i] != '=')
    requires key[0] != '[' && key[0] != ';' && key[0] != '#'
    requires Blanks(b) && Blanks(b') && OneLine(v) && Visible(v) && Blanks(b'') && EndsLine(eol, rest)
    requires cfg.multiLine ==> !("<<<" <= v)
    ensures var read := if cfg.quotes && |v| >= 2 && v[0] == '"' && v[|v| - 1] == '"' then v[1..|v| - 1] else v;
      FindEntry(cfg, (key + b) + ("=" + (b' + (v + (b'' + (eol + rest))))), section, val)
      == Some(Entry(section, Some(key), read, rest, read))
  {
    var after := b' + (v + (b'' + (eol + rest)));
    ValueRead(b', v, b'', eol, rest);
    BlanksTrimmed(key, b);
    KeyFound(cfg, key, b, after, section, val);
    assert ReadValue(cfg, after) == ValueOf(cfg, v, rest);
    hide FindEntry, ReadValue;
  }

  lemma KeyFound(cfg: Config, key: string, b: string, after: string, section: string, val: string)
    requires key != [] && OneLine(key) && Visible(key) && (forall i :: 0 <= i < |key| ==> key[i] != '=')
    requires key[0] != '[' && key[0] != ';' && key[0] != '#'
    requires Blanks(b) && TrimRight(key + b) == key && !ReadValue(cfg, after).NoLines?
    ensures var r := ReadValue(cfg, after);
      FindEntry(cfg, (key + b) + ("=" + after), section, val) == Some(Entry(section, Some(key), Ended(cfg, r), r.rest, r.val))
  {
    hide ReadValue, Ended, Head, CommentRun, TrimRight, SkipNewLine;
    var t := (key + b) + ("=" + after);
    assert t[0] == key[0] && DropSpaces(t) == t;
    assert NoStop(AtEquals, key + b);
    TakeDrop(AtEquals, key + b, "=" + after);
    assert ("=" + after)[1..] == after;
    hide Take, Drop, DropSpaces;
  }

  /** Likewise for a section header, behind which the rest of the line counts for nothing. */
  lemma HeaderRead(cfg: Config, b: string, name: string, b': string, more: string, eol: string, rest: string,
                   section: string, val: string)
    requires Blanks(b) && OneLine(name) && Visible(name) && (forall i :: 0 <= i < |name| ==> name[i] != ']') && Blanks(b')
    requires OneLine(more) && EndsLine(eol, rest)
    ensures FindEntry(cfg, "[" + (b + ((name + b') + ("]" + (more + (eol + rest))))), section, val)
         == Some(Entry(name, None, "", eol + rest, ""))
  {
    var w := "]" + (more + (eol + rest));
    var u := (name + b') + w;
    var t := "[" + (b + u);
    assert t[1..] == b + u && w[1..] == more + (eol + rest);
    if name == [] {
      assert b + u == (b + b') + w && DropSpaces(w) == w;
      SpacesGone(b + b', w);
      TakeDrop(AtBracket, "", w);
      assert "" + w == w;
    } else {
      assert u[0] == name[0] && DropSpaces(u) == u;
      SpacesGone(b, u);
      TakeDrop(AtBracket, name + b', w);
      BlanksTrimmed(name, b');
    }
    LineRead(more, eol, rest);
    HeaderFound(cfg, t, section, val);
    hide FindEntry, Take, Drop, DropSpaces, TrimRight;
  }

  lemma HeaderFound(cfg: Config, t: string, section: string, val: string)
    requires t != [] && t[0] == '['
    requires var w := Drop(AtBracket, DropSpaces(t[1..])); w != [] && w[0] == ']'
    ensures var u := DropSpaces(t[1..]);
      FindEntry(cfg, t, section, val)
      == Some(Entry(TrimRight(Take(AtBracket, u)), None, "", Drop(AtNewLine, Drop(AtBracket, u)[1..]), ""))
  {
    assert DropSpaces(t) == t;
    hide Take, Drop, DropSpaces, TrimRight, ReadValue, CommentRun, Head;
  }

  // ---- what Save writes ----

  /** A value is written in quotes when it begins with a blank or a newline, or ends with a blank and has no
      newline; otherwise as a block when it has a newline or ends with a blank; each only where it is on. */
  lemma ValueWritten(cfg: Config, v: string)
    ensures var before := v != [] && (v[0] == ' ' || v[0] == '\t' || v[0] == '\n' || v[0] == '\r');
      var after := v != [] && (v[|v| - 1] == ' ' || v[|v| - 1] == '\t');
      ValueText(cfg, v) ==
        if cfg.quotes && (before || (after && OneLine(v))) then "\"" + v + "\""
        else if cfg.multiLine && (before || after || !OneLine(v)) then "<<<END_OF_TEXT\n" + v + "\nEND_OF_TEXT"
        else v
  {
    assert HasNewLine(v) <==> !OneLine(v);
    if IsMultiLineData(v) {
      OutputIs(v);
      assert "<<<" + END_TAG + "\n" == "<<<END_OF_TEXT\n";
      assert "<<<" + END_TAG + "\n" + (v + "\n") + END_TAG == "<<<END_OF_TEXT\n" + v + "\nEND_OF_TEXT";
    }
    hide HasNewLine, OneLine, Output;
  }

  /** The section without a name comes first, and two empty lines separate sections. */
  lemma UnnamedFirst(cfg: Config, s: Section, e: Section)
    requires s.name != [] && e.name == []
    ensures Save(cfg, [s, e]) == SectionText(cfg, e) + ("\n\n" + SectionText(cfg, s))
  {
    hide SectionText;
    assert FindEmptyName([s, e][1..]) == 0 && FindEmptyName([s, e]) == 1;
    assert EmptyFirst([s, e]) == [e, s];
    hide EmptyFirst;
    assert [e, s][1..] == [s];
    assert SectionsText(cfg, [s]) == SectionText(cfg, s);
  }

  /** Blanks stand around the equals sign when they are wanted, and an empty value has no equals sign when
      keys may stand alone. */
  lemma OneKeyWritten(cfg: Config, name: string, kv: KeyVal)
    ensures SectionText(cfg, Section(name, [kv])) == (if name != [] then "[" + name + "]\n" else "")
      + (kv.key + (if kv.val == [] && cfg.keyOnly then "" else (if cfg.spaces then " = " else "=") + ValueText(cfg, kv.val)) + "\n")
  {
    hide ValueText;
    assert [kv][1..] == [] && KeysText(cfg, []) == "";
    var line, shown := KeyText(cfg, kv), (if cfg.spaces then " = " else "=") + ValueText(cfg, kv.val);
    assert line == kv.key + (if kv.val == [] && cfg.keyOnly then "" else shown) + "\n";
    hide KeyText;
    assert KeysText(cfg, [kv]) == line + "" == line;
    assert "[" + name + "]" + "\n" == "[" + name + "]\n";
  }
}
