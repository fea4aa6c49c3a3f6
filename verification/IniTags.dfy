/** Multi-line blocks with any tag (opencv-test/play-frame/SimpleIni.h): when a block reads as its lines. */
module IniTags {
  import opened Options
  import opened IniText
  import opened IniRoundTrip

  // ---- lines as they stand in a file ----

  function Eol(crlf: bool): string { if crlf then "\r\n" else "\n" }

  /** The lines, each with its own kind of newline. */
  function RawText(lines: seq<string>, crlf: seq<bool>): string
    requires |lines| == |crlf|
  {
    if lines == [] then "" else lines[0] + Eol(crlf[0]) + RawText(lines[1..], crlf[1..])
  }

  /** The same lines with LF. */
  function LinesText(lines: seq<string>): string {
    if lines == [] then "" else lines[0] + "\n" + LinesText(lines[1..])
  }

  lemma LineSplit(line: string, crlf: bool, more: string)
    requires NoStop(AtNewLine, line)
    ensures var s := line + Eol(crlf) + more; var z := Drop(AtNewLine, s);
      && Take(AtNewLine, s) == line && z == Eol(crlf) + more && z != [] && SkipNewLine(z) == more
      && (crlf <==> z[0] == '\r' && |z| > 1 && z[1] == '\n')
  {
    var z := Eol(crlf) + more;
    assert line + Eol(crlf) + more == line + z;
    TakeDrop(AtNewLine, line, z);
  }

  /** One line that is not the tag is taken over. */
  lemma RawLineRead(cfg: Config, tag: string, line: string, crlf: bool, more: string, acc: string, moved: bool)
    requires NoStop(AtNewLine, line) && !Same(cfg, if moved then line else TrimTail(line), tag)
    ensures LoadLines(cfg, line + Eol(crlf) + more, tag, acc, moved)
         == LoadLines(cfg, more, tag, acc + line + "\n", moved || crlf)
  {
    LineSplit(line, crlf, more);
    hide Take, Drop, SkipNewLine, Same, TrimTail;
  }

  /** A tag has no blank at its end, so a line that is the tag is also the tag once it is trimmed. */
  lemma NotWhole(cfg: Config, line: string, tag: string)
    requires tag == [] || Trimmed(tag)
    ensures Same(cfg, line, tag) ==> Same(cfg, TrimTail(line), tag)
  {
    SameIsFold(cfg, line, tag);
    if Same(cfg, line, tag) && |line| > 1 {
      assert Fold(cfg, line)[|line| - 1] == Fold(cfg, tag)[|tag| - 1];
    }
  }

  lemma {:induction false} RawLinesRead(cfg: Config, tag: string, lines: seq<string>, crlf: seq<bool>, acc: string,
                                        tail: string, moved: bool)
    requires |lines| == |crlf| && (tag == [] || Trimmed(tag))
    requires forall i :: 0 <= i < |lines| ==> NoStop(AtNewLine, lines[i]) && !Same(cfg, TrimTail(lines[i]), tag)
    ensures LoadLines(cfg, RawText(lines, crlf) + tail, tag, acc, moved)
         == LoadLines(cfg, tail, tag, acc + LinesText(lines), moved || true in crlf)
  {
    hide LoadLines, Same, TrimTail, NoStop, Trimmed, Eol;
    if lines == [] {
      assert "" + tail == tail && acc + "" == acc;
    } else {
      var line, more, text := lines[0], RawText(lines[1..], crlf[1..]), LinesText(lines[1..]);
      assert RawText(lines, crlf) + tail == line + Eol(crlf[0]) + (more + tail);
      NotWhole(cfg, line, tag);
      RawLineRead(cfg, tag, line, crlf[0], more + tail, acc, moved);
      RawLinesRead(cfg, tag, lines[1..], crlf[1..], acc + line + "\n", tail, moved || crlf[0]);
      assert acc + line + "\n" + text == acc + LinesText(lines);
      assert crlf == [crlf[0]] + crlf[1..];
    }
  }

  // ---- the tag line ----

  predicate Blanks(b: string) { forall i :: 0 <= i < |b| ==> IsSpace(b[i]) && !IsNewLine(b[i]) }

  lemma {:induction false} BlanksTrimmed(tag: string, blanks: string)
    requires Trimmed(tag) && Blanks(blanks)
    ensures TrimTail(tag + blanks) == tag
  {
    var s := tag + blanks;
    if blanks == [] {
      assert s == tag;
    } else {
      var fewer := blanks[..|blanks| - 1];
      assert s[..|s| - 1] == tag + fewer && IsSpace(s[|s| - 1]);
      BlanksTrimmed(tag, fewer);
    }
  }

  /** What the tag line is compared as. */
  predicate Recognised(tag: string, blanks: string, moved: bool) { blanks == [] || (tag != [] && !moved) }

  lemma TagSeen(cfg: Config, tag: string, blanks: string, moved: bool)
    requires (tag == [] || Trimmed(tag)) && Blanks(blanks)
    ensures Same(cfg, if moved then tag + blanks else TrimTail(tag + blanks), tag) <==> Recognised(tag, blanks, moved)
    ensures Recognised(tag, blanks, moved) ==> (if moved then tag + blanks else TrimTail(tag + blanks)) == tag
  {
    var line := tag + blanks;
    var shown := if moved then line else TrimTail(line);
    if tag != [] {
      BlanksTrimmed(tag, blanks);
    } else {
      assert line == blanks && (blanks != [] ==> TrimTail(blanks) != []) by { TrimTailLeaves(blanks); }
    }
    assert blanks == [] ==> line == tag;
    SameIsFold(cfg, shown, tag);
    assert |Fold(cfg, shown)| == |shown| && |Fold(cfg, tag)| == |tag|;
  }

  lemma {:induction false} TrimTailLeaves(s: string)
    ensures s != [] ==> TrimTail(s) != []
  {
    if |s| > 1 && IsSpace(s[|s| - 1]) {
      TrimTailLeaves(s[..|s| - 1]);
    }
  }

  /** Behind a line, reading always gives a value, and no line gets lost. */
  lemma {:induction false} LinesKept(cfg: Config, s: string, tag: string, acc: string, moved: bool)
    requires acc != []
    ensures var r := LoadLines(cfg, s, tag, acc, moved); r.Lines? && |r.val| >= |acc| - 1
    decreases |s|
  {
    hide Same, Take, Drop, TrimTail, SkipNewLine;
    var line, z := Take(AtNewLine, s), Drop(AtNewLine, s);
    if z != [] {
      LinesKept(cfg, SkipNewLine(z), tag, acc + line + "\n", moved || (z[0] == '\r' && |z| > 1 && z[1] == '\n'));
    }
  }

  lemma BlanksNoStop(tag: string, blanks: string)
    requires NoStop(AtNewLine, tag) && Blanks(blanks)
    ensures NoStop(AtNewLine, tag + blanks)
  {}

  /** The tag line behind some lines ends the block, or is a line like any other. */
  lemma TagLineRead(cfg: Config, tag: string, blanks: string, crlf: bool, rest: string, acc: string, moved: bool)
    requires acc != [] && (tag == [] || Trimmed(tag)) && NoStop(AtNewLine, tag) && Blanks(blanks)
    ensures var r := LoadLines(cfg, tag + blanks + Eol(crlf) + rest, tag, acc, moved);
      if Recognised(tag, blanks, moved) then r == Lines(acc[..|acc| - 1], rest)
      else r.Lines? && |r.val| >= |acc|
  {
    BlanksNoStop(tag, blanks);
    TagSeen(cfg, tag, blanks, moved);
    LineSplit(tag + blanks, crlf, rest);
    if !Recognised(tag, blanks, moved) {
      hide LoadLines;
      RawLineRead(cfg, tag, tag + blanks, crlf, rest, acc, moved);
      LinesKept(cfg, rest, tag, acc + (tag + blanks) + "\n", moved || crlf);
    }
  }

  /** A tag line that comes first gives a value without an end, the tag itself, the lines behind it, or
      nothing, but never the empty value. */
  lemma TagLineFirst(cfg: Config, tag: string, blanks: string, crlf: bool, rest: string)
    requires (tag == [] || Trimmed(tag)) && NoStop(AtNewLine, tag) && Blanks(blanks)
    ensures var r := LoadLines(cfg, tag + blanks + Eol(crlf) + rest, tag, "", false); r.Lines? ==> r.val != []
  {
    BlanksNoStop(tag, blanks);
    TagSeen(cfg, tag, blanks, false);
    LineSplit(tag + blanks, crlf, rest);
    if !Recognised(tag, blanks, false) {
      hide LoadLines;
      RawLineRead(cfg, tag, tag + blanks, crlf, rest, "", false);
      LinesKept(cfg, rest, tag, "" + (tag + blanks) + "\n", false || crlf);
    }
  }

  /** Exactly when a block reads as its lines, with the text behind the tag line left over, for every tag,
      lines that are not the tag, newlines of either kind and blanks behind the tag: it has a line, and the
      tag line carries no blanks, or no CR LF has shortened the block before it (and the tag is not empty). */
  lemma BlockReadsIff(cfg: Config, tag: string, lines: seq<string>, crlf: seq<bool>, blanks: string, tagCrlf: bool, rest: string)
    requires (tag == [] || Trimmed(tag)) && NoStop(AtNewLine, tag) && |lines| == |crlf| && Blanks(blanks)
    requires forall i :: 0 <= i < |lines| ==> NoStop(AtNewLine, lines[i]) && !Same(cfg, TrimTail(lines[i]), tag)
    ensures var text := LinesText(lines);
      var val := if text == [] then [] else text[..|text| - 1];
      var r := LoadLines(cfg, RawText(lines, crlf) + (tag + blanks + Eol(tagCrlf) + rest), tag, "", false);
      r == Lines(val, rest) <==> lines != [] && (blanks == [] || (tag != [] && true !in crlf))
  {
    hide LoadLines, Same, TrimTail, NoStop, Trimmed, Eol, Blanks;
    var text, tail := LinesText(lines), tag + blanks + Eol(tagCrlf) + rest;
    RawLinesRead(cfg, tag, lines, crlf, "", tail, false);
    assert "" + text == text;
    if lines != [] {
      TagLineRead(cfg, tag, blanks, tagCrlf, rest, text, true in crlf);
    } else {
      TagLineFirst(cfg, tag, blanks, tagCrlf, rest);
    }
  }

  // ---- blocks that swallow what follows ----

  /** A block whose tag follows at once does not read as an empty value: for every tag, the value is the
      rest of the text, tag line included. */
  lemma EmptyBlockIsEndless(cfg: Config, tag: string, rest: string)
    requires Trimmed(tag) && NoStop(AtNewLine, tag)
    ensures LoadLines(cfg, tag + "\n" + rest, tag, "", false) == Endless(tag + "\n" + rest, rest)
  {
    assert tag + "\n" + rest == tag + ("\n" + rest);
    TakeDrop(AtNewLine, tag, "\n" + rest);
    assert TrimTail(tag) == tag && SkipNewLine("\n" + rest) == rest;
    SameReflexive(cfg, tag);
  }

  /** What a string that reaches a closed header becomes. */
  lemma HeadOfHeader(cfg: Config, name: string)
    requires name != [] && SectionNameOk(name)
    ensures Head(cfg, "[" + name + "]" + "\n" + "") == "[" + name
  {
    hide CommentRun;
    var z := "]" + "\n" + "";
    var t, u := "[" + name + "]" + "\n" + "", name + z;
    assert t[0] == '[' && t[1..] == u && DropSpaces(t) == t && DropSpaces(u) == u;
    TakeDrop(AtBracket, name, z);
    assert TrimRight(name) == name;
    assert Before(t, u) == "[";
  }

  /** A key whose block has no lines: its value goes on into the section header behind it. */
  lemma ReadEmptyBlock(cfg: Config, key: string, tag: string, name: string)
    requires cfg.multiLine && KeyOk(key) && Trimmed(tag) && NoStop(AtNewLine, tag) && name != [] && SectionNameOk(name)
    ensures var rest := "[" + name + "]" + "\n" + "";
      FindEntry(cfg, key + "=" + ("<<<" + tag + "\n" + (tag + "\n" + rest)), "", "")
        == Some(Entry("", Some(key), tag + "\n" + "[" + name, rest, tag + "\n" + rest))
  {
    var rest := "[" + name + "]" + "\n" + "";
    var line, body := "<<<" + tag, tag + "\n" + rest;
    var after := line + "\n" + body;
    hide FindEntry, Head, LoadLines, TrimRight, Take, Drop, DropBlanks, SkipNewLine;
    assert "" + line + "\n" + body == after;
    assert line[..3] == "<<<" && line[3..] == tag && NoStop(AtNewLine, line);
    LineValue(cfg, "", line, body);
    EmptyBlockIsEndless(cfg, tag, rest);
    assert ReadValue(cfg, after) == Endless(body, rest);
    HeadOfHeader(cfg, name);
    assert Before(body, rest) == tag + "\n";
    assert Ended(cfg, Endless(body, rest)) == tag + "\n" + "[" + name;
    hide ReadValue;
    assert key + "" + "=" + after == key + "=" + after;
    ReadKeyLine(cfg, key, "", after, "", "");
  }

  /** So a block without lines does not just fail to read as an empty value: for every key, tag and name,
      the key ends up with the tag line and the opening of the next section header as its value. */
  lemma EmptyBlockSwallows(cfg: Config, key: string, tag: string, name: string)
    requires cfg.multiLine && KeyOk(key) && Trimmed(tag) && NoStop(AtNewLine, tag) && name != [] && SectionNameOk(name)
    ensures Load(cfg, key + "=" + ("<<<" + tag + "\n" + (tag + "\n" + ("[" + name + "]" + "\n" + ""))))
         == [Section("", [KeyVal(key, tag + "\n" + "[" + name)]), Section(name, [])]
  {
    var rest := "[" + name + "]" + "\n" + "";
    var text, val := key + "=" + ("<<<" + tag + "\n" + (tag + "\n" + rest)), tag + "\n" + "[" + name;
    assert text[0] == key[0] && AfterFileComment(text) == text;
    ReadEmptyBlock(cfg, key, tag, name);
    hide FindEntry, AddEntry, Same;
    AddFirst(cfg, key, val);
    var st := [Section("", [KeyVal(key, val)])];
    assert [] + st == st;
    assert LoadFrom(cfg, text, "", "", []) == LoadFrom(cfg, rest, "", val, st);
    ReadHeader(cfg, name, "", "", val);
    NamesDiffer(cfg, name);
    AddHeader(cfg, st, name);
    var all := st + [Section(name, [])];
    assert LoadFrom(cfg, rest, "", val, st) == LoadFrom(cfg, "\n" + "", name, "", all);
    LoadAfterSpaces(cfg, "\n", "", name, "", all);
    NothingMore(cfg, name, "", all);
  }

  lemma NamesDiffer(cfg: Config, name: string)
    requires name != []
    ensures !Same(cfg, "", name)
  {
    SameIsFold(cfg, "", name);
  }

  /** A block with CR LF whose tag carries blanks does not end there: it takes in the section header that
      follows, and the rest of the file. */
  lemma BlankTagMissed(cfg: Config, line: string, tag: string, blanks: string, header: string)
    requires Trimmed(tag) && NoStop(AtNewLine, tag) && Blanks(blanks) && blanks != []
    requires NoStop(AtNewLine, line) && !Same(cfg, TrimTail(line), tag) && NoStop(AtNewLine, header) && !Same(cfg, header, tag)
    ensures LoadLines(cfg, line + Eol(true) + (tag + blanks + Eol(true) + (header + Eol(true) + "")), tag, "", false)
         == Lines(line + "\n" + (tag + blanks) + "\n" + header + "\n", "")
  {
    var last := header + Eol(true) + "";
    TagSeen(cfg, tag, blanks, true);
    BlanksNoStop(tag, blanks);
    LastLines(cfg, tag, "" + line + "\n" + (tag + blanks) + "\n" + header + "\n");
    hide LoadLines, Same, TrimTail, NoStop, Trimmed, Eol, Blanks;
    RawLineRead(cfg, tag, line, true, tag + blanks + Eol(true) + last, "", false);
    RawLineRead(cfg, tag, tag + blanks, true, last, "" + line + "\n", true);
    RawLineRead(cfg, tag, header, true, "", "" + line + "\n" + (tag + blanks) + "\n", true);
    assert "" + line == line;
  }

  lemma LastLines(cfg: Config, tag: string, acc: string)
    requires tag != []
    ensures LoadLines(cfg, "", tag, acc, true) == Lines(acc, "")
  {
    NamesDiffer(cfg, tag);
    hide Same;
    assert acc + "" == acc;
  }

  lemma OpensBlock(cfg: Config, tag: string, crlf: bool, body: string)
    requires cfg.multiLine && Trimmed(tag) && NoStop(AtNewLine, tag)
    ensures ReadValue(cfg, "<<<" + tag + Eol(crlf) + body) == LoadLines(cfg, body, tag, "", false)
  {
    var line := "<<<" + tag;
    var s := line + Eol(crlf) + body;
    assert s[0] == '<' && DropBlanks(s) == s;
    assert line[..3] == "<<<" && line[3..] == tag && NoStop(AtNewLine, line) && TrimRight(line) == line;
    LineSplit(line, crlf, body);
    hide LoadLines, Take, Drop, SkipNewLine, DropBlanks, TrimRight;
  }

  /** For every key, line, tag, blanks and section name: the section is gone. */
  lemma BlankTagSwallows(cfg: Config, key: string, line: string, tag: string, blanks: string, name: string)
    requires cfg.multiLine && KeyOk(key) && Trimmed(tag) && NoStop(AtNewLine, tag) && Blanks(blanks) && blanks != []
    requires NoStop(AtNewLine, line) && !Same(cfg, TrimTail(line), tag)
    requires NoStop(AtNewLine, name) && !Same(cfg, "[" + name + "]", tag)
    ensures var body := line + Eol(true) + (tag + blanks + Eol(true) + ("[" + name + "]" + Eol(true) + ""));
      Load(cfg, key + "=" + ("<<<" + tag + Eol(true) + body))
        == [Section("", [KeyVal(key, line + "\n" + (tag + blanks) + "\n" + ("[" + name + "]") + "\n")])]
  {
    var header := "[" + name + "]";
    HeaderNoStop(name);
    hide Load, LoadLines, ReadValue, Same, TrimTail, NoStop, Trimmed, Eol, Blanks, KeyOk;
    var body := line + Eol(true) + (tag + blanks + Eol(true) + (header + Eol(true) + ""));
    var after, val := "<<<" + tag + Eol(true) + body, line + "\n" + (tag + blanks) + "\n" + header + "\n";
    OpensBlock(cfg, tag, true, body);
    BlankTagMissed(cfg, line, tag, blanks, header);
    OneKeyText(cfg, key, after, val);
  }

  lemma HeaderNoStop(name: string)
    requires NoStop(AtNewLine, name)
    ensures NoStop(AtNewLine, "[" + name + "]")
  {}

  /** A text that holds one key and ends with its value. */
  lemma OneKeyText(cfg: Config, key: string, after: string, val: string)
    requires KeyOk(key) && ReadValue(cfg, after) == Lines(val, "")
    ensures Load(cfg, key + "=" + after) == [Section("", [KeyVal(key, val)])]
  {
    var text := key + "=" + after;
    assert text[0] == key[0] && AfterFileComment(text) == text;
    assert key + "" + "=" + after == text;
    hide FindEntry, AddEntry, Same, ReadValue, Head;
    ReadKeyLine(cfg, key, "", after, "", "");
    AddFirst(cfg, key, val);
    var st := [Section("", [KeyVal(key, val)])];
    assert [] + st == st;
    NothingMore(cfg, "", val, st);
  }

  /** One such file. */
  lemma BlankTagExample(cfg: Config)
    requires cfg.multiLine
    ensures Load(cfg, "k=<<<T\r\na\r\nT \r\n[s]\r\n") == [Section("", [KeyVal("k", "a\nT \n[s]\n")])]
  {
    ExampleParts(cfg);
    hide Load, Same, TrimTail, KeyOk, NoStop, Trimmed, Blanks;
    BlankTagSwallows(cfg, "k", "a", "T", " ", "s");
    assert "k" + "=" + ("<<<" + "T" + "\r\n" + ("a" + "\r\n" + ("T" + " " + "\r\n" + ("[" + "s" + "]" + "\r\n" + ""))))
        == "k=<<<T\r\na\r\nT \r\n[s]\r\n";
    assert "a" + "\n" + ("T" + " ") + "\n" + ("[" + "s" + "]") + "\n" == "a\nT \n[s]\n";
  }

  lemma ExampleParts(cfg: Config)
    ensures KeyOk("k") && Trimmed("T") && NoStop(AtNewLine, "T") && Blanks(" ") && NoStop(AtNewLine, "a") && NoStop(AtNewLine, "s")
    ensures !Same(cfg, TrimTail("a"), "T") && !Same(cfg, "[" + "s" + "]", "T")
  {
    assert TrimTail("a") == "a";
    SameIsFold(cfg, "a", "T");
    assert Fold(cfg, "a")[0] != Fold(cfg, "T")[0];
    SameIsFold(cfg, "[" + "s" + "]", "T");
    assert |Fold(cfg, "[" + "s" + "]")| == 3 && |Fold(cfg, "T")| == 1;
  }
}
