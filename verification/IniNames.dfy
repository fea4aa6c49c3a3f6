/** Section names and keys (opencv-test/play-frame/SimpleIni.h): headers without their closing bracket,
    and which names survive being written and read. */
module IniNames {
  import opened Options
  import opened IniText
  import opened IniRoundTrip
  import opened IniValues

  // ---- headers without their closing bracket ----

  /** What may stand behind an opening bracket on its line. */
  predicate OpenName(name: string) { name != [] && !IsSpace(name[0]) && NoStop(AtBracket, name) }

  /** One comment line in front of a key. */
  lemma CommentBeforeKey(c: string, more: string)
    requires NoStop(AtNewLine, c) && more != [] && !IsSpace(more[0]) && !IsComment(more[0])
    ensures CommentRun(";" + c + "\n" + more, "", true) == Comment(";" + c, more)
  {
    var line, z := ";" + c, "\n" + more;
    var t := ";" + c + "\n" + more;
    assert t == line + z && NoStop(AtNewLine, line);
    TakeDrop(AtNewLine, line, z);
    assert SkipNewLine(z) == more && DropSpaces(more) == more;
    var acc := "" + line + "\n";
    assert acc[..|acc| - 1] == line;
    assert CommentRun(t, "", true) == CommentRun(more, acc, true);
  }

  lemma UnclosedBracket(cfg: Config, name: string, z: string, section: string, val: string)
    requires OpenName(name) && (z == [] || IsNewLine(z[0]))
    ensures FindEntry(cfg, "[" + name + z, section, val) == FindEntry(cfg, z, name + Head(cfg, z), val)
  {
    hide CommentRun, ReadValue, TrimRight, Head, Take;
    var text, u := "[" + name + z, name + z;
    assert text[0] == '[' && text[1..] == u && DropSpaces(text) == text && DropSpaces(u) == u;
    TakeDrop(AtBracket, name, z);
    BeforeIs(name, z);
  }

  lemma BeforeIs(a: string, b: string)
    ensures Before(a + b, b) == a
  {}

  /** A comment line: strings that reach it go on to its end, and the search goes on behind it. */
  lemma CommentAhead(cfg: Config, c: string, more: string, section: string, val: string)
    requires NoStop(AtNewLine, c) && more != [] && !IsSpace(more[0]) && !IsComment(more[0])
    ensures var z := "\n" + (";" + c + "\n" + more);
      Head(cfg, z) == "\n" + (";" + c) && FindEntry(cfg, z, section, val) == FindEntry(cfg, more, section, val)
  {
    var t := ";" + c + "\n" + more;
    var z := "\n" + t;
    CommentBeforeKey(c, more);
    BeforeIs("\n", t);
    assert t[0] == ';';
    hide CommentRun, ReadValue, TrimRight, Take, Drop, Before;
    SpacesGone("\n", t);
    assert DropSpaces(t) == t;
  }

  /** A header without its closing bracket gives the next key a section all the same: its name runs on
      over the lines behind it, and a comment there ends it. */
  lemma UnclosedHeader(cfg: Config, name: string, c: string, more: string, section: string, val: string)
    requires OpenName(name) && NoStop(AtNewLine, c)
    requires more != [] && !IsSpace(more[0]) && !IsComment(more[0])
    ensures FindEntry(cfg, "[" + name + ("\n" + (";" + c + "\n" + more)), section, val)
         == FindEntry(cfg, more, name + ("\n" + (";" + c)), val)
  {
    hide FindEntry, Head;
    UnclosedBracket(cfg, name, "\n" + (";" + c + "\n" + more), section, val);
    CommentAhead(cfg, c, more, name + ("\n" + (";" + c)), val);
  }

  /** A key is found in z before any line that starts with a bracket. */
  predicate KeyAhead(cfg: Config, z: string)
    decreases |z|
  {
    var t := DropSpaces(z);
    if t == [] then false
    else if IsComment(t[0]) then KeyAhead(cfg, CommentRun(t, "", true).rest)
    else if t[0] == '[' then false
    else
      var w := Drop(AtEquals, t);
      if w == [] || w[0] != '=' then cfg.keyOnly || KeyAhead(cfg, w)
      else if t[0] == '=' then KeyAhead(cfg, Drop(AtNewLine, w))
      else !ReadValue(cfg, w[1..]).NoLines?
  }

  /** The section that a search starts with matters exactly when a key is ahead. */
  lemma {:induction false} SectionMattersIff(cfg: Config, z: string, section: string, section': string, val: string)
    ensures FindEntry(cfg, z, section, val) == FindEntry(cfg, z, section', val)
       <==> section == section' || !KeyAhead(cfg, z)
    decreases |z|
  {
    hide ReadValue, TrimRight, Take, SkipNewLine, Head, CommentRun, Ended;
    var t := DropSpaces(z);
    if t != [] && IsComment(t[0]) {
      CommentShortens(t);
      SectionMattersIff(cfg, CommentRun(t, "", true).rest, section, section', val);
    } else if t != [] && t[0] != '[' {
      var w := Drop(AtEquals, t);
      if w == [] || w[0] != '=' {
        if !cfg.keyOnly {
          SectionMattersIff(cfg, w, section, section', val);
        }
      } else if t[0] == '=' {
        SectionMattersIff(cfg, Drop(AtNewLine, w), section, section', val);
      }
    }
  }

  lemma CommentShortens(t: string)
    requires t != [] && IsComment(t[0])
    ensures |CommentRun(t, "", true).rest| < |t|
  {}

  /** A header without its closing bracket is skipped, as promised, if and only if no key follows before
      the next bracket, or the section was already the one that the open name comes to. */
  lemma UnclosedSkippedIff(cfg: Config, name: string, z: string, section: string, val: string)
    requires OpenName(name) && (z == [] || IsNewLine(z[0]))
    ensures FindEntry(cfg, "[" + name + z, section, val) == FindEntry(cfg, z, section, val)
       <==> section == name + Head(cfg, z) || !KeyAhead(cfg, z)
  {
    hide FindEntry, Head, KeyAhead;
    UnclosedBracket(cfg, name, z, section, val);
    SectionMattersIff(cfg, z, section, name + Head(cfg, z), val);
  }

  // ---- names that survive ----

  /** What FindEntry finds: a section name between brackets is trimmed and has no newline or bracket in it,
      and a key is one that KeyOk describes. */
  lemma {:induction false} FoundNames(cfg: Config, s: string, section: string, val: string)
    ensures var r := FindEntry(cfg, s, section, val);
      && (r.Some? && r.value.key.None? ==> SectionNameOk(r.value.section))
      && (r.Some? && r.value.key.Some? ==> KeyOk(r.value.key.value))
    decreases |s|
  {
    hide ReadValue, TrimRight, Take, SkipNewLine, Head, CommentRun, Ended, KeyOk, SectionNameOk;
    var t := DropSpaces(s);
    if t == [] {
    } else if IsComment(t[0]) {
      CommentShortens(t);
      FoundNames(cfg, CommentRun(t, "", true).rest, section, val);
    } else if t[0] == '[' {
      var u := DropSpaces(t[1..]);
      var w := Drop(AtBracket, u);
      HeaderName(u);
      if w == [] || w[0] != ']' {
        FoundNames(cfg, w, Before(u, w) + Head(cfg, w), val);
      }
    } else {
      var w := Drop(AtEquals, t);
      if w == [] || w[0] != '=' {
        if cfg.keyOnly {
          KeyName(t);
        } else {
          FoundNames(cfg, w, section, val);
        }
      } else if t[0] == '=' {
        FoundNames(cfg, Drop(AtNewLine, w), section, val);
      } else {
        KeyName(t);
      }
    }
  }

  lemma {:induction false} TrimNoStop(k: Stop, s: string)
    requires NoStop(k, s)
    ensures NoStop(k, TrimRight(s))
  {
    if s != [] && IsSpace(s[|s| - 1]) {
      TrimNoStop(k, s[..|s| - 1]);
    }
  }

  lemma HeaderName(u: string)
    requires u == [] || !IsSpace(u[0])
    ensures SectionNameOk(TrimRight(Take(AtBracket, u)))
  {
    var name := Take(AtBracket, u);
    assert name != [] ==> name[0] == u[0];
    TakeNoStop(AtBracket, u);
    TrimNoStop(AtBracket, name);
    TrimRightEnds(name);
    TrimPrefix(name);
    hide TrimRight, Take, NoStop;
  }

  lemma TrimPrefix(s: string)
    ensures TrimRight(s) <= s
  {}

  lemma KeyName(t: string)
    requires t != [] && !IsSpace(t[0]) && !IsComment(t[0]) && t[0] != '[' && t[0] != '='
    ensures KeyOk(TrimRight(Take(AtEquals, t)))
  {
    var name := Take(AtEquals, t);
    TakeNoStop(AtEquals, t);
    TrimNoStop(AtEquals, name);
    TrimRightEnds(name);
    assert name != [] && name[0] == t[0];
  }

  /** A section name comes back from the header that Save writes, whatever follows. */
  ghost predicate NameSurvives(cfg: Config, name: string) {
    forall rest, section, val :: FindEntry(cfg, "[" + name + "]" + "\n" + rest, section, val)
      == Some(Entry(name, None, "", "\n" + rest, ""))
  }

  /** For names that are not empty, the condition of the round trip cannot be weakened. */
  lemma NameSurvivesIff(cfg: Config, name: string)
    requires name != []
    ensures NameSurvives(cfg, name) <==> SectionNameOk(name)
  {
    hide FindEntry, SectionNameOk;
    if SectionNameOk(name) {
      forall rest, section, val ensures FindEntry(cfg, "[" + name + "]" + "\n" + rest, section, val)
          == Some(Entry(name, None, "", "\n" + rest, "")) {
        ReadHeader(cfg, name, rest, section, val);
      }
    }
    if NameSurvives(cfg, name) {
      FoundNames(cfg, "[" + name + "]" + "\n" + "", "", "");
      assert FindEntry(cfg, "[" + name + "]" + "\n" + "", "", "") == Some(Entry(name, None, "", "\n" + "", ""));
    }
  }

  /** A key comes back in front of any value that can be read. */
  ghost predicate KeySurvives(cfg: Config, key: string, blank: string) {
    forall after, section, val :: !ReadValue(cfg, after).NoLines? ==>
      FindEntry(cfg, key + blank + "=" + after, section, val)
        == Some(Entry(section, Some(key), Ended(cfg, ReadValue(cfg, after)), ReadValue(cfg, after).rest, ReadValue(cfg, after).val))
  }

  lemma KeySurvivesIff(cfg: Config, key: string, blank: string)
    requires blank == "" || blank == " "
    ensures KeySurvives(cfg, key, blank) <==> KeyOk(key)
  {
    hide FindEntry, KeyOk, ReadValue, Ended;
    if KeyOk(key) {
      forall after, section, val | !ReadValue(cfg, after).NoLines? ensures
          FindEntry(cfg, key + blank + "=" + after, section, val)
            == Some(Entry(section, Some(key), Ended(cfg, ReadValue(cfg, after)), ReadValue(cfg, after).rest, ReadValue(cfg, after).val)) {
        ReadKeyLine(cfg, key, blank, after, section, val);
      }
    }
    if KeySurvives(cfg, key, blank) {
      NoValue(cfg);
      FoundNames(cfg, key + blank + "=" + "", "", "");
      assert FindEntry(cfg, key + blank + "=" + "", "", "").Some?;
    }
  }

  lemma NoValue(cfg: Config)
    ensures ReadValue(cfg, "") == Lines("", "")
  {}

  /** With key-only entries, the same holds of a key alone on its line. */
  ghost predicate BareKeySurvives(cfg: Config, key: string) {
    forall rest, section, val ::
      FindEntry(cfg, key + "\n" + rest, section, val) == Some(Entry(section, Some(key), val, rest, val))
  }

  lemma BareKeySurvivesIff(cfg: Config, key: string)
    requires cfg.keyOnly
    ensures BareKeySurvives(cfg, key) <==> KeyOk(key)
  {
    hide FindEntry, KeyOk;
    if KeyOk(key) {
      forall rest, section, val ensures
          FindEntry(cfg, key + "\n" + rest, section, val) == Some(Entry(section, Some(key), val, rest, val)) {
        ReadBareKey(cfg, key, rest, section, val);
      }
    }
    if BareKeySurvives(cfg, key) {
      FoundNames(cfg, key + "\n" + "", "", "");
      assert FindEntry(cfg, key + "\n" + "", "", "").Some?;
    }
  }
}
