/** Loading what Save wrote (opencv-test/play-frame/SimpleIni.h). */
module IniRoundTrip {
  import opened Options
  import opened IniText

  // ---- what a store must look like ----

  predicate Trimmed(s: string) { s != [] && !IsSpace(s[0]) && !IsSpace(s[|s| - 1]) }

  predicate NoStop(k: Stop, s: string) { forall i :: 0 <= i < |s| ==> !Stops(k, s[i]) }

  predicate SectionNameOk(s: string) { s == [] || (Trimmed(s) && NoStop(AtBracket, s)) }

  predicate KeyOk(s: string) { Trimmed(s) && NoStop(AtEquals, s) && s[0] != '[' && !IsComment(s[0]) }

  /** No line of v reads as the end tag once its trailing blanks are gone. */
  predicate NoTagLine(cfg: Config, v: string)
    decreases |v|
  {
    var n := LineTo(v);
    !Same(cfg, TrimTail(v[..n]), END_TAG) && (n < |v| ==> NoTagLine(cfg, v[n + 1..]))
  }

  predicate NoCarriageReturn(v: string) { forall i :: 0 <= i < |v| ==> v[i] != '\r' }

  /** Values that Save can write so that they read back: quoted ones on one line, multi-line ones
      without CR and without the end tag, and others that need neither form and do not look like one. */
  predicate ValueOk(cfg: Config, v: string) {
    v == [] ||
    (if cfg.quotes && IsSingleLineQuotedValue(v) then NoStop(AtNewLine, v)
     else if cfg.multiLine && IsMultiLineData(v) then NoCarriageReturn(v) && NoTagLine(cfg, v)
     else
       && Trimmed(v) && NoStop(AtNewLine, v)
       && !(cfg.multiLine && HasTag(v))
       && !(cfg.quotes && |v| >= 2 && v[0] == '"' && v[|v| - 1] == '"'))
  }

  ghost predicate KeysOk(cfg: Config, keys: seq<KeyVal>) {
    && (forall i :: 0 <= i < |keys| ==> KeyOk(keys[i].key) && ValueOk(cfg, keys[i].val))
    && (forall i, j :: 0 <= i < j < |keys| ==> !Same(cfg, keys[i].key, keys[j].key))
  }

  ghost predicate StoreOk(cfg: Config, st: Store) {
    && (forall i :: 0 <= i < |st| ==> SectionNameOk(st[i].name) && KeysOk(cfg, st[i].keys))
    && (forall i, j :: 0 <= i < j < |st| ==> !Same(cfg, st[i].name, st[j].name))
  }

  // ---- what comes back ----

  /** With key-only entries on, an empty value is written without an equals sign, and reading such a
      line leaves the value of the previous key in place. */
  function LoadedVal(cfg: Config, v: string, prev: string): string {
    if cfg.keyOnly && v == [] then prev else v
  }

  function LoadedKeys(cfg: Config, keys: seq<KeyVal>, prev: string): (r: seq<KeyVal>)
    ensures |r| == |keys|
    ensures forall i :: 0 <= i < |keys| ==> r[i].key == keys[i].key
  {
    if keys == [] then [] else
      var v := LoadedVal(cfg, keys[0].val, prev);
      [KeyVal(keys[0].key, v)] + LoadedKeys(cfg, keys[1..], v)
  }

  function LastVal(cfg: Config, keys: seq<KeyVal>, prev: string): string {
    if keys == [] then prev else LastVal(cfg, keys[1..], LoadedVal(cfg, keys[0].val, prev))
  }

  function LoadedSections(cfg: Config, st: Store): (r: Store)
    ensures |r| == |st|
    ensures forall i :: 0 <= i < |st| ==> r[i] == Section(st[i].name, LoadedKeys(cfg, st[i].keys, ""))
  {
    if st == [] then [] else
      [Section(st[0].name, LoadedKeys(cfg, st[0].keys, ""))] + LoadedSections(cfg, st[1..])
  }

  /** The section without a name stands first, and is not there at all when it has no keys. */
  function Normal(st: Store): Store {
    var o := EmptyFirst(st);
    if o != [] && o[0].name == [] && o[0].keys == [] then o[1..] else o
  }

  // ---- scanning concatenations ----

  lemma {:induction false} TakeDrop(k: Stop, a: string, b: string)
    requires NoStop(k, a) && (b == [] || Stops(k, b[0]))
    ensures Take(k, a + b) == a && Drop(k, a + b) == b
  {
    if a == [] {
      assert a + b == b;
    } else {
      assert (a + b)[1..] == a[1..] + b;
      TakeDrop(k, a[1..], b);
    }
  }

  lemma {:induction false} SpacesGone(w: string, s: string)
    requires forall i :: 0 <= i < |w| ==> IsSpace(w[i])
    ensures DropSpaces(w + s) == DropSpaces(s)
  {
    if w == [] {
      assert w + s == s;
    } else {
      assert (w + s)[1..] == w[1..] + s;
      SpacesGone(w[1..], s);
    }
  }

  lemma FindAfterSpaces(cfg: Config, w: string, s: string, section: string, val: string)
    requires forall i :: 0 <= i < |w| ==> IsSpace(w[i])
    ensures FindEntry(cfg, w + s, section, val) == FindEntry(cfg, s, section, val)
  {
    hide TrimRight, Take, Drop, Head, CommentRun, ReadValue, SkipNewLine;
    SpacesGone(w, s);
  }

  lemma LoadAfterSpaces(cfg: Config, w: string, s: string, section: string, val: string, st: Store)
    requires forall i :: 0 <= i < |w| ==> IsSpace(w[i])
    ensures LoadFrom(cfg, w + s, section, val, st) == LoadFrom(cfg, s, section, val, st)
  {
    hide FindEntry, AddEntry;
    FindAfterSpaces(cfg, w, s, section, val);
  }

  // ---- one section header ----

  lemma ReadHeader(cfg: Config, name: string, rest: string, section: string, val: string)
    requires name != [] && SectionNameOk(name)
    ensures FindEntry(cfg, "[" + name + "]" + "\n" + rest, section, val) == Some(Entry(name, None, "", "\n" + rest, ""))
  {
    var t := "[" + name + "]" + "\n" + rest;
    var u := name + ("]" + "\n" + rest);
    assert t[0] == '[' && t[1..] == u && DropSpaces(t) == t && DropSpaces(u) == u;
    TakeDrop(AtBracket, name, "]" + "\n" + rest);
    var w := "]" + "\n" + rest;
    assert w[0] == ']' && w[1..] == "\n" + rest;
    assert Drop(AtNewLine, "\n" + rest) == "\n" + rest;
    assert TrimRight(name) == name;
    hide CommentRun, ReadValue, Head, Ended, TrimRight, Take, Drop, DropSpaces, SkipNewLine;
  }

  // ---- values ----

  lemma {:induction false} OutputIs(v: string)
    requires v != []
    ensures Output(v) == v + "\n"
    decreases |v|
  {
    var n := LineTo(v);
    if n < |v| {
      assert v == v[..n] + "\n" + v[n + 1..];
      if n + 1 < |v| {
        OutputIs(v[n + 1..]);
        assert v[..n] + "\n" + (v[n + 1..] + "\n") == (v[..n] + "\n" + v[n + 1..]) + "\n";
      }
    }
  }

  lemma {:induction false} LineIs(v: string)
    requires NoCarriageReturn(v)
    ensures NoStop(AtNewLine, v[..LineTo(v)])
  {
    if v != [] && v[0] != '\n' {
      LineIs(v[1..]);
      assert forall i :: 1 <= i < LineTo(v) ==> v[..LineTo(v)][i] == v[1..][..LineTo(v[1..])][i - 1];
    }
  }

  /** The tag on a line of its own ends the block. */
  lemma TagEnds(cfg: Config, tag: string, acc: string, rest: string)
    requires acc != [] && (tag == [] || Trimmed(tag)) && NoStop(AtNewLine, tag)
    ensures LoadLines(cfg, tag + "\n" + rest, tag, acc, false) == Lines(acc[..|acc| - 1], rest)
  {
    assert tag + "\n" + rest == tag + ("\n" + rest);
    TakeDrop(AtNewLine, tag, "\n" + rest);
    assert TrimTail(tag) == tag;
    SameIsFold(cfg, tag, tag);
    assert SkipNewLine("\n" + rest) == rest;
  }

  /** One line that is not the tag is taken over. */
  lemma LineRead(cfg: Config, tag: string, line: string, more: string, acc: string)
    requires NoStop(AtNewLine, line) && !Same(cfg, TrimTail(line), tag)
    ensures LoadLines(cfg, line + "\n" + more, tag, acc, false)
         == LoadLines(cfg, more, tag, acc + line + "\n", false)
  {
    assert line + "\n" + more == line + ("\n" + more);
    TakeDrop(AtNewLine, line, "\n" + more);
    assert SkipNewLine("\n" + more) == more;
  }

  lemma Regroup(line: string, v: string, tail: string)
    ensures (line + "\n" + v) + "\n" + tail == line + "\n" + (v + "\n" + tail)
  {}

  /** Lines that are not the tag are collected one by one. */
  lemma {:induction false} BlockLines(cfg: Config, v: string, acc: string, tail: string)
    requires NoCarriageReturn(v) && NoTagLine(cfg, v)
    ensures LoadLines(cfg, v + "\n" + tail, END_TAG, acc, false) == LoadLines(cfg, tail, END_TAG, acc + v + "\n", false)
    decreases |v|
  {
    hide LoadLines, Same, TrimTail;
    var n := LineTo(v);
    var line := v[..n];
    LineIs(v);
    if n == |v| {
      assert line == v;
      LineRead(cfg, END_TAG, line, tail, acc);
    } else {
      var v' := v[n + 1..];
      assert v == line + "\n" + v';
      Regroup(line, v', tail);
      LineRead(cfg, END_TAG, line, v' + "\n" + tail, acc);
      BlockLines(cfg, v', acc + line + "\n", tail);
      assert acc + line + "\n" + v' == acc + v;
    }
  }

  lemma BlockRead(cfg: Config, v: string, acc: string, rest: string)
    requires NoCarriageReturn(v) && NoTagLine(cfg, v)
    ensures LoadLines(cfg, v + "\n" + END_TAG + "\n" + rest, END_TAG, acc, false) == Lines(acc + v, rest)
  {
    hide LoadLines, Same, TrimTail, NoTagLine;
    assert v + "\n" + END_TAG + "\n" + rest == v + "\n" + (END_TAG + "\n" + rest);
    BlockLines(cfg, v, acc, END_TAG + "\n" + rest);
    TagEnds(cfg, END_TAG, acc + v + "\n", rest);
  }

  lemma BlanksGone(sep: string, v: string)
    requires sep == "" || sep == " "
    requires v == [] || !IsSpace(v[0]) || IsNewLine(v[0])
    ensures DropBlanks(sep + v) == v
  {}

  /** A line that begins and ends with something visible is read as it is. */
  lemma LineValue(cfg: Config, sep: string, line: string, rest: string)
    requires sep == "" || sep == " "
    requires (line == [] || Trimmed(line)) && NoStop(AtNewLine, line)
    ensures var v0 := DropBlanks(sep + line + "\n" + rest);
      Take(AtNewLine, v0) == line && TrimRight(line) == line && SkipNewLine(Drop(AtNewLine, v0)) == rest
  {
    var z := "\n" + rest;
    assert sep + line + "\n" + rest == sep + (line + z);
    assert line == [] ==> line + z == z;
    BlanksGone(sep, line + z);
    TakeDrop(AtNewLine, line, z);
    assert SkipNewLine(z) == rest;
  }

  lemma ReadPlain(cfg: Config, sep: string, v: string, rest: string)
    requires sep == "" || sep == " "
    requires v == [] || (Trimmed(v) && NoStop(AtNewLine, v) && !(cfg.multiLine && HasTag(v))
      && !(cfg.quotes && |v| >= 2 && v[0] == '"' && v[|v| - 1] == '"'))
    ensures ReadValue(cfg, sep + v + "\n" + rest) == Lines(v, rest)
  {
    LineValue(cfg, sep, v, rest);
  }

  lemma ReadQuoted(cfg: Config, sep: string, v: string, rest: string)
    requires sep == "" || sep == " "
    requires cfg.quotes && NoStop(AtNewLine, v)
    ensures ReadValue(cfg, sep + ("\"" + v + "\"") + "\n" + rest) == Lines(v, rest)
  {
    var line := "\"" + v + "\"";
    assert line[0] == '"' && line[|line| - 1] == '"' && line[1..|line| - 1] == v;
    assert NoStop(AtNewLine, line);
    LineValue(cfg, sep, line, rest);
    assert !HasTag(line);
  }

  lemma Reassociate(sep: string, line: string, v: string, tag: string, rest: string)
    ensures sep + (line + "\n" + v + tag) + "\n" + rest == sep + line + "\n" + (v + tag + "\n" + rest)
  {}

  lemma ReadBlock(cfg: Config, sep: string, v: string, rest: string)
    requires sep == "" || sep == " "
    requires cfg.multiLine && v != [] && NoCarriageReturn(v) && NoTagLine(cfg, v)
    ensures ReadValue(cfg, sep + ("<<<" + END_TAG + "\n" + Output(v) + END_TAG) + "\n" + rest) == Lines(v, rest)
  {
    hide LoadLines, NoTagLine, Output, NoCarriageReturn;
    OutputIs(v);
    var line := "<<<" + END_TAG;
    var body := v + "\n" + END_TAG + "\n" + rest;
    Reassociate(sep, line, v + "\n", END_TAG, rest);
    assert line == "<<<END_OF_TEXT";
    LineValue(cfg, sep, line, body);
    assert HasTag(line) && line[3..] == END_TAG;
    BlockRead(cfg, v, "", rest);
    assert "" + v == v;
  }

  lemma ReadWritten(cfg: Config, sep: string, v: string, rest: string)
    requires sep == "" || sep == " "
    requires ValueOk(cfg, v)
    ensures ReadValue(cfg, sep + ValueText(cfg, v) + "\n" + rest) == Lines(v, rest)
  {
    hide ReadValue, NoTagLine, Output;
    if v == [] {
      ReadPlain(cfg, sep, v, rest);
    } else if cfg.quotes && IsSingleLineQuotedValue(v) {
      ReadQuoted(cfg, sep, v, rest);
    } else if cfg.multiLine && IsMultiLineData(v) {
      ReadBlock(cfg, sep, v, rest);
    } else {
      ReadPlain(cfg, sep, v, rest);
    }
  }

  // ---- one key ----

  lemma TrimKey(key: string, blank: string)
    requires Trimmed(key) && (blank == "" || blank == " ")
    ensures TrimRight(key + blank) == key
  {}

  /** A key with an equals sign. */
  lemma ReadKeyLine(cfg: Config, key: string, blank: string, after: string, section: string, val: string)
    requires KeyOk(key) && (blank == "" || blank == " ")
    requires !ReadValue(cfg, after).NoLines?
    ensures FindEntry(cfg, key + blank + "=" + after, section, val)
         == Some(Entry(section, Some(key), Ended(cfg, ReadValue(cfg, after)), ReadValue(cfg, after).rest,
                       ReadValue(cfg, after).val))
  {
    hide ReadValue, Ended, Head, CommentRun;
    var t := key + blank + "=" + after;
    var name, w := key + blank, "=" + after;
    assert t == name + w && t[0] == key[0];
    assert DropSpaces(t) == t;
    assert NoStop(AtEquals, name);
    TakeDrop(AtEquals, name, w);
    TrimKey(key, blank);
    assert w[0] == '=' && w[1..] == after;
    assert t[0] != '=' by { assert !Stops(AtEquals, key[0]); }
  }

  /** A key alone on its line keeps the old value. */
  lemma ReadBareKey(cfg: Config, key: string, rest: string, section: string, val: string)
    requires KeyOk(key) && cfg.keyOnly
    ensures FindEntry(cfg, key + "\n" + rest, section, val) == Some(Entry(section, Some(key), val, rest, val))
  {
    hide ReadValue;
    var t := key + "\n" + rest;
    var w := "\n" + rest;
    assert t == key + w && t[0] == key[0];
    assert DropSpaces(t) == t;
    TakeDrop(AtEquals, key, w);
    assert TrimRight(key) == key;
    assert SkipNewLine(w) == rest;
  }

  lemma ReadKey(cfg: Config, kv: KeyVal, rest: string, section: string, val: string)
    requires KeyOk(kv.key) && ValueOk(cfg, kv.val)
    ensures FindEntry(cfg, KeyText(cfg, kv) + rest, section, val)
         == Some(Entry(section, Some(kv.key), LoadedVal(cfg, kv.val, val), rest, LoadedVal(cfg, kv.val, val)))
  {
    hide FindEntry, ValueText, ReadValue, ValueOk;
    if kv.val == [] && cfg.keyOnly {
      assert KeyText(cfg, kv) + rest == kv.key + "\n" + rest;
      ReadBareKey(cfg, kv.key, rest, section, val);
    } else {
      var blank := if cfg.spaces then " " else "";
      var after := blank + ValueText(cfg, kv.val) + "\n" + rest;
      assert KeyText(cfg, kv) + rest == kv.key + blank + "=" + after;
      ReadWritten(cfg, blank, kv.val, rest);
      ReadKeyLine(cfg, kv.key, blank, after, section, val);
    }
  }

  // ---- building the store ----

  lemma AddToLast(cfg: Config, done: Store, sec: Section, key: string, val: string)
    requires forall i :: 0 <= i < |done| ==> !Same(cfg, done[i].name, sec.name)
    requires forall i :: 0 <= i < |sec.keys| ==> !Same(cfg, sec.keys[i].key, key)
    ensures AddEntry(cfg, done + [sec], sec.name, Some(key), val)
         == done + [Section(sec.name, sec.keys + [KeyVal(key, val)])]
  {
    SameIsFold(cfg, sec.name, sec.name);
    var st := done + [sec];
    assert st[|done|] == sec;
    assert FindSection(cfg, st, sec.name) == |done|;
    assert FindKey(cfg, sec.keys, key) == |sec.keys|;
    assert st[|done| := Section(sec.name, sec.keys + [KeyVal(key, val)])]
        == done + [Section(sec.name, sec.keys + [KeyVal(key, val)])];
  }

  lemma AddHeader(cfg: Config, done: Store, name: string)
    requires forall i :: 0 <= i < |done| ==> !Same(cfg, done[i].name, name)
    ensures AddEntry(cfg, done, name, None, "") == done + [Section(name, [])]
  {}

  /** Reading the keys of one section appends them to the last section of the store. */
  lemma {:induction false} ReadKeys(cfg: Config, keys: seq<KeyVal>, rest: string, val: string, done: Store, sec: Section)
    requires KeysOk(cfg, keys)
    requires forall i :: 0 <= i < |done| ==> !Same(cfg, done[i].name, sec.name)
    requires forall i, j :: 0 <= i < |sec.keys| && 0 <= j < |keys| ==> !Same(cfg, sec.keys[i].key, keys[j].key)
    ensures LoadFrom(cfg, KeysText(cfg, keys) + rest, sec.name, val, done + [sec])
         == LoadFrom(cfg, rest, sec.name, LastVal(cfg, keys, val),
                     done + [Section(sec.name, sec.keys + LoadedKeys(cfg, keys, val))])
    decreases |keys|
  {
    hide LoadFrom, KeyText, Same, KeysOk;
    if keys == [] {
      assert KeysText(cfg, keys) + rest == rest;
      assert Section(sec.name, sec.keys + []) == sec;
    } else {
      var kv, more := keys[0], KeysText(cfg, keys[1..]) + rest;
      var v := LoadedVal(cfg, kv.val, val);
      var sec' := Section(sec.name, sec.keys + [KeyVal(kv.key, v)]);
      calc {
        LoadFrom(cfg, KeysText(cfg, keys) + rest, sec.name, val, done + [sec]);
      ==  { assert KeysText(cfg, keys) + rest == KeyText(cfg, kv) + more; }
        LoadFrom(cfg, KeyText(cfg, kv) + more, sec.name, val, done + [sec]);
      ==  { KeysTail(cfg, keys, sec.keys, v); ReadOneKey(cfg, kv, more, val, done, sec); }
        LoadFrom(cfg, more, sec.name, v, done + [sec']);
      ==  { KeysTail(cfg, keys, sec.keys, v); ReadKeys(cfg, keys[1..], rest, v, done, sec'); }
        LoadFrom(cfg, rest, sec.name, LastVal(cfg, keys[1..], v),
                 done + [Section(sec.name, sec'.keys + LoadedKeys(cfg, keys[1..], v))]);
      ==  { assert sec'.keys + LoadedKeys(cfg, keys[1..], v) == sec.keys + LoadedKeys(cfg, keys, val); }
        LoadFrom(cfg, rest, sec.name, LastVal(cfg, keys, val),
                 done + [Section(sec.name, sec.keys + LoadedKeys(cfg, keys, val))]);
      }
    }
  }

  lemma KeysTail(cfg: Config, keys: seq<KeyVal>, have: seq<KeyVal>, v: string)
    requires KeysOk(cfg, keys) && keys != []
    requires forall i, j :: 0 <= i < |have| && 0 <= j < |keys| ==> !Same(cfg, have[i].key, keys[j].key)
    ensures KeyOk(keys[0].key) && ValueOk(cfg, keys[0].val) && KeysOk(cfg, keys[1..])
    ensures var have' := have + [KeyVal(keys[0].key, v)];
      forall i, j :: 0 <= i < |have'| && 0 <= j < |keys[1..]| ==> !Same(cfg, have'[i].key, keys[1..][j].key)
  {}

  lemma ReadOneKey(cfg: Config, kv: KeyVal, more: string, val: string, done: Store, sec: Section)
    requires KeyOk(kv.key) && ValueOk(cfg, kv.val)
    requires forall i :: 0 <= i < |done| ==> !Same(cfg, done[i].name, sec.name)
    requires forall i :: 0 <= i < |sec.keys| ==> !Same(cfg, sec.keys[i].key, kv.key)
    ensures var v := LoadedVal(cfg, kv.val, val);
      LoadFrom(cfg, KeyText(cfg, kv) + more, sec.name, val, done + [sec])
        == LoadFrom(cfg, more, sec.name, v, done + [Section(sec.name, sec.keys + [KeyVal(kv.key, v)])])
  {
    hide FindEntry, AddEntry, KeyText, Same, ValueOk, KeyOk, LoadedVal;
    ReadKey(cfg, kv, more, sec.name, val);
    AddToLast(cfg, done, sec, kv.key, LoadedVal(cfg, kv.val, val));
  }

  /** Reading a named section appends it. */
  lemma ReadSection(cfg: Config, sec: Section, rest: string, section: string, val: string, done: Store)
    requires sec.name != [] && SectionNameOk(sec.name) && KeysOk(cfg, sec.keys)
    requires forall i :: 0 <= i < |done| ==> !Same(cfg, done[i].name, sec.name)
    ensures LoadFrom(cfg, SectionText(cfg, sec) + rest, section, val, done)
         == LoadFrom(cfg, rest, sec.name, LastVal(cfg, sec.keys, ""),
                     done + [Section(sec.name, LoadedKeys(cfg, sec.keys, ""))])
  {
    hide FindEntry, AddEntry, KeysText, Same, KeysOk;
    var more := KeysText(cfg, sec.keys) + rest;
    assert SectionText(cfg, sec) + rest == "[" + sec.name + "]" + "\n" + more;
    ReadHeader(cfg, sec.name, more, section, val);
    AddHeader(cfg, done, sec.name);
    LoadAfterSpaces(cfg, "\n", more, sec.name, "", done + [Section(sec.name, [])]);
    ReadKeys(cfg, sec.keys, rest, "", done, Section(sec.name, []));
    assert [] + LoadedKeys(cfg, sec.keys, "") == LoadedKeys(cfg, sec.keys, "");
  }

  /** Named sections, none of them among those that are already there. */
  ghost predicate Fresh(cfg: Config, done: Store, st: Store) {
    && (forall i :: 0 <= i < |st| ==> st[i].name != [])
    && (forall i, j :: 0 <= i < |done| && 0 <= j < |st| ==> !Same(cfg, done[i].name, st[j].name))
  }

  lemma {:induction false} ReadSections(cfg: Config, st: Store, section: string, val: string, done: Store)
    requires StoreOk(cfg, st) && Fresh(cfg, done, st)
    ensures LoadFrom(cfg, SectionsText(cfg, st), section, val, done) == done + LoadedSections(cfg, st)
    decreases |st|
  {
    hide *;
    if st == [] {
      NothingMore(cfg, section, val, done);
    } else {
      var sec', more := Section(st[0].name, LoadedKeys(cfg, st[0].keys, "")), LoadedSections(cfg, st[1..]);
      ReadFirst(cfg, st, section, val, done);
      SectionsSplit(cfg, st);
      SectionsTail(cfg, st, done, sec');
      ReadSections(cfg, st[1..], st[0].name, LastVal(cfg, st[0].keys, ""), done + [sec']);
      assert done + [sec'] + more == done + ([sec'] + more);
    }
  }

  lemma ReadFirst(cfg: Config, st: Store, section: string, val: string, done: Store)
    requires StoreOk(cfg, st) && st != [] && Fresh(cfg, done, st)
    ensures LoadFrom(cfg, SectionsText(cfg, st), section, val, done)
         == LoadFrom(cfg, SectionsText(cfg, st[1..]), st[0].name, LastVal(cfg, st[0].keys, ""),
                     done + [Section(st[0].name, LoadedKeys(cfg, st[0].keys, ""))])
  {
    hide Same, SectionText, SectionsText, LoadedSections, KeysOk, LoadFrom, LoadedKeys, LastVal, SectionNameOk;
    SectionsSplit(cfg, st);
    var sec := st[0];
    var sep := if |st| > 1 then "\n\n" else "";
    var more := SectionsText(cfg, st[1..]);
    ReadSection(cfg, sec, sep + more, section, val, done);
    LoadAfterSpaces(cfg, sep, more, sec.name, LastVal(cfg, sec.keys, ""),
                    done + [Section(sec.name, LoadedKeys(cfg, sec.keys, ""))]);
  }

  lemma SectionsSplit(cfg: Config, st: Store)
    requires st != []
    ensures SectionsText(cfg, st)
         == SectionText(cfg, st[0]) + ((if |st| > 1 then "\n\n" else "") + SectionsText(cfg, st[1..]))
    ensures LoadedSections(cfg, st) == [Section(st[0].name, LoadedKeys(cfg, st[0].keys, ""))] + LoadedSections(cfg, st[1..])
  {}

  lemma SectionsTail(cfg: Config, st: Store, done: Store, sec: Section)
    requires StoreOk(cfg, st) && st != [] && Fresh(cfg, done, st) && sec.name == st[0].name
    ensures StoreOk(cfg, st[1..]) && Fresh(cfg, done + [sec], st[1..])
  {}

  lemma NothingMore(cfg: Config, section: string, val: string, st: Store)
    ensures LoadFrom(cfg, "", section, val, st) == st
    ensures SectionsText(cfg, []) == "" && st + LoadedSections(cfg, []) == st
  {}

  lemma AddFirst(cfg: Config, key: string, val: string)
    ensures AddEntry(cfg, [], "", Some(key), val) == [] + [Section("", [KeyVal(key, val)])]
  {
    AddHeader(cfg, [], "");
    assert FindSection(cfg, [], "") == 0 && FindKey(cfg, [], key) == 0;
    assert PutKey(cfg, [], key, val) == [KeyVal(key, val)];
  }

  /** The section without a name has no header: its first key creates it. */
  lemma ReadUnnamed(cfg: Config, sec: Section, rest: string)
    requires sec.name == [] && KeysOk(cfg, sec.keys) && sec.keys != []
    ensures LoadFrom(cfg, SectionText(cfg, sec) + rest, "", "", [])
         == LoadFrom(cfg, rest, "", LastVal(cfg, sec.keys, ""), [Section("", LoadedKeys(cfg, sec.keys, ""))])
  {
    hide FindEntry, KeyText, ValueOk, KeyOk, Same;
    var kv, more := sec.keys[0], KeysText(cfg, sec.keys[1..]) + rest;
    assert SectionText(cfg, sec) + rest == KeyText(cfg, kv) + more;
    ReadKey(cfg, kv, more, "", "");
    var v := LoadedVal(cfg, kv.val, "");
    var first := Section("", [KeyVal(kv.key, v)]);
    AddFirst(cfg, kv.key, v);
    ReadKeys(cfg, sec.keys[1..], rest, v, [], first);
    assert [KeyVal(kv.key, v)] + LoadedKeys(cfg, sec.keys[1..], v) == LoadedKeys(cfg, sec.keys, "");
    assert [] + [Section("", LoadedKeys(cfg, sec.keys, ""))] == [Section("", LoadedKeys(cfg, sec.keys, ""))];
  }

  // ---- main results ----

  lemma SameSymmetric(cfg: Config, a: string, b: string)
    ensures Same(cfg, a, b) == Same(cfg, b, a)
  {}

  /** Moving the unnamed section to the front keeps the store well-formed and leaves only named
      sections behind it. */
  lemma EmptyFirstOk(cfg: Config, st: Store)
    requires StoreOk(cfg, st)
    ensures StoreOk(cfg, EmptyFirst(st))
    ensures forall i :: 1 <= i < |EmptyFirst(st)| ==> EmptyFirst(st)[i].name != []
  {
    hide Same, KeysOk, SectionNameOk;
    var i, o := FindEmptyName(st), EmptyFirst(st);
    if i < |st| {
      assert forall k :: 1 <= k < |o| ==> o[k] == st[if k <= i then k - 1 else k];
      assert o[0] == st[i];
      forall x, y | 0 <= x < y < |o| ensures !Same(cfg, o[x].name, o[y].name) {
        var p, q := if x == 0 then i else if x <= i then x - 1 else x, if y <= i then y - 1 else y;
        SameSymmetric(cfg, st[p].name, st[q].name);
      }
      forall k | 1 <= k < |o| ensures o[k].name != [] {
        if k > i && o[k].name == [] {
          SameReflexive(cfg, []);
          assert false;
        }
      }
    }
  }

  lemma SameReflexive(cfg: Config, a: string)
    ensures Same(cfg, a, a)
  {
    SameIsFold(cfg, a, a);
  }

  lemma SuffixOk(cfg: Config, st: Store)
    requires StoreOk(cfg, st) && st != []
    ensures StoreOk(cfg, st[1..])
  {}

  /** Loading what Save wrote gives back the sections, keys and values in order, for every
      configuration, except for what key-only lines do to empty values. */
  lemma SaveThenLoad(cfg: Config, st: Store)
    requires StoreOk(cfg, st)
    ensures Load(cfg, Save(cfg, st)) == LoadedSections(cfg, Normal(st))
  {
    hide StoreOk, LoadFrom, Normal, LoadedSections, Save;
    NoFileComment(cfg, st);
    SaveThenLoadFrom(cfg, st);
  }

  /** What Save writes does not start with a comment. */
  lemma NoFileComment(cfg: Config, st: Store)
    requires StoreOk(cfg, st)
    ensures Save(cfg, st) == [] || !IsComment(Save(cfg, st)[0])
  {
    EmptyFirstOk(cfg, st);
    var o := EmptyFirst(st);
    hide EmptyFirst, Same, ValueText, ValueOk;
    if o != [] && o[0].name == [] && o[0].keys != [] {
      var key := o[0].keys[0].key;
      assert KeyOk(key);
      assert Save(cfg, st)[0] == KeyText(cfg, o[0].keys[0])[0] == key[0];
    }
  }

  lemma SaveThenLoadFrom(cfg: Config, st: Store)
    requires StoreOk(cfg, st)
    ensures LoadFrom(cfg, Save(cfg, st), "", "", []) == LoadedSections(cfg, Normal(st))
  {
    hide Same, KeysOk, SectionNameOk, LoadFrom, KeysText, LoadedKeys, EmptyFirst;
    var o := EmptyFirst(st);
    EmptyFirstOk(cfg, st);
    if o == [] || o[0].name != [] {
      ReadSections(cfg, o, "", "", []);
      assert [] + LoadedSections(cfg, o) == LoadedSections(cfg, o);
    } else {
      var sec, tail := o[0], o[1..];
      SuffixOk(cfg, o);
      var more := if |o| > 1 then "\n\n" + SectionsText(cfg, tail) else "";
      assert Save(cfg, st) == SectionText(cfg, sec) + more;
      if sec.keys == [] {
        EmptySectionText(cfg, sec);
        assert Save(cfg, st) == (if |o| > 1 then "\n\n" else "") + SectionsText(cfg, tail);
        LoadAfterSpaces(cfg, if |o| > 1 then "\n\n" else "", SectionsText(cfg, tail), "", "", []);
        ReadSections(cfg, tail, "", "", []);
        assert [] + LoadedSections(cfg, tail) == LoadedSections(cfg, tail);
      } else {
        ReadUnnamed(cfg, sec, more);
        var done, last := [Section("", LoadedKeys(cfg, sec.keys, ""))], LastVal(cfg, sec.keys, "");
        assert more == (if |o| > 1 then "\n\n" else "") + SectionsText(cfg, tail);
        LoadAfterSpaces(cfg, if |o| > 1 then "\n\n" else "", SectionsText(cfg, tail), "", last, done);
        forall j | 0 <= j < |tail| ensures !Same(cfg, done[0].name, tail[j].name) {
          assert tail[j] == o[j + 1];
        }
        ReadSections(cfg, tail, "", last, done);
        assert done + LoadedSections(cfg, tail) == LoadedSections(cfg, o);
      }
    }
  }

  lemma EmptySectionText(cfg: Config, sec: Section)
    requires sec.name == [] && sec.keys == []
    ensures SectionText(cfg, sec) == ""
  {}

  /** No key with an empty value comes after one with a value. */
  ghost predicate EmptiesFirst(keys: seq<KeyVal>) {
    forall i, j :: 0 <= i < j < |keys| && keys[j].val == [] ==> keys[i].val == []
  }

  lemma {:induction false} LoadedKeysSameIff(cfg: Config, keys: seq<KeyVal>, prev: string)
    ensures LoadedKeys(cfg, keys, prev) == keys
      <==> !cfg.keyOnly || (EmptiesFirst(keys) && (prev != [] ==> AllValued(keys)))
  {
    hide EmptiesFirst, LoadedKeys;
    if keys == [] {
      NoLoadedKeys(cfg, prev);
    } else {
      var v := LoadedVal(cfg, keys[0].val, prev);
      LoadedKeysSameIff(cfg, keys[1..], v);
      FirstLoadedKey(cfg, keys, prev);
      EmptiesSplit(keys);
      ValuesSplit(keys);
    }
  }

  lemma NoLoadedKeys(cfg: Config, prev: string)
    ensures LoadedKeys(cfg, [], prev) == [] && EmptiesFirst([])
  {}

  lemma FirstLoadedKey(cfg: Config, keys: seq<KeyVal>, prev: string)
    requires keys != []
    ensures var v := LoadedVal(cfg, keys[0].val, prev);
      LoadedKeys(cfg, keys, prev) == keys <==> v == keys[0].val && LoadedKeys(cfg, keys[1..], v) == keys[1..]
  {
    var v := LoadedVal(cfg, keys[0].val, prev);
    var r := LoadedKeys(cfg, keys, prev);
    assert r == [KeyVal(keys[0].key, v)] + LoadedKeys(cfg, keys[1..], v);
    assert r[1..] == LoadedKeys(cfg, keys[1..], v);
    assert keys == [keys[0]] + keys[1..];
    hide LoadedKeys;
  }

  ghost predicate AllValued(keys: seq<KeyVal>) { forall i :: 0 <= i < |keys| ==> keys[i].val != [] }

  lemma EmptiesSplit(keys: seq<KeyVal>)
    requires keys != []
    ensures EmptiesFirst(keys) <==> EmptiesFirst(keys[1..]) && (keys[0].val != [] ==> AllValued(keys[1..]))
  {
    assert forall i :: 0 <= i < |keys| - 1 ==> keys[1..][i] == keys[i + 1];
    assert forall i :: 1 <= i < |keys| ==> keys[i] == keys[1..][i - 1];
  }

  lemma ValuesSplit(keys: seq<KeyVal>)
    requires keys != []
    ensures AllValued(keys) <==> keys[0].val != [] && AllValued(keys[1..])
  {
    assert forall i :: 1 <= i < |keys| ==> keys[i] == keys[1..][i - 1];
  }

  /** The round trip is exact if and only if key-only entries are off, or no section has an empty value
      after a value that is not empty. */
  lemma RoundTripIff(cfg: Config, st: Store)
    requires StoreOk(cfg, st)
    ensures Load(cfg, Save(cfg, st)) == Normal(st)
      <==> !cfg.keyOnly || forall i :: 0 <= i < |st| ==> EmptiesFirst(st[i].keys)
  {
    hide Load, Save, StoreOk, LoadedKeys;
    SaveThenLoad(cfg, st);
    var o := Normal(st);
    forall i | 0 <= i < |o| ensures LoadedSections(cfg, o)[i] == o[i] <==> !cfg.keyOnly || EmptiesFirst(o[i].keys) {
      LoadedKeysSameIff(cfg, o[i].keys, "");
    }
    assert LoadedSections(cfg, o) == o <==> forall i :: 0 <= i < |o| ==> LoadedSections(cfg, o)[i] == o[i];
    NormalSections(st);
  }

  /** Normalising keeps the sections, up to order and an unnamed one without keys. */
  lemma NormalSections(st: Store)
    ensures forall i :: 0 <= i < |Normal(st)| ==> Normal(st)[i] in st
    ensures forall i :: 0 <= i < |st| ==> st[i] in Normal(st) || st[i].keys == []
  {
    var o, r := EmptyFirst(st), Normal(st);
    EmptyFirstSections(st);
    hide EmptyFirst;
    assert forall k :: 0 <= k < |r| ==> r[k] == o[if r == o then k else k + 1];
    forall k | 1 <= k < |o| ensures o[k] in r {
      assert r == o || r[k - 1] == o[k];
    }
    forall x | x in o ensures x in r || x.keys == [] {
      var k :| 0 <= k < |o| && o[k] == x;
    }
  }

  lemma EmptyFirstSections(st: Store)
    ensures forall x :: x in st <==> x in EmptyFirst(st)
  {}

  /** The smallest store that does not come back: with key-only entries on, `b` takes the value of `a`. */
  lemma StaleValue()
    ensures var cfg := Config(true, true, false, true, false);
      var st := [Section("s", [KeyVal("a", "1"), KeyVal("b", "")])];
      StoreOk(cfg, st) && Load(cfg, Save(cfg, st)) == [Section("s", [KeyVal("a", "1"), KeyVal("b", "1")])]
  {
    var cfg := Config(true, true, false, true, false);
    var keys := [KeyVal("a", "1"), KeyVal("b", "")];
    var st := [Section("s", keys)];
    StaleKeysOk(cfg, keys);
    assert StoreOk(cfg, st) by { hide KeysOk, Same; }
    assert Normal(st) == st by { hide KeysOk; }
    hide StoreOk, KeysOk, Load, Save, Normal;
    SaveThenLoad(cfg, st);
    assert keys[1..] == [KeyVal("b", "")] && keys[1..][1..] == [];
    assert LoadedKeys(cfg, keys[1..], "1") == [KeyVal("b", "1")];
    assert LoadedKeys(cfg, keys, "") == [KeyVal("a", "1"), KeyVal("b", "1")];
    assert LoadedSections(cfg, st)[0] == Section("s", LoadedKeys(cfg, keys, ""));
  }

  lemma StaleKeysOk(cfg: Config, keys: seq<KeyVal>)
    requires cfg == Config(true, true, false, true, false) && keys == [KeyVal("a", "1"), KeyVal("b", "")]
    ensures KeysOk(cfg, keys)
  {
    SameIsFold(cfg, "a", "b");
    assert Fold(cfg, "a")[0] != Fold(cfg, "b")[0];
    hide Same;
  }
}
