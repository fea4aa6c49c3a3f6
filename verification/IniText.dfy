/** The INI format of opencv-test/play-frame/SimpleIni.h on values: what the parser makes of a text,
    what it stores, and what Save writes. Strings carry no NUL, newlines are written as LF, and
    comments are read but not kept. */
module IniText {
  import opened Options

  /** The switches of CSimpleIniTempl; `caseless` stands for SI_GenericNoCase. Multiple values per key
      are off. */
  datatype Config = Config(multiLine: bool, spaces: bool, quotes: bool, keyOnly: bool, caseless: bool)

  predicate IsNewLine(c: char) { c == '\n' || c == '\r' }

  predicate IsSpace(c: char) { c == ' ' || c == '\t' || IsNewLine(c) }

  predicate IsComment(c: char) { c == ';' || c == '#' }

  // ---- comparing names ----

  function FoldChar(cfg: Config, c: char): char {
    if cfg.caseless && 'A' <= c <= 'Z' then (c as int + 32) as char else c
  }

  function Fold(cfg: Config, s: string): (r: string)
    ensures |r| == |s| && forall i :: 0 <= i < |s| ==> r[i] == FoldChar(cfg, s[i])
  {
    if s == [] then [] else [FoldChar(cfg, s[0])] + Fold(cfg, s[1..])
  }

  /** SI_GenericCase and SI_GenericNoCase: character by character, a proper prefix is less. */
  predicate IsLess(cfg: Config, a: string, b: string) {
    if a == [] || b == [] then b != []
    else if FoldChar(cfg, a[0]) != FoldChar(cfg, b[0]) then FoldChar(cfg, a[0]) < FoldChar(cfg, b[0])
    else IsLess(cfg, a[1..], b[1..])
  }

  /** Two names are the same when neither is less. */
  predicate Same(cfg: Config, a: string, b: string) { !IsLess(cfg, a, b) && !IsLess(cfg, b, a) }

  lemma {:induction false} SameIsFold(cfg: Config, a: string, b: string)
    ensures Same(cfg, a, b) <==> Fold(cfg, a) == Fold(cfg, b)
  {
    if a != [] && b != [] {
      SameIsFold(cfg, a[1..], b[1..]);
      var fa, fb := Fold(cfg, a), Fold(cfg, b);
      assert fa == [FoldChar(cfg, a[0])] + Fold(cfg, a[1..]) && fb == [FoldChar(cfg, b[0])] + Fold(cfg, b[1..]);
      assert fa[1..] == Fold(cfg, a[1..]) && fb[1..] == Fold(cfg, b[1..]);
    }
  }

  /** The comparison is a strict order, as the ordered containers demand. */
  lemma {:induction false} LessIsTransitive(cfg: Config, a: string, b: string, c: string)
    requires IsLess(cfg, a, b) && IsLess(cfg, b, c)
    ensures IsLess(cfg, a, c) && !IsLess(cfg, c, a)
  {
    if a != [] && FoldChar(cfg, a[0]) == FoldChar(cfg, b[0]) == FoldChar(cfg, c[0]) {
      LessIsTransitive(cfg, a[1..], b[1..], c[1..]);
    }
  }

  // ---- scanning ----

  datatype Stop = AtNewLine | AtBracket | AtEquals

  predicate Stops(k: Stop, c: char) {
    IsNewLine(c) || (k == AtBracket && c == ']') || (k == AtEquals && c == '=')
  }

  function Take(k: Stop, s: string): (r: string)
    ensures |r| + |Drop(k, s)| == |s|
  {
    if s == [] || Stops(k, s[0]) then [] else [s[0]] + Take(k, s[1..])
  }

  lemma {:induction false} TakeThenDrop(k: Stop, s: string)
    ensures Take(k, s) + Drop(k, s) == s
  {
    if s != [] && !Stops(k, s[0]) {
      TakeThenDrop(k, s[1..]);
      assert s == [s[0]] + s[1..];
    }
  }

  function Drop(k: Stop, s: string): (r: string)
    ensures |r| <= |s|
    ensures s != [] && !Stops(k, s[0]) ==> |r| < |s|
  {
    if s == [] || Stops(k, s[0]) then s else Drop(k, s[1..])
  }

  function DropSpaces(s: string): (r: string)
    ensures |r| <= |s| && (r == [] || !IsSpace(r[0]))
  {
    if s != [] && IsSpace(s[0]) then DropSpaces(s[1..]) else s
  }

  /** Blanks within a line. */
  function DropBlanks(s: string): (r: string)
    ensures |r| <= |s|
  {
    if s != [] && IsSpace(s[0]) && !IsNewLine(s[0]) then DropBlanks(s[1..]) else s
  }

  function TrimRight(s: string): (r: string)
    ensures r <= s
  {
    if s != [] && IsSpace(s[|s| - 1]) then TrimRight(s[..|s| - 1]) else s
  }

  /** Trailing blanks go, but the first character stays whatever it is. */
  function TrimTail(s: string): (r: string)
    ensures r <= s
  {
    if |s| > 1 && IsSpace(s[|s| - 1]) then TrimTail(s[..|s| - 1]) else s
  }

  /** One newline: CR LF counts as one. */
  function SkipNewLine(s: string): (r: string)
    ensures |r| <= |s| && (s != [] ==> |r| < |s|)
  {
    if s == [] then [] else if s[0] == '\r' && |s| > 1 && s[1] == '\n' then s[2..] else s[1..]
  }

  // ---- multi-line values ----

  /** Nothing, a value that ends in a NUL of its own, or a value without an end: the rest of the text. */
  datatype Lines = NoLines | Lines(val: string, rest: string) | Endless(val: string, rest: string)

  /** LoadMultiLineText with a tag. `acc` holds the lines so far, each with its newline; `moved` says
      that a CR LF has already shortened the text, from when on trailing blanks of a tag line are no
      longer ignored. A tag on the first line makes that line the value, and the newline that is put
      back behind it leaves that value without an end; an empty first line that matches an empty tag
      is a failure. */
  function LoadLines(cfg: Config, s: string, tag: string, acc: string, moved: bool): (r: Lines)
    ensures !r.NoLines? ==> |r.rest| <= |s|
    ensures r.Endless? ==> |r.rest| <= |r.val|
    decreases |s|
  {
    var line, z := Take(AtNewLine, s), Drop(AtNewLine, s);
    var shown := if moved then line else TrimTail(line);
    if Same(cfg, shown, tag) then
      if acc != [] then Lines(acc[..|acc| - 1], SkipNewLine(z))
      else if line == [] then NoLines
      else if z == [] || |shown| < |line| then Lines(shown, SkipNewLine(z))
      else Endless(s, SkipNewLine(z))
    else if z == [] then Lines(acc + line, [])
    else
      LoadLines(cfg, SkipNewLine(z), tag, acc + line + "\n", moved || (z[0] == '\r' && |z| > 1 && z[1] == '\n'))
  }

  predicate HasTag(v: string) { |v| >= 3 && v[..3] == "<<<" }

  // ---- comments ----

  /** The newlines in leading white space. */
  function BlankLines(s: string): (n: nat)
    ensures n <= |s| - |DropSpaces(s)|
    decreases |s|
  {
    if s == [] || !IsSpace(s[0]) then 0
    else if IsNewLine(s[0]) then 1 + BlankLines(SkipNewLine(s))
    else BlankLines(s[1..])
  }

  function NewLines(n: nat): (r: string)
    ensures |r| == n
  {
    seq(n, _ => '\n')
  }

  /** The text of a run of comment lines, and what follows it. */
  datatype Comment = Comment(text: string, rest: string)

  /** LoadMultiLineText without a tag, after the lines in `acc`. Newlines become single LFs; with `blanks`,
      white space between two comments belongs to the run, of which only the newlines stay. */
  function CommentRun(s: string, acc: string, blanks: bool): (r: Comment)
    ensures |r.rest| <= |s| && (s != [] && IsComment(s[0]) ==> |r.rest| < |s|)
    decreases |s|
  {
    if s != [] && IsComment(s[0]) then
      var line, z := Take(AtNewLine, s), Drop(AtNewLine, s);
      if z == [] then Comment(acc + line, []) else CommentRun(SkipNewLine(z), acc + line + "\n", blanks)
    else
      var t := DropSpaces(s);
      if blanks && t != [] && IsComment(t[0]) then CommentRun(t, acc + NewLines(BlankLines(s)), blanks)
      else Comment(if acc == [] then [] else acc[..|acc| - 1], s)
  }

  // ---- one entry ----

  function Before(s: string, rest: string): (r: string)
    requires |rest| <= |s|
    ensures |r| + |rest| == |s|
  {
    s[..|s| - |rest|]
  }

  /** How far a string that reaches into the text s goes once FindEntry has looked for an entry there: to
      the end of the next section or key name or of the next comment, whichever comes first. */
  function Head(cfg: Config, s: string): string
    decreases |s|
  {
    var t := DropSpaces(s);
    if t == [] then s
    else if IsComment(t[0]) then Before(s, t) + CommentRun(t, "", true).text
    else if t[0] == '[' then
      var u := DropSpaces(t[1..]);
      var w := Drop(AtBracket, u);
      if w == [] || w[0] != ']' then Before(s, w) + Head(cfg, w) else Before(s, u) + TrimRight(Take(AtBracket, u))
    else
      var w := Drop(AtEquals, t);
      if (w == [] || w[0] != '=') && !cfg.keyOnly then Before(s, w) + Head(cfg, w)
      else if t[0] == '=' then Before(s, Drop(AtNewLine, w)) + Head(cfg, Drop(AtNewLine, w))
      else Before(s, t) + TrimRight(Take(AtEquals, t))
  }

  /** A section header (no key) or a key; `rest` is the text that follows, and `copy` what a copy of the
      value gets that is made at once. */
  datatype Entry = Entry(section: string, key: Option<string>, val: string, rest: string, copy: string)

  /** FindEntry. `val` is the value left over from the previous call ("" for none): a key without an
      equals sign does not set it. A header without its closing bracket moves the section pointer to a
      name that is ended only by what is found next. */
  function FindEntry(cfg: Config, s: string, section: string, val: string): (r: Option<Entry>)
    ensures r.Some? ==> |r.value.rest| < |s|
    decreases |s|
  {
    var t := DropSpaces(s);
    if t == [] then None
    else if IsComment(t[0]) then FindEntry(cfg, CommentRun(t, "", true).rest, section, val)
    else if t[0] == '[' then
      var u := DropSpaces(t[1..]);
      var w := Drop(AtBracket, u);
      if w == [] || w[0] != ']' then FindEntry(cfg, w, Before(u, w) + Head(cfg, w), val)
      else Some(Entry(TrimRight(Take(AtBracket, u)), None, "", Drop(AtNewLine, w[1..]), ""))
    else
      var w := Drop(AtEquals, t);
      if w == [] || w[0] != '=' then
        if !cfg.keyOnly then FindEntry(cfg, w, section, val)
        else Some(Entry(section, Some(TrimRight(Take(AtEquals, t))), val, SkipNewLine(w), val))
      else if t[0] == '=' then FindEntry(cfg, Drop(AtNewLine, w), section, val)
      else
        var v := ReadValue(cfg, w[1..]);
        if v.NoLines? then None
        else Some(Entry(section, Some(TrimRight(Take(AtEquals, t))), Ended(cfg, v), v.rest, v.val))
  }

  /** A value without an end of its own goes on into the text behind it, up to what is found there. */
  function Ended(cfg: Config, v: Lines): string
    requires !v.NoLines? && (v.Endless? ==> |v.rest| <= |v.val|)
  {
    if v.Endless? then Before(v.val, v.rest) + Head(cfg, v.rest) else v.val
  }

  /** The value after an equals sign: plain, quoted, or the start of a multi-line block. */
  function ReadValue(cfg: Config, s: string): (r: Lines)
    ensures !r.NoLines? ==> |r.rest| <= |s|
    ensures r.Endless? ==> |r.rest| <= |r.val|
  {
    var v0 := DropBlanks(s);
    var v := TrimRight(Take(AtNewLine, v0));
    ValueOf(cfg, v, SkipNewLine(Drop(AtNewLine, v0)))
  }

  function ValueOf(cfg: Config, v: string, rest: string): (r: Lines)
    ensures !r.NoLines? ==> |r.rest| <= |rest|
    ensures r.Endless? ==> |r.rest| <= |r.val|
  {
    if cfg.multiLine && HasTag(v) then LoadLines(cfg, rest, v[3..], "", false)
    else if cfg.quotes && |v| >= 2 && v[0] == '"' && v[|v| - 1] == '"' then Lines(v[1..|v| - 1], rest)
    else Lines(v, rest)
  }

  // ---- the store ----

  datatype KeyVal = KeyVal(key: string, val: string)

  /** Sections and keys in load order. */
  datatype Section = Section(name: string, keys: seq<KeyVal>)

  type Store = seq<Section>

  function FindSection(cfg: Config, st: Store, name: string): (r: nat)
    ensures r <= |st|
    ensures r < |st| ==> Same(cfg, st[r].name, name)
    ensures forall i :: 0 <= i < r ==> !Same(cfg, st[i].name, name)
  {
    if st == [] || Same(cfg, st[0].name, name) then 0 else 1 + FindSection(cfg, st[1..], name)
  }

  function FindKey(cfg: Config, keys: seq<KeyVal>, key: string): (r: nat)
    ensures r <= |keys|
    ensures r < |keys| ==> Same(cfg, keys[r].key, key)
    ensures forall i :: 0 <= i < r ==> !Same(cfg, keys[i].key, key)
  {
    if keys == [] || Same(cfg, keys[0].key, key) then 0 else 1 + FindKey(cfg, keys[1..], key)
  }

  function PutKey(cfg: Config, keys: seq<KeyVal>, key: string, val: string): seq<KeyVal> {
    var k := FindKey(cfg, keys, key);
    if k < |keys| then keys[k := KeyVal(keys[k].key, val)] else keys + [KeyVal(key, val)]
  }

  /** AddEntry: a known section or key keeps its place and spelling. */
  function AddEntry(cfg: Config, st: Store, section: string, key: Option<string>, val: string): Store {
    var i := FindSection(cfg, st, section);
    var st' := if i < |st| then st else st + [Section(section, [])];
    match key
    case None => st'
    case Some(k) => st'[i := Section(st'[i].name, PutKey(cfg, st'[i].keys, k, val))]
  }

  function LoadFrom(cfg: Config, s: string, section: string, val: string, st: Store): Store
    decreases |s|
  {
    match FindEntry(cfg, s, section, val)
    case None => st
    case Some(e) => LoadFrom(cfg, e.rest, e.section, e.val, AddEntry(cfg, st, e.section, e.key, e.val))
  }

  /** FindFileComment: a comment at the very start, without blank lines, belongs to the file. */
  function AfterFileComment(text: string): (r: string)
    ensures |r| <= |text|
  {
    if text != [] && IsComment(text[0]) then CommentRun(text, "", false).rest else text
  }

  /** LoadData into an empty store. */
  function Load(cfg: Config, text: string): Store { LoadFrom(cfg, AfterFileComment(text), "", "", []) }

  /** Loading into a store that already holds data: the strings are copied as they are found. */
  function CopyFrom(cfg: Config, s: string, section: string, val: string, st: Store): Store
    decreases |s|
  {
    match FindEntry(cfg, s, section, val)
    case None => st
    case Some(e) => CopyFrom(cfg, e.rest, e.section, e.val, AddEntry(cfg, st, e.section, e.key, e.copy))
  }

  /** LoadData into such a store; `hasComment` says that it has a file comment already. */
  function LoadMore(cfg: Config, text: string, hasComment: bool, st: Store): Store {
    CopyFrom(cfg, if hasComment then text else AfterFileComment(text), "", "", st)
  }

  // ---- Save ----

  predicate HasNewLine(v: string) { exists i :: 0 <= i < |v| && IsNewLine(v[i]) }

  predicate IsMultiLineData(v: string) {
    v != [] && (IsSpace(v[0]) || HasNewLine(v) || IsSpace(v[|v| - 1]))
  }

  /** The leading blank is tested before the newlines are. */
  predicate IsSingleLineQuotedValue(v: string) {
    v != [] && (IsSpace(v[0]) || (!HasNewLine(v) && IsSpace(v[|v| - 1])))
  }

  function LineTo(v: string): (n: nat)
    ensures n <= |v| && (n < |v| ==> v[n] == '\n')
  {
    if v == [] || v[0] == '\n' then 0 else 1 + LineTo(v[1..])
  }

  /** OutputMultiLineText: line by line, split at LF. */
  function Output(v: string): string
    decreases |v|
  {
    if v == [] then [] else
      var n := LineTo(v);
      if n == |v| then v + "\n"
      else if n + 1 == |v| then v[..n] + "\n" + "\n"
      else v[..n] + "\n" + Output(v[n + 1..])
  }

  const END_TAG: string := "END_OF_TEXT"

  function ValueText(cfg: Config, v: string): string {
    if cfg.quotes && IsSingleLineQuotedValue(v) then "\"" + v + "\""
    else if cfg.multiLine && IsMultiLineData(v) then "<<<" + END_TAG + "\n" + Output(v) + END_TAG
    else v
  }

  function KeyText(cfg: Config, kv: KeyVal): string {
    kv.key +
    (if kv.val != [] || !cfg.keyOnly then (if cfg.spaces then " = " else "=") + ValueText(cfg, kv.val) else "") +
    "\n"
  }

  function KeysText(cfg: Config, keys: seq<KeyVal>): string {
    if keys == [] then "" else KeyText(cfg, keys[0]) + KeysText(cfg, keys[1..])
  }

  function SectionText(cfg: Config, sec: Section): string {
    (if sec.name != [] then "[" + sec.name + "]" + "\n" else "") + KeysText(cfg, sec.keys)
  }

  function SectionsText(cfg: Config, st: Store): string {
    if st == [] then ""
    else SectionText(cfg, st[0]) + (if |st| > 1 then "\n\n" + SectionsText(cfg, st[1..]) else "")
  }

  function FindEmptyName(st: Store): (r: nat)
    ensures r <= |st| && (r < |st| ==> st[r].name == [])
    ensures forall i :: 0 <= i < r ==> st[i].name != []
  {
    if st == [] || st[0].name == [] then 0 else 1 + FindEmptyName(st[1..])
  }

  /** The section without a name comes first, whatever its load order. */
  function EmptyFirst(st: Store): Store {
    var i := FindEmptyName(st);
    if i < |st| then [st[i]] + st[..i] + st[i + 1..] else st
  }

  /** Save. */
  function Save(cfg: Config, st: Store): string { SectionsText(cfg, EmptyFirst(st)) }
}
